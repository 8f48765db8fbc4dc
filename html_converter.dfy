/** The block scan of src/html_converter.py: the matches of the title pattern are walked
    in document order, text between allowed blocks is copied, every allowed block is run
    through the processors, and headings are recorded as titles with ids injected.
    Also the asset-path mapping and the favicon / web-manifest checklist. */
module HtmlConverter {
  import opened TextUtil
  import opened Processors
  import opened Validators

  /** `Title(level, text, id)` */
  datatype Title = Title(level: nat, text: string, id: string)

  /** One match of the configured title pattern: `match.start()` and `match.end()`. */
  datatype Match = Match(start: nat, end: nat)

  /** What the converter reads from its configuration: `html.allowed_tags`,
      `ids.title_prefix`, and the processor list as the constructor stores it, that is
      after the fallback of `MakeConfig`, so never empty. */
  datatype Config = Config(allowedTags: set<string>, titlePrefix: string, processors: seq<Processor>)

  /** The processors used when none are given (lines 42-46). */
  const DefaultProcessors: seq<Processor> := [CodeProcessor, ListProcessor, TableProcessor]

  /** The configuration the constructor builds from the loaded settings and its
      `processors` argument: `processors or [...]` replaces an empty (falsy) list by the
      defaults, so the stored list is never empty and a non-empty one is kept as given. */
  function MakeConfig(allowedTags: set<string>, titlePrefix: string, given: seq<Processor>): (cfg: Config)
    ensures cfg.processors != [] && cfg.allowedTags == allowedTags && cfg.titlePrefix == titlePrefix
    ensures given != [] ==> cfg.processors == given
    ensures given == [] ==> cfg.processors == DefaultProcessors
  {
    Config(allowedTags, titlePrefix, if given == [] then DefaultProcessors else given)
  }

  /** `re.finditer` yields matches that lie in the content, in order, without overlap. */
  predicate WellFormed(content: string, ms: seq<Match>)
  {
    (forall i :: 0 <= i < |ms| ==> ms[i].start <= ms[i].end <= |content|)
    && (forall i, j :: 0 <= i < j < |ms| ==> ms[i].end <= ms[j].start)
  }

  // ---------------------------------------------------------------------------
  // Tags: `re.match(r'<(\w+)', s)` and `re.match(r'<h([1-6])', s)`

  predicate IsWordChar(c: char)
  {
    'a' <= c <= 'z' || 'A' <= c <= 'Z' || '0' <= c <= '9' || c == '_'
  }

  /** The length of the run of word characters starting at offset `i` (greedy `\w+`). */
  function WordRun(s: string, i: nat): (n: nat)
    requires i <= |s|
    ensures i + n <= |s|
    ensures forall k :: i <= k < i + n ==> IsWordChar(s[k])
    ensures i + n == |s| || !IsWordChar(s[i + n])
    decreases |s| - i
  {
    if i < |s| && IsWordChar(s[i]) then 1 + WordRun(s, i + 1) else 0
  }

  /** `group(1)` of `re.match(r'<(\w+)', s)`, or `None` when the pattern does not match. */
  function TagName(s: string): (r: Option<string>)
    ensures r.Some? <==> |s| >= 2 && s[0] == '<' && IsWordChar(s[1])
    ensures r.Some? ==> |r.value| >= 1 && StartsWith(s, "<" + r.value)
    ensures r.Some? ==> 1 + |r.value| == |s| || !IsWordChar(s[1 + |r.value|])
  {
    if |s| >= 2 && s[0] == '<' && IsWordChar(s[1]) then
      var n := WordRun(s, 1);
      assert s[..1 + n] == "<" + s[1..1 + n];
      Some(s[1..1 + n])
    else None
  }

  /** The digit captured by `re.match(r'<h([1-6])', s)`, as an `int`. */
  function HeadingLevel(s: string): (r: Option<nat>)
    ensures r.Some? <==> |s| >= 3 && s[0] == '<' && s[1] == 'h' && '1' <= s[2] <= '6'
    ensures r.Some? ==> 1 <= r.value <= 6 && s[2] == DigitChar(r.value)
  {
    if |s| >= 3 && s[0] == '<' && s[1] == 'h' && '1' <= s[2] <= '6' then
      Some((s[2] as int - '0' as int) as nat)
    else None
  }

  /** `_process_single_title`: the level, the extracted text, and the id built from the
      match's ordinal. `extract` stands for BeautifulSoup's `get_text(" ", strip=True)`. */
  function ProcessSingleTitle(tag: string, index: nat, prefix: string, extract: string -> string): (r: Option<Title>)
    ensures r.Some? <==> |tag| >= 3 && tag[0] == '<' && tag[1] == 'h' && '1' <= tag[2] <= '6'
    ensures r.Some? ==> 1 <= r.value.level <= 6 && tag[2] == DigitChar(r.value.level)
    ensures r.Some? ==> r.value.text == extract(tag) && r.value.id == prefix + NatToString(index + 1)
  {
    match HeadingLevel(tag)
    case None => None
    case Some(level) => Some(Title(level, extract(tag), prefix + NatToString(index + 1)))
  }

  /** `<hN>` for a title's level. */
  function OpenTag(t: Title): string
  {
    "<h" + NatToString(t.level) + ">"
  }

  /** `_add_id_to_title`: every exact `<hN>` becomes `<hN id="ID">`. */
  function AddId(tag: string, t: Title): string
  {
    ReplaceAll(tag, OpenTag(t), "<h" + NatToString(t.level) + " id=\"" + t.id + "\">")
  }

  /** An opening tag that carries attributes is not an exact `<hN>`: nothing is injected. */
  lemma AddIdWithoutExactTag(tag: string, t: Title)
    requires !Contains(tag, OpenTag(t))
    ensures AddId(tag, t) == tag
  {
    ReplaceAllAbsent(tag, OpenTag(t), "<h" + NatToString(t.level) + " id=\"" + t.id + "\">");
  }

  /** A block that opens with the exact tag, and holds no other, gets the id on that tag. */
  lemma AddIdOnOpeningTag(rest: string, t: Title)
    requires !Contains(rest, OpenTag(t))
    ensures AddId(OpenTag(t) + rest, t) == "<h" + NatToString(t.level) + " id=\"" + t.id + "\">" + rest
  {
    var pat := OpenTag(t);
    var rep := "<h" + NatToString(t.level) + " id=\"" + t.id + "\">";
    var s := pat + rest;
    assert StartsWith(s, pat) && s[|pat|..] == rest;
    ReplaceAllAbsent(rest, pat, rep);
  }

  // ---------------------------------------------------------------------------
  // `_process_content`

  /** The processors applied in list order: the last one runs on the output of the others. */
  function ApplyAll(ps: seq<Processor>, content: string): string
    decreases |ps|
  {
    if ps == [] then content else Apply(ps[|ps| - 1], ApplyAll(ps[..|ps| - 1], content))
  }

  /** `_process_content`: `content = processor.process(content)` for each processor in turn. */
  method ProcessContent(ps: seq<Processor>, content: string) returns (r: string)
    ensures r == ApplyAll(ps, content)
  {
    r := content;
    for i := 0 to |ps|
      invariant r == ApplyAll(ps[..i], content)
    {
      assert ps[..i + 1][..i] == ps[..i];
      r := Run(ps[i], r);
    }
    assert ps[..|ps|] == ps;
  }

  /** With the default list, code spans are escaped first, then lists, then tables. */
  lemma DefaultOrder(content: string)
    ensures ApplyAll(DefaultProcessors, content) == TableHtml(ListProcess(CodeProcess(content)))
  {
    var ps := DefaultProcessors;
    assert ps[..2][..1] == [CodeProcessor] && ps[..2][1] == ListProcessor;
    assert ps[..1][..0] == [];
    assert ApplyAll(ps[..1], content) == CodeProcess(content);
    assert ApplyAll(ps[..2], content) == ListProcess(CodeProcess(content));
  }

  // ---------------------------------------------------------------------------
  // `process_titles`

  /** Whether the converter handles a block: its tag name is configured. */
  predicate Allowed(tag: string, cfg: Config)
  {
    TagName(tag).Some? && TagName(tag).value in cfg.allowedTags
  }

  /** The title recorded for the block of match number `index`, if any (lines 111-115). */
  function TitleOf(tag: string, index: nat, cfg: Config, extract: string -> string): (r: Option<Title>)
    ensures r.Some? <==> Allowed(tag, cfg) && StartsWith(TagName(tag).value, "h") && HeadingLevel(tag).Some?
    ensures r.Some? ==> 1 <= r.value.level <= 6 && tag[2] == DigitChar(r.value.level)
    ensures r.Some? ==> r.value.id == cfg.titlePrefix + NatToString(index + 1) && r.value.text == extract(tag)
  {
    if Allowed(tag, cfg) && StartsWith(TagName(tag).value, "h") then
      ProcessSingleTitle(tag, index, cfg.titlePrefix, extract)
    else None
  }

  /** The processed form of an allowed block: id injection, then the processors (lines 113-119). */
  function BlockHtml(tag: string, index: nat, cfg: Config, extract: string -> string): string
  {
    var t := TitleOf(tag, index, cfg, extract);
    ApplyAll(cfg.processors, if t.Some? then AddId(tag, t.value) else tag)
  }

  function TagOf(content: string, m: Match): string
    requires m.start <= m.end <= |content|
  {
    content[m.start..m.end]
  }

  /** `last_index` after the loop has seen `ms`: the end of the last allowed match. */
  function LastEnd(content: string, ms: seq<Match>, cfg: Config): (r: nat)
    requires WellFormed(content, ms)
    ensures r <= |content|
    ensures ms == [] ==> r == 0
    ensures ms != [] ==> r <= ms[|ms| - 1].end
    decreases |ms|
  {
    if ms == [] then 0
    else
      var m := ms[|ms| - 1];
      if Allowed(TagOf(content, m), cfg) then m.end else LastEnd(content, ms[..|ms| - 1], cfg)
  }

  /** `processed_content` after the loop has seen `ms`: for each allowed match, the
      passthrough slice before it and its processed block. */
  function Pieces(content: string, ms: seq<Match>, cfg: Config, extract: string -> string): seq<string>
    requires WellFormed(content, ms)
    decreases |ms|
  {
    if ms == [] then []
    else
      var init, m := ms[..|ms| - 1], ms[|ms| - 1];
      var tag := TagOf(content, m);
      if Allowed(tag, cfg) then
        Pieces(content, init, cfg, extract) + [content[LastEnd(content, init, cfg)..m.start]]
          + [BlockHtml(tag, |ms| - 1, cfg, extract)]
      else Pieces(content, init, cfg, extract)
  }

  /** `titles` after the loop has seen `ms`. */
  function Titles(content: string, ms: seq<Match>, cfg: Config, extract: string -> string): seq<Title>
    requires WellFormed(content, ms)
    decreases |ms|
  {
    if ms == [] then []
    else
      var init, m := ms[..|ms| - 1], ms[|ms| - 1];
      Titles(content, init, cfg, extract)
        + match TitleOf(TagOf(content, m), |ms| - 1, cfg, extract) case Some(t) => [t] case None => []
  }

  /** The first result of `process_titles`. */
  function TitledContent(content: string, ms: seq<Match>, cfg: Config, extract: string -> string): string
    requires WellFormed(content, ms)
  {
    Concat(Pieces(content, ms, cfg, extract) + [content[LastEnd(content, ms, cfg)..]])
  }

  /** One more match: what the loop appends for it. */
  lemma ScanStep(content: string, ms: seq<Match>, i: nat, cfg: Config, extract: string -> string)
    requires WellFormed(content, ms) && i < |ms|
    ensures WellFormed(content, ms[..i]) && WellFormed(content, ms[..i + 1])
    ensures var tag := TagOf(content, ms[i]);
      && LastEnd(content, ms[..i + 1], cfg)
        == (if Allowed(tag, cfg) then ms[i].end else LastEnd(content, ms[..i], cfg))
      && Pieces(content, ms[..i + 1], cfg, extract)
        == (if Allowed(tag, cfg) then
              Pieces(content, ms[..i], cfg, extract) + [content[LastEnd(content, ms[..i], cfg)..ms[i].start]]
                + [BlockHtml(tag, i, cfg, extract)]
            else Pieces(content, ms[..i], cfg, extract))
      && Titles(content, ms[..i + 1], cfg, extract)
        == Titles(content, ms[..i], cfg, extract)
          + match TitleOf(tag, i, cfg, extract) case Some(t) => [t] case None => []
  {
    assert ms[..i + 1][..i] == ms[..i];
  }

  /** For an allowed block, the title is the single-title result when the tag name starts
      with `h`, and none otherwise (lines 111-113). */
  lemma TitleOfAllowed(tag: string, index: nat, cfg: Config, extract: string -> string)
    requires Allowed(tag, cfg)
    ensures TitleOf(tag, index, cfg, extract)
         == if StartsWith(TagName(tag).value, "h") then ProcessSingleTitle(tag, index, cfg.titlePrefix, extract) else None
  {
  }

  /** `process_titles`. The matches of the configured pattern are an input. */
  method ProcessTitles(content: string, ms: seq<Match>, cfg: Config, extract: string -> string)
    returns (out: string, titles: seq<Title>)
    requires WellFormed(content, ms)
    ensures out == TitledContent(content, ms, cfg, extract)
    ensures titles == Titles(content, ms, cfg, extract)
  {
    titles := [];
    var parts: seq<string> := [];
    var last := 0;
    for i := 0 to |ms|
      invariant WellFormed(content, ms[..i])
      invariant last == LastEnd(content, ms[..i], cfg)
      invariant parts == Pieces(content, ms[..i], cfg, extract)
      invariant titles == Titles(content, ms[..i], cfg, extract)
    {
      ScanStep(content, ms, i, cfg, extract);
      var m := ms[i];
      var tag := content[m.start..m.end];
      assert tag == TagOf(content, m);
      var name := TagName(tag);
      if name.Some? && name.value in cfg.allowedTags {
        var title: Option<Title> := None;
        if StartsWith(name.value, "h") {
          title := ProcessSingleTitle(tag, i, cfg.titlePrefix, extract);
        }
        TitleOfAllowed(tag, i, cfg, extract);
        var block := tag;
        if title.Some? {
          titles := titles + [title.value];
          block := AddId(tag, title.value);
        }
        parts := parts + [content[last..m.start]];
        block := ProcessContent(cfg.processors, block);
        assert block == BlockHtml(tag, i, cfg, extract);
        parts := parts + [block];
        last := m.end;
      } else {
        assert TitleOf(tag, i, cfg, extract) == None;
      }
    }
    assert ms[..|ms|] == ms;
    parts := parts + [content[last..]];
    out := Concat(parts);
  }

  /** With no allowed match the content comes back unchanged and no title is recorded. */
  lemma {:induction false} NoAllowedMatch(content: string, ms: seq<Match>, cfg: Config, extract: string -> string)
    requires WellFormed(content, ms)
    requires forall i :: 0 <= i < |ms| ==> !Allowed(TagOf(content, ms[i]), cfg)
    ensures Pieces(content, ms, cfg, extract) == [] && LastEnd(content, ms, cfg) == 0
    ensures Titles(content, ms, cfg, extract) == []
    ensures TitledContent(content, ms, cfg, extract) == content
    decreases |ms|
  {
    if ms != [] {
      var init := ms[..|ms| - 1];
      assert forall i :: 0 <= i < |init| ==> init[i] == ms[i];
      NoAllowedMatch(content, init, cfg, extract);
    }
    var none: seq<string> := [];
    assert content[0..] == content;
    assert none + [content] == [content];
    assert Concat([content]) == content + Concat([]);
  }

  /** The match ordinals of the recorded titles, in the order the titles are recorded. */
  function TitleIndices(content: string, ms: seq<Match>, cfg: Config, extract: string -> string): seq<nat>
    requires WellFormed(content, ms)
    decreases |ms|
  {
    if ms == [] then []
    else
      var init, m := ms[..|ms| - 1], ms[|ms| - 1];
      TitleIndices(content, init, cfg, extract)
        + if TitleOf(TagOf(content, m), |ms| - 1, cfg, extract).Some? then [|ms| - 1] else []
  }

  /** Titles are recorded in document order, one per allowed `h...` match that opens with
      `<h[1-6]`: the k-th title is the one built for the match at the k-th recorded ordinal. */
  lemma {:induction false} TitlesIndexed(content: string, ms: seq<Match>, cfg: Config, extract: string -> string)
    requires WellFormed(content, ms)
    ensures |Titles(content, ms, cfg, extract)| == |TitleIndices(content, ms, cfg, extract)|
    ensures forall j :: 0 <= j < |TitleIndices(content, ms, cfg, extract)| ==>
      TitleIndices(content, ms, cfg, extract)[j] < |ms|
      && TitleOf(TagOf(content, ms[TitleIndices(content, ms, cfg, extract)[j]]), TitleIndices(content, ms, cfg, extract)[j], cfg, extract)
         == Some(Titles(content, ms, cfg, extract)[j])
    decreases |ms|
  {
    if ms != [] {
      var n := |ms| - 1;
      var init := ms[..n];
      assert forall k :: 0 <= k < n ==> init[k] == ms[k];
      TitlesIndexed(content, init, cfg, extract);
    }
  }

  /** The recorded ordinals increase strictly. */
  lemma {:induction false} TitleIndicesIncrease(content: string, ms: seq<Match>, cfg: Config, extract: string -> string)
    requires WellFormed(content, ms)
    ensures forall j :: 0 <= j < |TitleIndices(content, ms, cfg, extract)| ==>
      TitleIndices(content, ms, cfg, extract)[j] < |ms|
    ensures forall j, k :: 0 <= j < k < |TitleIndices(content, ms, cfg, extract)| ==>
      TitleIndices(content, ms, cfg, extract)[j] < TitleIndices(content, ms, cfg, extract)[k]
    decreases |ms|
  {
    if ms != [] {
      var n := |ms| - 1;
      var prev := TitleIndices(content, ms[..n], cfg, extract);
      var extra: seq<nat> := if TitleOf(TagOf(content, ms[n]), n, cfg, extract).Some? then [n] else [];
      var ix := TitleIndices(content, ms, cfg, extract);
      assert ix == prev + extra;
      TitleIndicesIncrease(content, ms[..n], cfg, extract);
      assert forall j :: 0 <= j < |prev| ==> prev[j] < n;
      assert forall j :: 0 <= j < |prev| ==> ix[j] == prev[j];
      assert forall j :: |prev| <= j < |ix| ==> ix[j] == n;
    }
  }

  /** A match's ordinal is recorded exactly when the match yields a title. */
  lemma {:induction false} TitleIndicesIff(content: string, ms: seq<Match>, cfg: Config, extract: string -> string)
    requires WellFormed(content, ms)
    ensures forall k :: 0 <= k < |ms| ==>
      (k in TitleIndices(content, ms, cfg, extract) <==> TitleOf(TagOf(content, ms[k]), k, cfg, extract).Some?)
    decreases |ms|
  {
    if ms != [] {
      var n := |ms| - 1;
      var init := ms[..n];
      assert forall k :: 0 <= k < n ==> init[k] == ms[k];
      var prev := TitleIndices(content, init, cfg, extract);
      var extra: seq<nat> := if TitleOf(TagOf(content, ms[n]), n, cfg, extract).Some? then [n] else [];
      assert TitleIndices(content, ms, cfg, extract) == prev + extra;
      TitleIndicesIff(content, init, cfg, extract);
      TitleIndicesIncrease(content, init, cfg, extract);
      assert n !in prev;
    }
  }

  /** The ids of the recorded titles: `prefix + k` for increasing match ordinals `k`,
      hence pairwise distinct. */
  lemma TitleIds(content: string, ms: seq<Match>, cfg: Config, extract: string -> string)
    requires WellFormed(content, ms)
    ensures |Titles(content, ms, cfg, extract)| == |TitleIndices(content, ms, cfg, extract)|
    ensures forall j :: 0 <= j < |Titles(content, ms, cfg, extract)| ==>
      Titles(content, ms, cfg, extract)[j].id == cfg.titlePrefix + NatToString(TitleIndices(content, ms, cfg, extract)[j] + 1)
      && 1 <= Titles(content, ms, cfg, extract)[j].level <= 6
    ensures forall j, k :: 0 <= j < k < |Titles(content, ms, cfg, extract)| ==>
      TitleIndices(content, ms, cfg, extract)[j] < TitleIndices(content, ms, cfg, extract)[k]
      && Titles(content, ms, cfg, extract)[j].id != Titles(content, ms, cfg, extract)[k].id
  {
    var ts, ix := Titles(content, ms, cfg, extract), TitleIndices(content, ms, cfg, extract);
    TitlesIndexed(content, ms, cfg, extract);
    TitleIndicesIncrease(content, ms, cfg, extract);
    forall j, k | 0 <= j < k < |ts|
      ensures ts[j].id != ts[k].id
    {
      PrefixedNatInjective(cfg.titlePrefix, ix[j] + 1, ix[k] + 1);
    }
  }

  lemma ContainsAcross(prev: string, gap: string, block: string, t: string)
    requires Contains(prev, t) || Contains(gap, t)
    ensures Contains(prev + gap + block, t)
  {
    if Contains(prev, t) {
      ContainsInMiddle([], prev, gap + block, t);
      assert [] + prev + (gap + block) == prev + gap + block;
    } else {
      ContainsInMiddle(prev, gap, block, t);
    }
  }

  /** A match whose tag is not allowed is neither processed nor cut out: its text is either
      inside the pieces already emitted or after the last allowed match. */
  lemma {:induction false} DisallowedKept(content: string, ms: seq<Match>, i: nat, cfg: Config, extract: string -> string)
    requires WellFormed(content, ms) && i < |ms| && !Allowed(TagOf(content, ms[i]), cfg)
    ensures Contains(Concat(Pieces(content, ms, cfg, extract)), TagOf(content, ms[i]))
      || LastEnd(content, ms, cfg) <= ms[i].start
    decreases |ms|
  {
    var n := |ms| - 1;
    var init := ms[..n];
    if i < n {
      assert WellFormed(content, init) && init[i] == ms[i] by {
        assert forall k :: 0 <= k < n ==> init[k] == ms[k];
      }
      DisallowedKept(content, init, i, cfg, extract);
      KeptPastLast(content, ms, i, cfg, extract);
    } else {
      DisallowedLastAfter(content, ms, cfg);
    }
  }

  /** A disallowed last match starts after `last_index`. */
  lemma DisallowedLastAfter(content: string, ms: seq<Match>, cfg: Config)
    requires WellFormed(content, ms) && ms != [] && !Allowed(TagOf(content, ms[|ms| - 1]), cfg)
    ensures LastEnd(content, ms, cfg) <= ms[|ms| - 1].start
  {
    var n := |ms| - 1;
    assert WellFormed(content, ms[..n]);
    if n > 0 {
      assert ms[..n][n - 1] == ms[n - 1];
    }
  }

  /** A disallowed last match adds no piece and leaves `last_index` alone. */
  lemma PiecesDisallowedLast(content: string, ms: seq<Match>, cfg: Config, extract: string -> string)
    requires WellFormed(content, ms) && ms != [] && !Allowed(TagOf(content, ms[|ms| - 1]), cfg)
    ensures WellFormed(content, ms[..|ms| - 1])
    ensures Pieces(content, ms, cfg, extract) == Pieces(content, ms[..|ms| - 1], cfg, extract)
    ensures LastEnd(content, ms, cfg) == LastEnd(content, ms[..|ms| - 1], cfg)
  {
  }

  /** Whatever the last match is, match `i` before it stays in the pieces or after
      `last_index`. */
  lemma KeptPastLast(content: string, ms: seq<Match>, i: nat, cfg: Config, extract: string -> string)
    requires WellFormed(content, ms) && i < |ms| - 1
    requires WellFormed(content, ms[..|ms| - 1])
    requires Contains(Concat(Pieces(content, ms[..|ms| - 1], cfg, extract)), TagOf(content, ms[i]))
      || LastEnd(content, ms[..|ms| - 1], cfg) <= ms[i].start
    ensures Contains(Concat(Pieces(content, ms, cfg, extract)), TagOf(content, ms[i]))
      || LastEnd(content, ms, cfg) <= ms[i].start
  {
    if Allowed(TagOf(content, ms[|ms| - 1]), cfg) {
      KeptPastAllowed(content, ms, i, cfg, extract);
    } else {
      PiecesDisallowedLast(content, ms, cfg, extract);
    }
  }

  lemma KeptPastAllowed(content: string, ms: seq<Match>, i: nat, cfg: Config, extract: string -> string)
    requires WellFormed(content, ms) && i < |ms| - 1 && Allowed(TagOf(content, ms[|ms| - 1]), cfg)
    requires WellFormed(content, ms[..|ms| - 1])
    requires Contains(Concat(Pieces(content, ms[..|ms| - 1], cfg, extract)), TagOf(content, ms[i]))
      || LastEnd(content, ms[..|ms| - 1], cfg) <= ms[i].start
    ensures Contains(Concat(Pieces(content, ms, cfg, extract)), TagOf(content, ms[i]))
  {
    var n := |ms| - 1;
    var init, m := ms[..n], ms[n];
    PiecesAllowedLast(content, ms, cfg, extract);
    var t := TagOf(content, ms[i]);
    assert OccursAt(content, t, ms[i].start) && ms[i].start + |t| <= m.start by {
      assert ms[i].end <= m.start;
    }
    GapKeeps(content, Pieces(content, init, cfg, extract), LastEnd(content, init, cfg), m.start,
      BlockHtml(TagOf(content, m), n, cfg, extract), TagOf(content, ms[i]), ms[i].start);
  }

  /** An allowed last match appends the gap before it and its block. */
  lemma PiecesAllowedLast(content: string, ms: seq<Match>, cfg: Config, extract: string -> string)
    requires WellFormed(content, ms) && ms != [] && Allowed(TagOf(content, ms[|ms| - 1]), cfg)
    ensures WellFormed(content, ms[..|ms| - 1])
    ensures LastEnd(content, ms[..|ms| - 1], cfg) <= ms[|ms| - 1].start
    ensures Pieces(content, ms, cfg, extract)
      == Pieces(content, ms[..|ms| - 1], cfg, extract)
        + [content[LastEnd(content, ms[..|ms| - 1], cfg)..ms[|ms| - 1].start]]
        + [BlockHtml(TagOf(content, ms[|ms| - 1]), |ms| - 1, cfg, extract)]
  {
    if |ms| > 1 {
      assert ms[..|ms| - 1][|ms| - 2] == ms[|ms| - 2];
    }
  }

  /** Text occurring in a gap, or in the pieces before it, is in the concatenation. */
  lemma GapKeeps(content: string, prev: seq<string>, a: nat, b: nat, block: string, t: string, q: nat)
    requires a <= b <= |content|
    requires Contains(Concat(prev), t) || (OccursAt(content, t, q) && a <= q && q + |t| <= b)
    ensures Contains(Concat(prev + [content[a..b]] + [block]), t)
  {
    var gap := content[a..b];
    ConcatAppend(prev, gap);
    ConcatAppend(prev + [gap], block);
    if !Contains(Concat(prev), t) {
      OccursInSlice(content, t, q, a, b);
    }
    ContainsAcross(Concat(prev), gap, block, t);
  }

  /** Every match whose tag is not allowed appears verbatim in the processed content. */
  lemma DisallowedSurvives(content: string, ms: seq<Match>, i: nat, cfg: Config, extract: string -> string)
    requires WellFormed(content, ms) && i < |ms| && !Allowed(TagOf(content, ms[i]), cfg)
    ensures Contains(TitledContent(content, ms, cfg, extract), TagOf(content, ms[i]))
  {
    var tag := TagOf(content, ms[i]);
    DisallowedKept(content, ms, i, cfg, extract);
    assert OccursAt(content, tag, ms[i].start) && ms[i].start + |tag| <= |content|;
    TailKeeps(content, Pieces(content, ms, cfg, extract), LastEnd(content, ms, cfg), tag, ms[i].start);
  }

  /** Text occurring in the tail, or in the pieces before it, is in the concatenation. */
  lemma TailKeeps(content: string, prev: seq<string>, a: nat, t: string, q: nat)
    requires a <= |content|
    requires Contains(Concat(prev), t) || (OccursAt(content, t, q) && a <= q)
    ensures Contains(Concat(prev + [content[a..]]), t)
  {
    var rest := content[a..];
    ConcatAppend(prev, rest);
    if Contains(Concat(prev), t) {
      ContainsInMiddle([], Concat(prev), rest, t);
      assert [] + Concat(prev) + rest == Concat(prev) + rest;
    } else {
      OccursInSlice(content, t, q, a, |content|);
      assert content[a..|content|] == rest;
      ContainsInMiddle(Concat(prev), rest, [], t);
      assert Concat(prev) + rest + [] == Concat(prev) + rest;
    }
  }

  /** A block that opens with a bare `<hD>` tag whose name is allowed yields a title of
      level `D`. */
  lemma HeadingTitle(tag: string, index: nat, cfg: Config, extract: string -> string, d: nat, rest: string)
    requires 1 <= d <= 6 && tag == "<h" + [DigitChar(d)] + ">" + rest
    requires "h" + [DigitChar(d)] in cfg.allowedTags
    ensures TitleOf(tag, index, cfg, extract) == Some(Title(d, extract(tag), cfg.titlePrefix + NatToString(index + 1)))
  {
    assert tag[0] == '<' && tag[1] == 'h' && tag[2] == DigitChar(d) && tag[3] == '>';
    assert WordRun(tag, 3) == 0;
    assert WordRun(tag, 1) == 2;
    assert tag[1..3] == "h" + [DigitChar(d)];
    assert TagName(tag) == Some("h" + [DigitChar(d)]);
    assert HeadingLevel(tag) == Some(d);
  }

  /** Three matches that each yield a title give those three titles, in order. */
  lemma TitlesOfThree(content: string, ms: seq<Match>, cfg: Config, extract: string -> string, t0: Title, t1: Title, t2: Title)
    requires WellFormed(content, ms) && |ms| == 3
    requires TitleOf(TagOf(content, ms[0]), 0, cfg, extract) == Some(t0)
    requires TitleOf(TagOf(content, ms[1]), 1, cfg, extract) == Some(t1)
    requires TitleOf(TagOf(content, ms[2]), 2, cfg, extract) == Some(t2)
    ensures Titles(content, ms, cfg, extract) == [t0, t1, t2]
  {
    assert ms[..2][..1] == ms[..1] && ms[..1][..0] == [];
    assert ms[..2][1] == ms[1] && ms[..1][0] == ms[0];
    var none: seq<Title> := [];
    assert Titles(content, ms[..1], cfg, extract) == none + [t0];
  }

  /** Three adjacent matches that cover the content are well formed. */
  lemma ThreeMatches(content: string, ms: seq<Match>, x: nat, y: nat)
    requires x <= y <= |content|
    requires |ms| == 3 && ms[0] == Match(0, x) && ms[1] == Match(x, y) && ms[2] == Match(y, |content|)
    ensures WellFormed(content, ms)
  {
  }

  /** The heading of level `d` that is match number `d - 1`, under the prefix `section`. */
  lemma SectionTitle(tag: string, cfg: Config, extract: string -> string, d: nat, rest: string)
    requires 1 <= d <= 6 && tag == "<h" + [DigitChar(d)] + ">" + rest
    requires "h" + [DigitChar(d)] in cfg.allowedTags && cfg.titlePrefix == "section"
    ensures TitleOf(tag, d - 1, cfg, extract) == Some(Title(d, extract(tag), "section" + [DigitChar(d)]))
  {
    HeadingTitle(tag, d - 1, cfg, extract, d, rest);
  }

  /** Three adjacent blocks covering the content, each yielding a title, give those
      titles in order. */
  lemma TitlesOfTriple(content: string, ms: seq<Match>, cfg: Config, extract: string -> string,
                       a: string, b: string, c: string, t0: Title, t1: Title, t2: Title)
    requires content == a + b + c && ms == [Match(0, |a|), Match(|a|, |a| + |b|), Match(|a| + |b|, |content|)]
    requires TitleOf(a, 0, cfg, extract) == Some(t0)
    requires TitleOf(b, 1, cfg, extract) == Some(t1)
    requires TitleOf(c, 2, cfg, extract) == Some(t2)
    ensures WellFormed(content, ms)
    ensures Titles(content, ms, cfg, extract) == [t0, t1, t2]
  {
    ThreeMatches(content, ms, |a|, |a| + |b|);
    assert TagOf(content, ms[0]) == a;
    assert TagOf(content, ms[1]) == b;
    assert TagOf(content, ms[2]) == c;
    TitlesOfThree(content, ms, cfg, extract, t0, t1, t2);
  }

  /** Three consecutive blocks opening with `<h1>`, `<h2>`, `<h3>`, matched in that order,
      under the prefix `section`: levels 1, 2, 3 and ids `section1` to `section3`. */
  lemma ThreeHeadings(content: string, ms: seq<Match>, cfg: Config, extract: string -> string, a: string, b: string, c: string)
    requires StartsWith(a, "<h1>") && StartsWith(b, "<h2>") && StartsWith(c, "<h3>")
    requires content == a + b + c && ms == [Match(0, |a|), Match(|a|, |a| + |b|), Match(|a| + |b|, |content|)]
    requires "h1" in cfg.allowedTags && "h2" in cfg.allowedTags && "h3" in cfg.allowedTags
    requires cfg.titlePrefix == "section"
    ensures WellFormed(content, ms)
    ensures Titles(content, ms, cfg, extract)
      == [Title(1, extract(a), "section1"), Title(2, extract(b), "section2"), Title(3, extract(c), "section3")]
  {
    assert TitleOf(a, 0, cfg, extract) == Some(Title(1, extract(a), "section1")) by {
      assert "h" + [DigitChar(1)] == "h1" && "section" + [DigitChar(1)] == "section1";
      assert a == "<h" + [DigitChar(1)] + ">" + a[4..];
      SectionTitle(a, cfg, extract, 1, a[4..]);
    }
    assert TitleOf(b, 1, cfg, extract) == Some(Title(2, extract(b), "section2")) by {
      assert "h" + [DigitChar(2)] == "h2" && "section" + [DigitChar(2)] == "section2";
      assert b == "<h" + [DigitChar(2)] + ">" + b[4..];
      SectionTitle(b, cfg, extract, 2, b[4..]);
    }
    assert TitleOf(c, 2, cfg, extract) == Some(Title(3, extract(c), "section3")) by {
      assert "h" + [DigitChar(3)] == "h3" && "section" + [DigitChar(3)] == "section3";
      assert c == "<h" + [DigitChar(3)] + ">" + c[4..];
      SectionTitle(c, cfg, extract, 3, c[4..]);
    }
    TitlesOfTriple(content, ms, cfg, extract, a, b, c,
      Title(1, extract(a), "section1"), Title(2, extract(b), "section2"), Title(3, extract(c), "section3"));
  }

  /** A block whose tag name does not start with `h` records no title. */
  lemma NoTitleForNonHeading(tag: string, index: nat, cfg: Config, extract: string -> string)
    requires TagName(tag).Some? && !StartsWith(TagName(tag).value, "h")
    ensures TitleOf(tag, index, cfg, extract) == None
  {
  }

  /** A `<p>` block records no title. */
  lemma ParagraphNoTitle(tag: string, index: nat, cfg: Config, extract: string -> string, r0: string)
    requires tag == "<p>" + r0
    ensures TitleOf(tag, index, cfg, extract) == None
  {
    assert tag[0] == '<' && tag[1] == 'p' && IsWordChar(tag[1]);
    assert TagName(tag).value[0] == 'p';
    NoTitleForNonHeading(tag, index, cfg, extract);
  }

  /** Two matches of which only the second yields a title give that one title. */
  lemma TitlesOfSecond(content: string, ms: seq<Match>, cfg: Config, extract: string -> string, t1: Title)
    requires WellFormed(content, ms) && |ms| == 2
    requires TitleOf(TagOf(content, ms[0]), 0, cfg, extract) == None
    requires TitleOf(TagOf(content, ms[1]), 1, cfg, extract) == Some(t1)
    ensures Titles(content, ms, cfg, extract) == [t1]
  {
    var none: seq<Title> := [];
    assert ms[..1][..0] == [] && ms[..1][0] == ms[0];
    assert Titles(content, ms[..1], cfg, extract) == none;
  }

  /** Two adjacent blocks covering the content, of which only the second yields a title,
      give that one title. */
  lemma TitlesOfPair(content: string, ms: seq<Match>, cfg: Config, extract: string -> string, a: string, b: string, t: Title)
    requires content == a + b && ms == [Match(0, |a|), Match(|a|, |content|)]
    requires TitleOf(a, 0, cfg, extract) == None && TitleOf(b, 1, cfg, extract) == Some(t)
    ensures WellFormed(content, ms)
    ensures Titles(content, ms, cfg, extract) == [t]
  {
    assert TagOf(content, ms[0]) == a;
    assert TagOf(content, ms[1]) == b;
    TitlesOfSecond(content, ms, cfg, extract, t);
  }

  /** An `<h1>` block that is match number 1 (the second) under the prefix `section`. */
  lemma SecondMatchHeading(tag: string, cfg: Config, extract: string -> string, r1: string)
    requires tag == "<h1>" + r1
    requires "h1" in cfg.allowedTags && cfg.titlePrefix == "section"
    ensures TitleOf(tag, 1, cfg, extract) == Some(Title(1, extract(tag), "section2"))
  {
    assert "h" + [DigitChar(1)] == "h1";
    assert tag == "<h" + [DigitChar(1)] + ">" + r1;
    HeadingTitle(tag, 1, cfg, extract, 1, r1);
    assert cfg.titlePrefix + NatToString(2) == "section2";
  }

  /** A paragraph followed by a heading: the heading's id counts the paragraph's match, so
      it is `section2`. */
  lemma MixedBlockOrdinal(content: string, ms: seq<Match>, cfg: Config, extract: string -> string, p: string, h: string)
    requires StartsWith(p, "<p>") && StartsWith(h, "<h1>")
    requires content == p + h && ms == [Match(0, |p|), Match(|p|, |content|)]
    requires "h1" in cfg.allowedTags && cfg.titlePrefix == "section"
    ensures WellFormed(content, ms)
    ensures Titles(content, ms, cfg, extract) == [Title(1, extract(h), "section2")]
  {
    ParagraphNoTitle(p, 0, cfg, extract, p[3..]);
    SecondMatchHeading(h, cfg, extract, h[4..]);
    TitlesOfPair(content, ms, cfg, extract, p, h, Title(1, extract(h), "section2"));
  }

  // ---------------------------------------------------------------------------
  // `_calculate_assets_paths`

  datatype AssetsPaths = AssetsPaths(css: string, js: string, images: string)

  /** The asset locations relative to the output page (POSIX separators). */
  function CalculateAssetsPaths(outputPath: string): (r: AssetsPaths)
    ensures r.css == "assets/css" && r.js == "assets/js" && r.images == "assets/images"
  {
    var base := "assets";
    AssetsPaths(base + "/css", base + "/js", base + "/images")
  }

  /** The mapping ignores the output path. */
  lemma AssetsPathsIgnoreOutput(p: string, q: string)
    ensures CalculateAssetsPaths(p) == CalculateAssetsPaths(q)
  {
  }

  // ---------------------------------------------------------------------------
  // `verify_favicon_resources` and `_validate_webmanifest`

  /** A parsed JSON value; numbers are integers. */
  datatype Json =
    | JNull
    | JBool(b: bool)
    | JNum(n: int)
    | JStr(s: string)
    | JArr(items: seq<Json>)
    | JObj(fields: map<string, Json>)

  /** What opening and parsing `site.webmanifest` gives. */
  datatype Manifest = Absent | Unparsable | Parsed(json: Json)

  const ManifestName: string := "site.webmanifest"

  /** `field in value`: key of an object, element of an array, substring of a string.
      On other values Python raises, which the caller turns into the same verdict as false. */
  predicate Has(j: Json, field: string)
  {
    match j
    case JObj(fields) => field in fields
    case JArr(items) => JStr(field) in items
    case JStr(s) => Contains(s, field)
    case _ => false
  }

  /** Python truthiness of a JSON value. */
  predicate Truthy(j: Json)
  {
    match j
    case JNull => false
    case JBool(b) => b
    case JNum(n) => n != 0
    case JStr(s) => s != []
    case JArr(items) => items != []
    case JObj(fields) => fields != map[]
  }

  predicate IconValid(icon: Json)
  {
    Has(icon, "src") && Has(icon, "sizes") && Has(icon, "type")
  }

  /** The manifest passes every check of `_validate_webmanifest` (lines 188-203). Indexing
      `manifest['icons']` raises unless the manifest is an object. */
  predicate ManifestValid(j: Json)
  {
    && Has(j, "name") && Has(j, "icons") && j.JObj?
    && Truthy(j.fields["icons"]) && j.fields["icons"].JArr?
    && forall icon :: icon in j.fields["icons"].items ==> IconValid(icon)
  }

  /** A manifest is valid exactly when it is an object with `name` and a non-empty list of
      `icons`, each icon holding `src`, `sizes` and `type`. */
  lemma ManifestValidIff(j: Json)
    ensures ManifestValid(j) <==>
      && j.JObj? && "name" in j.fields && "icons" in j.fields
      && j.fields["icons"].JArr? && |j.fields["icons"].items| > 0
      && forall k :: 0 <= k < |j.fields["icons"].items| ==> IconValid(j.fields["icons"].items[k])
  {
    if j.JObj? && "icons" in j.fields && j.fields["icons"].JArr? {
      var items := j.fields["icons"].items;
      assert (forall icon :: icon in items ==> IconValid(icon))
         <==> (forall k :: 0 <= k < |items| ==> IconValid(items[k]));
    }
  }

  /** The final path component of a path. */
  function Name(path: string): (r: string)
    ensures '/' !in r && EndsWith(path, r)
    ensures r == path || (|r| < |path| && path[|path| - |r| - 1] == '/')
    decreases |path|
  {
    if path == [] then []
    else if path[|path| - 1] == '/' then []
    else
      var n := Name(path[..|path| - 1]);
      assert path[..|path| - 1] + [path[|path| - 1]] == path;
      n + [path[|path| - 1]]
  }

  /** Index of the last '.' in `s`, or -1 (`str.rfind`). */
  function LastDot(s: string): (r: int)
    ensures -1 <= r < |s|
    ensures r >= 0 ==> s[r] == '.'
    ensures forall k :: r < k < |s| ==> s[k] != '.'
    decreases |s|
  {
    if s == [] then -1 else if s[|s| - 1] == '.' then |s| - 1 else LastDot(s[..|s| - 1])
  }

  /** `PurePath.suffix`: from the last dot of the name, unless that dot is the first or the
      last character of the name. */
  function Suffix(name: string): (r: string)
    ensures r == [] || (|r| >= 2 && r[0] == '.' && '.' !in r[1..] && EndsWith(name, r) && |r| < |name|)
    ensures r != [] <==> 0 < LastDot(name) < |name| - 1
    ensures r != [] ==> r == name[LastDot(name)..]
  {
    var i := LastDot(name);
    if 0 < i < |name| - 1 then
      assert forall k :: 1 <= k < |name[i..]| ==> name[i..][k] == name[i + k];
      name[i..]
    else []
  }

  /** A present required file is invalid when a validator exists for its suffix and rejects
      what reading it gives. */
  predicate FileInvalid(file: string, present: string -> bool, read: string -> FileRead)
  {
    present(file)
      && var v := GetValidator(Suffix(Name(file)));
         v.Some? && !Validate(v.value, read(file))
  }

  /** The required files that are absent, in configuration order. */
  function MissingFiles(required: seq<string>, present: string -> bool): seq<string>
    decreases |required|
  {
    if required == [] then []
    else
      var f := required[|required| - 1];
      MissingFiles(required[..|required| - 1], present) + if present(f) then [] else [f]
  }

  /** The required files that are present and rejected by their validator, in order. */
  function InvalidFiles(required: seq<string>, present: string -> bool, read: string -> FileRead): seq<string>
    decreases |required|
  {
    if required == [] then []
    else
      var f := required[|required| - 1];
      InvalidFiles(required[..|required| - 1], present, read)
        + if FileInvalid(f, present, read) then [f] else []
  }

  function ManifestMissing(m: Manifest): seq<string>
  {
    if m.Absent? then [ManifestName] else []
  }

  function ManifestInvalid(m: Manifest): seq<string>
  {
    if m.Absent? || (m.Parsed? && ManifestValid(m.json)) then [] else [ManifestName]
  }

  /** The `results` dictionary being filled. */
  class FaviconReport {
    var missing: seq<string>
    var invalid: seq<string>

    constructor()
      ensures missing == [] && invalid == []
    {
      missing := [];
      invalid := [];
    }

    /** `_validate_webmanifest`: the early returns become the branches of one decision. */
    method ValidateWebmanifest(m: Manifest)
      modifies this
      ensures missing == old(missing) + ManifestMissing(m)
      ensures invalid == old(invalid) + ManifestInvalid(m)
    {
      if m.Absent? {
        missing := missing + [ManifestName];
        return;
      }
      if m.Unparsable? {
        invalid := invalid + [ManifestName];
        return;
      }
      var j := m.json;
      if !(Has(j, "name") && Has(j, "icons")) || !j.JObj? {
        invalid := invalid + [ManifestName];
        return;
      }
      var icons := j.fields["icons"];
      if !Truthy(icons) || !icons.JArr? {
        invalid := invalid + [ManifestName];
        return;
      }
      for k := 0 to |icons.items|
        invariant forall q :: 0 <= q < k ==> IconValid(icons.items[q])
      {
        if !IconValid(icons.items[k]) {
          invalid := invalid + [ManifestName];
          return;
        }
      }
    }
  }

  lemma FilesStep(required: seq<string>, present: string -> bool, read: string -> FileRead, i: nat)
    requires i < |required|
    ensures MissingFiles(required[..i + 1], present)
      == MissingFiles(required[..i], present) + if present(required[i]) then [] else [required[i]]
    ensures InvalidFiles(required[..i + 1], present, read)
      == InvalidFiles(required[..i], present, read) + if FileInvalid(required[i], present, read) then [required[i]] else []
  {
    assert required[..i + 1][..i] == required[..i];
  }

  /** `verify_favicon_resources`. File existence and reading are inputs. */
  method VerifyFaviconResources(required: seq<string>, present: string -> bool, read: string -> FileRead, manifest: Manifest)
    returns (report: FaviconReport)
    ensures fresh(report)
    ensures report.missing == MissingFiles(required, present) + ManifestMissing(manifest)
    ensures report.invalid == InvalidFiles(required, present, read) + ManifestInvalid(manifest)
  {
    report := new FaviconReport();
    for i := 0 to |required|
      invariant report.missing == MissingFiles(required[..i], present)
      invariant report.invalid == InvalidFiles(required[..i], present, read)
    {
      var file := required[i];
      FilesStep(required, present, read, i);
      if !present(file) {
        report.missing := report.missing + [file];
        continue;
      }
      var validator := GetValidator(Suffix(Name(file)));
      if validator.Some? && !Validate(validator.value, read(file)) {
        report.invalid := report.invalid + [file];
      }
    }
    assert required[..|required|] == required;
    report.ValidateWebmanifest(manifest);
  }

  /** A required file is reported missing exactly when it is absent. */
  lemma {:induction false} MissingFilesIff(required: seq<string>, present: string -> bool, f: string)
    ensures f in MissingFiles(required, present) <==> f in required && !present(f)
    decreases |required|
  {
    if required != [] {
      var init := required[..|required| - 1];
      MissingFilesIff(init, present, f);
      assert required == init + [required[|required| - 1]];
    }
  }

  /** A required file is reported invalid exactly when it is present, has a validator for its
      suffix, and that validator rejects it; an absent file is never validated. */
  lemma {:induction false} InvalidFilesIff(required: seq<string>, present: string -> bool, read: string -> FileRead, f: string)
    ensures f in InvalidFiles(required, present, read) <==> f in required && FileInvalid(f, present, read)
    decreases |required|
  {
    if required != [] {
      var init := required[..|required| - 1];
      InvalidFilesIff(init, present, read, f);
      assert required == init + [required[|required| - 1]];
    }
  }

  /** No required file is both missing and invalid. */
  lemma MissingAndInvalidDisjoint(required: seq<string>, present: string -> bool, read: string -> FileRead, f: string)
    ensures !(f in MissingFiles(required, present) && f in InvalidFiles(required, present, read))
  {
    MissingFilesIff(required, present, f);
    InvalidFilesIff(required, present, read, f);
  }

  /** The manifest is reported at most once, and never both missing and invalid. */
  lemma ManifestReportedOnce(m: Manifest)
    ensures |ManifestMissing(m) + ManifestInvalid(m)| <= 1
    ensures ManifestMissing(m) != [] <==> m.Absent?
    ensures ManifestInvalid(m) != [] <==> m.Unparsable? || (m.Parsed? && !ManifestValid(m.json))
  {
  }
}
