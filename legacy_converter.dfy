/** The single-file converter plaintext_to_html.py: its own copies of the code and list
    rewriters, the block scan of `convertir_texte_en_html` with offset-based heading ids,
    the trailing paragraph, and the navigation panel. The file writes become a sequence of
    `Write`s. */
module LegacyConverter {
  import opened TextUtil
  import opened Processors
  import opened HtmlConverter

  // ---------------------------------------------------------------------------
  // The duplicated rewriters

  /** `handle_code_in_text`: both branches perform the same substitution. */
  function HandleCode(text: string): string
  {
    if Contains(text, "<p>") || Contains(text, "<ul>") || Contains(text, "<ol>") then
      EscapeCodeSpans(text)
    else
      EscapeCodeSpans(text)
  }

  /** The legacy code rewriter agrees with `CodeProcessor.process` on every input. */
  lemma HandleCodeIsCodeProcess(text: string)
    ensures HandleCode(text) == CodeProcess(text)
  {
    CodeProcessIsSubstitution(text);
  }

  /** `handle_list_items`: the brace rewrite, then a `<ul>` wrapper when the result holds
      no list tag. */
  function HandleList(text: string): (r: string)
    ensures HasListTag(r)
    ensures r == RewriteBraces(text) <==> HasListTag(RewriteBraces(text))
    ensures r == RewriteBraces(text) || r == "<ul>" + RewriteBraces(text) + "</ul>"
  {
    var t := RewriteBraces(text);
    if Contains(t, "<ul>") || Contains(t, "<ol>") then t
    else
      var w := "<ul>" + t + "</ul>";
      assert OccursAt(w, "<ul>", 0);
      w
  }

  /** Called on a text that holds a list tag, as the scan does, `handle_list_items` never
      wraps and agrees with `ListProcessor.process`. */
  lemma HandleListOnListBlock(text: string)
    requires HasListTag(text)
    ensures HandleList(text) == RewriteBraces(text) == ListProcess(text)
  {
    RewriteBracesKeepsListTag(text);
  }

  // ---------------------------------------------------------------------------
  // One block of the scan

  /** The outcome for one matched block: `Failed` when `re.match(r'<h([1-6])', ...)` finds
      nothing on a block that starts with `<h` and `.group(1)` raises. */
  datatype BlockResult = Failed | Block(html: string, heading: Option<Title>)

  /** Code escaping, then list rewriting, each only when its tag is present (lines 299-304). */
  function Rewritten(tag: string): string
  {
    var a := if Contains(tag, "<code>") then HandleCode(tag) else tag;
    if Contains(a, "<ul>") || Contains(a, "<ol>") then HandleList(a) else a
  }

  /** The id a heading gets when the previous match ended at offset `prev`. */
  function SectionId(prev: nat): string
  {
    "section" + NatToString(prev + 1)
  }

  /** Lines 299-314: rewrite, then for a heading inject the id on the exact `<hN>` tag and
      record level, extracted text and id. `extract` stands for BeautifulSoup's text. */
  function ProcessBlock(tag: string, prev: nat, extract: string -> string): (r: BlockResult)
    ensures r.Failed? <==> StartsWith(Rewritten(tag), "<h") && HeadingLevel(Rewritten(tag)).None?
    ensures r.Block? ==> (r.heading.Some? <==> StartsWith(Rewritten(tag), "<h"))
    ensures r.Block? && r.heading.None? ==> r.html == Rewritten(tag)
    ensures r.Block? && r.heading.Some? ==>
      && r.heading.value.level == HeadingLevel(Rewritten(tag)).value
      && 1 <= r.heading.value.level <= 6
      && r.heading.value.id == SectionId(prev)
      && r.heading.value.text == extract(r.html)
      && r.html == AddId(Rewritten(tag), r.heading.value)
  {
    var b := Rewritten(tag);
    if !StartsWith(b, "<h") then Block(b, None)
    else match HeadingLevel(b)
      case None => Failed
      case Some(d) =>
        var id := SectionId(prev);
        var html := ReplaceAll(b, "<h" + NatToString(d) + ">", "<h" + NatToString(d) + " id=\"" + id + "\">");
        Block(html, Some(Title(d, extract(html), id)))
  }

  // ---------------------------------------------------------------------------
  // The scan of `convertir_texte_en_html` (lines 292-325)

  /** Where the scan stands: blocks written, headings collected, `index`, and whether a
      block raised. */
  datatype ScanState = ScanState(blocks: seq<string>, headings: seq<Title>, index: nat, failed: bool)

  /** The scan over the matches `ms`; it stops at the first block that raises. */
  function Scan(content: string, ms: seq<Match>, extract: string -> string): (r: ScanState)
    requires WellFormed(content, ms)
    ensures r.index <= |content|
    decreases |ms|
  {
    if ms == [] then ScanState([], [], 0, false)
    else
      var s := Scan(content, ms[..|ms| - 1], extract);
      var m := ms[|ms| - 1];
      if s.failed then s
      else match ProcessBlock(TagOf(content, m), s.index, extract)
        case Failed => ScanState(s.blocks, s.headings, s.index, true)
        case Block(html, h) =>
          ScanState(s.blocks + [html], s.headings + (if h.Some? then [h.value] else []), m.end, false)
  }

  /** The paragraph written for the text after the last match (lines 322-325). */
  function Trailing(rest: string): seq<string>
  {
    if Strip(rest) != [] then ["<p>" + HtmlEscape(Strip(rest)) + "</p>\n"] else []
  }

  /** `padding-left` of a navigation entry. */
  function Padding(level: nat): int
  {
    20 * (level - 1) + 10
  }

  /** One `<li>` of the navigation panel (lines 333-336). */
  function NavEntry(t: Title): string
  {
    "<li style=\"padding-left: " + IntToString(Padding(t.level)) + "px;\"><a href=\"#" + t.id + "\">"
      + HtmlEscape(t.text) + "</a></li>\n"
  }

  /** `str()` of an `int`. */
  function IntToString(n: int): string
  {
    if n < 0 then "-" + NatToString(-n) else NatToString(n)
  }

  /** The navigation entries, one per heading, in order. */
  function NavEntries(ts: seq<Title>): seq<string>
  {
    seq(|ts|, j requires 0 <= j < |ts| => NavEntry(ts[j]))
  }

  /** A write to the output file: a fixed chunk of the page (document head with its inline
      style, body opening, panel toggle button, panel opening, panel closing, scripts and
      document end) or generated text. */
  datatype Chunk = Head | BodyOpen | ToggleButton | PanelOpen | PanelClose | Scripts
  datatype Write = Fixed(chunk: Chunk) | Text(s: string)

  function Texts(ss: seq<string>): (r: seq<Write>)
    ensures |r| == |ss| && forall i :: 0 <= i < |ss| ==> r[i] == Text(ss[i])
  {
    seq(|ss|, i requires 0 <= i < |ss| => Text(ss[i]))
  }

  /** What the file holds when the conversion completes, or when a block raised: the
      writes made so far. */
  function Document(content: string, ms: seq<Match>, extract: string -> string): seq<Write>
    requires WellFormed(content, ms)
  {
    var s := Scan(content, ms, extract);
    var start := [Fixed(Head), Fixed(BodyOpen)] + Texts(s.blocks);
    if s.failed then start
    else
      start + Texts(Trailing(content[s.index..])) + [Fixed(ToggleButton), Fixed(PanelOpen)]
        + Texts(NavEntries(s.headings)) + [Fixed(PanelClose), Fixed(Scripts)]
  }

  // ---------------------------------------------------------------------------
  // The imperative conversion

  lemma ScanStep(content: string, ms: seq<Match>, i: nat, extract: string -> string)
    requires WellFormed(content, ms) && i < |ms|
    ensures WellFormed(content, ms[..i]) && WellFormed(content, ms[..i + 1])
    ensures var s := Scan(content, ms[..i], extract);
      Scan(content, ms[..i + 1], extract)
      == if s.failed then s
         else match ProcessBlock(TagOf(content, ms[i]), s.index, extract)
           case Failed => ScanState(s.blocks, s.headings, s.index, true)
           case Block(html, h) =>
             ScanState(s.blocks + [html], s.headings + (if h.Some? then [h.value] else []), ms[i].end, false)
  {
    assert ms[..i + 1][..i] == ms[..i];
  }

  /** The scan loop of lines 295-320. */
  method ScanBlocks(content: string, ms: seq<Match>, extract: string -> string)
    returns (blocks: seq<string>, headings: seq<Title>, index: nat, failed: bool)
    requires WellFormed(content, ms)
    ensures ScanState(blocks, headings, index, failed) == Scan(content, ms, extract)
  {
    blocks, headings, index, failed := [], [], 0, false;
    var i := 0;
    while i < |ms| && !failed
      invariant i <= |ms|
      invariant WellFormed(content, ms[..i])
      invariant ScanState(blocks, headings, index, failed) == Scan(content, ms[..i], extract)
      decreases |ms| - i
    {
      ScanStep(content, ms, i, extract);
      var m := ms[i];
      var tag := content[m.start..m.end];
      var r := ProcessBlock(tag, index, extract);
      if r.Failed? {
        failed := true;
      } else {
        blocks := blocks + [r.html];
        if r.heading.Some? {
          headings := headings + [r.heading.value];
        }
        index := m.end;
      }
      i := i + 1;
    }
    FailedScanStays(content, ms, i, extract);
  }

  /** Once a block has raised, later matches change nothing. */
  lemma {:induction false} FailedScanStays(content: string, ms: seq<Match>, k: nat, extract: string -> string)
    requires WellFormed(content, ms) && k <= |ms|
    requires WellFormed(content, ms[..k])
    requires k < |ms| ==> Scan(content, ms[..k], extract).failed
    ensures Scan(content, ms, extract) == Scan(content, ms[..k], extract)
    decreases |ms| - k
  {
    if k < |ms| {
      ScanStep(content, ms, k, extract);
      if k + 1 < |ms| {
        FailedScanStays(content, ms, k + 1, extract);
      } else {
        assert ms[..k + 1] == ms;
      }
    } else {
      assert ms[..k] == ms;
    }
  }

  /** The navigation loop of lines 333-336. */
  method WriteNavigation(headings: seq<Title>) returns (writes: seq<Write>)
    ensures writes == Texts(NavEntries(headings))
  {
    writes := [];
    for i := 0 to |headings|
      invariant |writes| == i
      invariant forall j :: 0 <= j < i ==> writes[j] == Text(NavEntry(headings[j]))
    {
      var t := headings[i];
      var padding := 20 * (t.level - 1) + 10;
      var text := HtmlEscape(t.text);
      var entry := "<li style=\"padding-left: " + IntToString(padding) + "px;\"><a href=\"#"
        + t.id + "\">" + text + "</a></li>\n";
      assert entry == NavEntry(t);
      writes := writes + [Text(entry)];
    }
  }

  lemma TrailingWrites(before: seq<Write>, rest: string)
    ensures before + Texts(Trailing(rest))
      == if Strip(rest) != [] then before + [Text("<p>" + HtmlEscape(Strip(rest)) + "</p>\n")] else before
  {
  }

  /** `convertir_texte_en_html` from the document head to the closing scripts, over the
      matches of its block pattern; an exception leaves the writes made before it. */
  method Convert(content: string, ms: seq<Match>, extract: string -> string) returns (writes: seq<Write>)
    requires WellFormed(content, ms)
    ensures writes == Document(content, ms, extract)
  {
    writes := [Fixed(Head), Fixed(BodyOpen)];
    var blocks, headings, index, failed := ScanBlocks(content, ms, extract);
    writes := writes + Texts(blocks);
    if failed {
      return;
    }
    var rest := content[index..];
    ghost var before := writes;
    if Strip(rest) != [] {
      writes := writes + [Text("<p>" + HtmlEscape(Strip(rest)) + "</p>\n")];
    }
    TrailingWrites(before, rest);
    writes := writes + [Fixed(ToggleButton), Fixed(PanelOpen)];
    var nav := WriteNavigation(headings);
    writes := writes + nav + [Fixed(PanelClose), Fixed(Scripts)];
  }

  // ---------------------------------------------------------------------------
  // Properties of the scan

  /** `index` before match `k`: the end of the previous match, 0 before the first. */
  function Prev(ms: seq<Match>, k: nat): nat
    requires k <= |ms|
  {
    if k == 0 then 0 else ms[k - 1].end
  }

  /** Regex matches of the block pattern are never empty. */
  predicate NonEmpty(ms: seq<Match>)
  {
    forall k :: 0 <= k < |ms| ==> ms[k].start < ms[k].end
  }

  /** When the scan over `ms` did not fail, neither did the scan before its last match, and
      the last match wrote its block and moved `index` to its end. */
  lemma ScanNotFailedLast(content: string, ms: seq<Match>, extract: string -> string)
    requires WellFormed(content, ms) && ms != [] && !Scan(content, ms, extract).failed
    ensures WellFormed(content, ms[..|ms| - 1]) && !Scan(content, ms[..|ms| - 1], extract).failed
    ensures var s := Scan(content, ms[..|ms| - 1], extract);
      var r := ProcessBlock(TagOf(content, ms[|ms| - 1]), s.index, extract);
      && r.Block?
      && Scan(content, ms, extract).blocks == s.blocks + [r.html]
      && Scan(content, ms, extract).index == ms[|ms| - 1].end
  {
  }

  /** Without a failure, one block per match, and `index` ends at the last match's end. */
  lemma {:induction false} ScanCount(content: string, ms: seq<Match>, extract: string -> string)
    requires WellFormed(content, ms)
    ensures !Scan(content, ms, extract).failed ==>
      Scan(content, ms, extract).index == Prev(ms, |ms|) && |Scan(content, ms, extract).blocks| == |ms|
    decreases |ms|
  {
    if ms != [] && !Scan(content, ms, extract).failed {
      ScanNotFailedLast(content, ms, extract);
      ScanCount(content, ms[..|ms| - 1], extract);
    }
  }

  /** Without a failure, block `k` is match `k` processed with the end of match `k - 1`. */
  lemma {:induction false} ScanBlockAt(content: string, ms: seq<Match>, extract: string -> string, k: nat)
    requires WellFormed(content, ms) && k < |ms| && !Scan(content, ms, extract).failed
    ensures k < |Scan(content, ms, extract).blocks|
    ensures ProcessBlock(TagOf(content, ms[k]), Prev(ms, k), extract).Block?
    ensures ProcessBlock(TagOf(content, ms[k]), Prev(ms, k), extract).html == Scan(content, ms, extract).blocks[k]
    decreases |ms|
  {
    var n := |ms| - 1;
    var init := ms[..n];
    ScanNotFailedLast(content, ms, extract);
    ScanCount(content, init, extract);
    if k < n {
      ScanBlockAt(content, init, extract, k);
      assert init[k] == ms[k] && Prev(init, k) == Prev(ms, k);
    } else {
      assert Scan(content, init, extract).index == Prev(ms, n);
    }
  }

  /** Until a block raises, exactly the matched blocks are written, each processed with the
      end of the previous match as its offset; the text between matches is not written. */
  lemma ScanWritesBlocks(content: string, ms: seq<Match>, extract: string -> string)
    requires WellFormed(content, ms)
    ensures !Scan(content, ms, extract).failed ==>
      && Scan(content, ms, extract).index == Prev(ms, |ms|)
      && |Scan(content, ms, extract).blocks| == |ms|
      && forall k :: 0 <= k < |ms| ==>
           && ProcessBlock(TagOf(content, ms[k]), Prev(ms, k), extract).Block?
           && ProcessBlock(TagOf(content, ms[k]), Prev(ms, k), extract).html == Scan(content, ms, extract).blocks[k]
  {
    ScanCount(content, ms, extract);
    if !Scan(content, ms, extract).failed {
      forall k | 0 <= k < |ms|
        ensures ProcessBlock(TagOf(content, ms[k]), Prev(ms, k), extract).Block?
        ensures ProcessBlock(TagOf(content, ms[k]), Prev(ms, k), extract).html == Scan(content, ms, extract).blocks[k]
      {
        ScanBlockAt(content, ms, extract, k);
      }
    }
  }

  /** The ordinals of the matches that produced a heading. */
  function HeadingIndices(content: string, ms: seq<Match>, extract: string -> string): seq<nat>
    requires WellFormed(content, ms)
    decreases |ms|
  {
    if ms == [] then []
    else
      var s := Scan(content, ms[..|ms| - 1], extract);
      var r := ProcessBlock(TagOf(content, ms[|ms| - 1]), s.index, extract);
      HeadingIndices(content, ms[..|ms| - 1], extract)
        + if !s.failed && r.Block? && r.heading.Some? then [|ms| - 1] else []
  }

  /** The ordinals of the heading matches are in range and strictly increasing. */
  lemma {:induction false} HeadingIndicesOrdered(content: string, ms: seq<Match>, extract: string -> string)
    requires WellFormed(content, ms)
    ensures forall j :: 0 <= j < |HeadingIndices(content, ms, extract)| ==> HeadingIndices(content, ms, extract)[j] < |ms|
    ensures forall j, k :: 0 <= j < k < |HeadingIndices(content, ms, extract)| ==>
      HeadingIndices(content, ms, extract)[j] < HeadingIndices(content, ms, extract)[k]
    decreases |ms|
  {
    if ms != [] {
      var n := |ms| - 1;
      var init := ms[..n];
      HeadingIndicesOrdered(content, init, extract);
      var prev := HeadingIndices(content, init, extract);
      var s := Scan(content, init, extract);
      var r := ProcessBlock(TagOf(content, ms[n]), s.index, extract);
      var extra: seq<nat> := if !s.failed && r.Block? && r.heading.Some? then [n] else [];
      assert HeadingIndices(content, ms, extract) == prev + extra;
    }
  }

  /** The last match adds its heading, if any, to both the headings and their ordinals. */
  lemma ScanLast(content: string, ms: seq<Match>, extract: string -> string)
    requires WellFormed(content, ms) && ms != []
    ensures WellFormed(content, ms[..|ms| - 1])
    ensures var s := Scan(content, ms[..|ms| - 1], extract);
      var r := ProcessBlock(TagOf(content, ms[|ms| - 1]), s.index, extract);
      var found := !s.failed && r.Block? && r.heading.Some?;
      && HeadingIndices(content, ms, extract) == HeadingIndices(content, ms[..|ms| - 1], extract) + (if found then [|ms| - 1] else [])
      && Scan(content, ms, extract).headings == s.headings + (if found then [r.heading.value] else [])
  {
  }

  /** One heading per heading ordinal. */
  lemma {:induction false} HeadingsCount(content: string, ms: seq<Match>, extract: string -> string)
    requires WellFormed(content, ms)
    ensures |Scan(content, ms, extract).headings| == |HeadingIndices(content, ms, extract)|
    decreases |ms|
  {
    if ms != [] {
      ScanLast(content, ms, extract);
      HeadingsCount(content, ms[..|ms| - 1], extract);
    }
  }

  /** The heading from match `HeadingIndices[j]` has a level in 1..6 and the id built from
      the end of the previous match. */
  lemma {:induction false} HeadingAt(content: string, ms: seq<Match>, extract: string -> string, j: nat)
    requires WellFormed(content, ms)
    requires j < |HeadingIndices(content, ms, extract)|
    ensures j < |Scan(content, ms, extract).headings| && HeadingIndices(content, ms, extract)[j] < |ms|
    ensures Scan(content, ms, extract).headings[j].id == SectionId(Prev(ms, HeadingIndices(content, ms, extract)[j]))
    ensures 1 <= Scan(content, ms, extract).headings[j].level <= 6
    decreases |ms|
  {
    HeadingsCount(content, ms, extract);
    HeadingIndicesOrdered(content, ms, extract);
    var n := |ms| - 1;
    var init := ms[..n];
    ScanLast(content, ms, extract);
    var prev := HeadingIndices(content, init, extract);
    var s := Scan(content, init, extract);
    HeadingsCount(content, init, extract);
    if j < |prev| {
      HeadingAt(content, init, extract, j);
      HeadingIndicesOrdered(content, init, extract);
      assert Prev(init, prev[j]) == Prev(ms, prev[j]);
    } else {
      ScanCount(content, init, extract);
      assert s.index == Prev(ms, n);
    }
  }

  /** Headings are collected in document order; the one from match `k` has a level in 1..6
      and the id `section` + (end of the previous match + 1). */
  lemma {:induction false} HeadingsIndexed(content: string, ms: seq<Match>, extract: string -> string)
    requires WellFormed(content, ms)
    ensures |Scan(content, ms, extract).headings| == |HeadingIndices(content, ms, extract)|
    ensures forall j :: 0 <= j < |HeadingIndices(content, ms, extract)| ==>
      && HeadingIndices(content, ms, extract)[j] < |ms|
      && Scan(content, ms, extract).headings[j].id == SectionId(Prev(ms, HeadingIndices(content, ms, extract)[j]))
      && 1 <= Scan(content, ms, extract).headings[j].level <= 6
    ensures forall j, k :: 0 <= j < k < |HeadingIndices(content, ms, extract)| ==>
      HeadingIndices(content, ms, extract)[j] < HeadingIndices(content, ms, extract)[k]
  {
    HeadingIndicesOrdered(content, ms, extract);
    HeadingsCount(content, ms, extract);
    forall j | 0 <= j < |HeadingIndices(content, ms, extract)|
      ensures Scan(content, ms, extract).headings[j].id == SectionId(Prev(ms, HeadingIndices(content, ms, extract)[j]))
      ensures 1 <= Scan(content, ms, extract).headings[j].level <= 6
    {
      HeadingAt(content, ms, extract, j);
    }
  }

  /** With non-empty matches the offsets before matches increase strictly, and only the
      first match has offset 0. */
  lemma PrevIncreases(content: string, ms: seq<Match>, a: nat, b: nat)
    requires WellFormed(content, ms) && NonEmpty(ms) && a < b <= |ms|
    ensures Prev(ms, a) < Prev(ms, b)
  {
    assert ms[b - 1].start < ms[b - 1].end;
    if a > 0 {
      assert ms[a - 1].end <= ms[b - 1].start || a - 1 == b - 1;
    }
  }

  /** Heading ids are pairwise distinct, and a heading gets `section1` exactly when it is
      the first match. */
  lemma LegacyIdsDistinct(content: string, ms: seq<Match>, extract: string -> string)
    requires WellFormed(content, ms) && NonEmpty(ms)
    ensures |Scan(content, ms, extract).headings| == |HeadingIndices(content, ms, extract)|
    ensures forall j, k :: 0 <= j < k < |Scan(content, ms, extract).headings| ==>
      Scan(content, ms, extract).headings[j].id != Scan(content, ms, extract).headings[k].id
    ensures forall j :: 0 <= j < |Scan(content, ms, extract).headings| ==>
      (Scan(content, ms, extract).headings[j].id == "section1" <==> HeadingIndices(content, ms, extract)[j] == 0)
  {
    var hs, ix := Scan(content, ms, extract).headings, HeadingIndices(content, ms, extract);
    HeadingsIndexed(content, ms, extract);
    forall j, k | 0 <= j < k < |hs|
      ensures hs[j].id != hs[k].id
    {
      PrevIncreases(content, ms, ix[j], ix[k]);
      PrefixedNatInjective("section", Prev(ms, ix[j]) + 1, Prev(ms, ix[k]) + 1);
    }
    forall j | 0 <= j < |hs|
      ensures hs[j].id == "section1" <==> ix[j] == 0
    {
      assert NatToString(1) == "1";
      if ix[j] != 0 {
        PrevIncreases(content, ms, 0, ix[j]);
        PrefixedNatInjective("section", Prev(ms, ix[j]) + 1, 1);
      }
    }
  }

  /** Every navigation entry of a completed scan has its padding in 10..110. */
  lemma NavPaddingRange(content: string, ms: seq<Match>, extract: string -> string)
    requires WellFormed(content, ms)
    ensures forall j :: 0 <= j < |Scan(content, ms, extract).headings| ==>
      10 <= Padding(Scan(content, ms, extract).headings[j].level) <= 110
  {
    HeadingsIndexed(content, ms, extract);
  }

  /** The trailing paragraph is written exactly when the rest holds a non-whitespace
      character, and its text holds no markup character. */
  lemma TrailingIff(rest: string)
    ensures Trailing(rest) != [] <==> exists i :: 0 <= i < |rest| && !IsSpace(rest[i])
    ensures forall p :: p in Trailing(rest) ==>
      exists body :: p == "<p>" + body + "</p>\n" && forall i :: 0 <= i < |body| ==> !IsMarkupChar(body[i])
  {
    StripEmptyIff(rest);
    if Strip(rest) != [] {
      var body := HtmlEscape(Strip(rest));
      assert Trailing(rest)[0] == "<p>" + body + "</p>\n";
    }
  }

  /** Without any match the page body is the escaped paragraph of the whole stripped input
      (when non-blank) and an empty navigation panel. */
  lemma NoMatchDocument(content: string, extract: string -> string)
    ensures WellFormed(content, [])
    ensures Document(content, [], extract)
      == [Fixed(Head), Fixed(BodyOpen)] + Texts(Trailing(content))
        + [Fixed(ToggleButton), Fixed(PanelOpen), Fixed(PanelClose), Fixed(Scripts)]
  {
    var s := Scan(content, [], extract);
    assert s == ScanState([], [], 0, false);
    assert content[s.index..] == content;
    var none: seq<string> := [];
    assert NavEntries(s.headings) == none;
    var start: seq<Write> := [Fixed(Head), Fixed(BodyOpen)];
    assert Texts(none) == [];
    var mid := Texts(Trailing(content));
    assert Document(content, [], extract)
      == start + [] + mid + [Fixed(ToggleButton), Fixed(PanelOpen)] + [] + [Fixed(PanelClose), Fixed(Scripts)];
  }
}
