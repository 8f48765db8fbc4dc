/** The three content processors of src/processors.py: each rewrites one block of
    text. `re.sub` with a lazy pattern `open(.*?)close` (no DOTALL) is modelled once,
    as `SubLazy`, and the code and list processors are instances of it. */
module Processors {
  import opened TextUtil

  // ---------------------------------------------------------------------------
  // `re.sub(open + '(.*?)' + close, repl, s)` without DOTALL

  /** Where the lazy body `.*?` that starts at offset `i` of `s` ends: the first
      offset at which `close` occurs, provided no newline comes before it. */
  function LazyBody(s: string, close: string, i: nat): (r: Option<nat>)
    requires i <= |s|
    ensures r.Some? ==> i <= r.value && OccursAt(s, close, r.value)
    ensures r.Some? ==> forall j :: i <= j < r.value ==> s[j] != '\n' && !OccursAt(s, close, j)
    ensures r.None? ==> forall j :: i <= j <= |s| && OccursAt(s, close, j) ==> '\n' in s[i..j]
    decreases |s| - i
  {
    if OccursAt(s, close, i) then Some(i)
    else if i == |s| || s[i] == '\n' then None
    else LazyBody(s, close, i + 1)
  }

  /** A match of the lazy pattern at the very start of `s`, as the length of its body. */
  function MatchAtStart(s: string, open: string, close: string): Option<nat>
  {
    if StartsWith(s, open) then LazyBody(s[|open|..], close, 0) else None
  }

  /** Python's `re.sub(open + '(.*?)' + close, lambda m: repl(m.group(1)), s)`:
      matches are found left to right and never overlap; text outside them is copied. */
  function SubLazy(s: string, open: string, close: string, repl: string -> string): string
    requires |open| > 0
    decreases |s|
  {
    if s == [] then []
    else if MatchAtStart(s, open, close).Some? then
      var k := MatchAtStart(s, open, close).value;
      repl(s[|open|..|open| + k]) + SubLazy(s[|open| + k + |close|..], open, close, repl)
    else [s[0]] + SubLazy(s[1..], open, close, repl)
  }

  /** Without an opening delimiter the substitution changes nothing. */
  lemma {:induction false} SubLazyNoOpen(s: string, open: string, close: string, repl: string -> string)
    requires |open| > 0 && !Contains(s, open)
    ensures SubLazy(s, open, close, repl) == s
    decreases |s|
  {
    if s != [] {
      assert !StartsWith(s, open) by { if StartsWith(s, open) { assert OccursAt(s, open, 0); } }
      if Contains(s[1..], open) {
        ContainsFromTail(s, open);
      }
      SubLazyNoOpen(s[1..], open, close, repl);
    }
  }

  /** Text in which no match starts is copied unchanged: `re.sub` only rewrites the
      matches it finds, and none begins inside `a`. */
  lemma {:induction false} SubLazyConcat(a: string, b: string, open: string, close: string, repl: string -> string)
    requires |open| > 0
    requires forall i :: 0 <= i < |a| ==> MatchAtStart((a + b)[i..], open, close).None?
    ensures SubLazy(a + b, open, close, repl) == a + SubLazy(b, open, close, repl)
    decreases |a|
  {
    if a != [] {
      var s := a + b;
      assert MatchAtStart(s, open, close).None? by {
        assert s[0..] == s;
      }
      assert s[0] == a[0] && s[1..] == a[1..] + b;
      forall i | 0 <= i < |a[1..]| ensures MatchAtStart((a[1..] + b)[i..], open, close).None? {
        assert (a[1..] + b)[i..] == s[i + 1..];
      }
      SubLazyConcat(a[1..], b, open, close, repl);
    } else {
      assert a + b == b;
    }
  }

  /** No match starts where the text does not begin with the opening delimiter's first character. */
  lemma NoOpenCharNoMatch(a: string, b: string, open: string, close: string)
    requires |open| > 0
    requires forall i :: 0 <= i < |a| ==> a[i] != open[0]
    ensures forall i :: 0 <= i < |a| ==> MatchAtStart((a + b)[i..], open, close).None?
  {
    forall i | 0 <= i < |a| ensures MatchAtStart((a + b)[i..], open, close).None? {
      assert (a + b)[i..][0] == a[i];
    }
  }

  /** One complete match followed by `rest`: `s` is `open + body + close + rest`. */
  lemma SubLazyOneMatch(s: string, body: string, rest: string, open: string, close: string, repl: string -> string)
    requires |open| > 0
    requires '\n' !in body
    requires forall j :: 0 <= j < |body| ==> !OccursAt(body + close, close, j)
    requires StartsWith(s, open) && s[|open|..] == body + close + rest
    ensures SubLazy(s, open, close, repl) == repl(body) + SubLazy(rest, open, close, repl)
  {
    MatchOfBody(s, body, rest, open, close);
    SubLazyAfter(s, open, close, repl, |body|, body, rest);
  }

  /** A match at offset 0 with body `body`, followed by `rest`, is replaced by `repl(body)`. */
  lemma SubLazyAfter(s: string, open: string, close: string, repl: string -> string, k: nat, body: string, rest: string)
    requires |open| > 0 && MatchAtStart(s, open, close).Some? && MatchAtStart(s, open, close).value == k
    requires |open| + k + |close| <= |s|
    requires s[|open|..|open| + k] == body && s[|open| + k + |close|..] == rest
    ensures SubLazy(s, open, close, repl) == repl(body) + SubLazy(rest, open, close, repl)
  {
    SubLazyUnfold(s, open, close, repl);
  }

  /** The match at the start of `open + body + close + rest` has body `body`. */
  lemma MatchOfBody(s: string, body: string, rest: string, open: string, close: string)
    requires '\n' !in body
    requires forall j :: 0 <= j < |body| ==> !OccursAt(body + close, close, j)
    requires StartsWith(s, open) && s[|open|..] == body + close + rest
    ensures MatchAtStart(s, open, close).Some? && MatchAtStart(s, open, close).value == |body|
    ensures |open| + |body| + |close| <= |s|
    ensures s[|open|..|open| + |body|] == body && s[|open| + |body| + |close|..] == rest
  {
    LazyBodyOfBody(body, close, rest);
    assert s[|open|..][..|body|] == body;
    assert s[|open|..][|body| + |close|..] == rest;
  }

  /** The lazy body of `body + close + rest` is `body` when `body` holds no newline and no
      earlier `close`. */
  lemma LazyBodyOfBody(body: string, close: string, rest: string)
    requires '\n' !in body
    requires forall j :: 0 <= j < |body| ==> !OccursAt(body + close, close, j)
    ensures LazyBody(body + close + rest, close, 0) == Some(|body|)
  {
    var t := body + close + rest;
    assert OccursAt(t, close, |body|) by {
      assert t[|body|..|body| + |close|] == close;
    }
    forall j | 0 <= j < |body| ensures t[j] != '\n' && !OccursAt(t, close, j) {
      assert t[j] == body[j];
      assert !OccursAt(body + close, close, j);
      assert (body + close)[j..j + |close|] == t[j..j + |close|];
    }
    LazyBodyFirst(t, close, 0, |body|);
  }

  /** The lazy body stops at the first occurrence of `close` when no newline precedes it. */
  lemma {:induction false} LazyBodyFirst(s: string, close: string, i: nat, k: nat)
    requires i <= k && OccursAt(s, close, k)
    requires forall j :: i <= j < k ==> s[j] != '\n' && !OccursAt(s, close, j)
    ensures LazyBody(s, close, i) == Some(k)
    decreases k - i
  {
    if i < k {
      LazyBodyFirst(s, close, i + 1, k);
    }
  }

  /** A substring made of characters that are neither delimiter survives the substitution,
      provided the replacement keeps it whenever the body holds it. */
  lemma {:induction false} SubLazyKeeps(s: string, t: string, open: string, close: string, repl: string -> string)
    requires |open| > 0 && |t| > 0
    requires forall i :: 0 <= i < |t| ==> t[i] !in open && t[i] !in close
    requires forall x :: Contains(x, t) ==> Contains(repl(x), t)
    requires Contains(s, t)
    ensures Contains(SubLazy(s, open, close, repl), t)
    decreases |s|, 1
  {
    var q :| 0 <= q <= |s| - |t| && OccursAt(s, t, q);
    if MatchAtStart(s, open, close).Some? {
      SubLazyKeepsAtMatch(s, t, open, close, repl, q);
    } else {
      SubLazyKeepsNoMatch(s, t, open, close, repl, q);
    }
  }

  /** A match at offset 0 is replaced, and the substitution goes on after it. */
  lemma SubLazyUnfold(s: string, open: string, close: string, repl: string -> string)
    requires |open| > 0 && MatchAtStart(s, open, close).Some?
    ensures |open| + MatchAtStart(s, open, close).value + |close| <= |s|
    ensures SubLazy(s, open, close, repl)
      == repl(s[|open|..|open| + MatchAtStart(s, open, close).value])
         + SubLazy(s[|open| + MatchAtStart(s, open, close).value + |close|..], open, close, repl)
  {
  }

  /** Where the delimiters of a match at offset 0 lie. */
  lemma MatchAtStartShape(s: string, open: string, close: string)
    requires MatchAtStart(s, open, close).Some?
    ensures StartsWith(s, open) && OccursAt(s[|open|..], close, MatchAtStart(s, open, close).value)
    ensures |close| > 0 || MatchAtStart(s, open, close).value == 0
  {
    if |close| == 0 {
      assert OccursAt(s[|open|..], close, 0);
    }
  }

  /** Around a match at offset 0, an occurrence of a text that shares no character with
      the delimiters lies inside the body or after the closing delimiter. */
  lemma MatchSplit(s: string, t: string, open: string, close: string, q: nat, k: nat)
    requires |open| > 0 && |t| > 0
    requires forall i :: 0 <= i < |t| ==> t[i] !in open && t[i] !in close
    requires OccursAt(s, t, q) && StartsWith(s, open) && OccursAt(s[|open|..], close, k)
    requires |close| > 0 || k == 0
    ensures (|open| <= q && q + |t| <= |open| + k) || |open| + k + |close| <= q
  {
    var L := |open|;
    assert OccursAt(s, open, 0);
    OccurrencesDisjoint(s, t, q, open, 0);
    if |close| > 0 {
      assert s[L + k..L + k + |close|] == s[L..][k..k + |close|];
      assert OccursAt(s, close, L + k);
      OccurrencesDisjoint(s, t, q, close, L + k);
    }
  }

  /** `SubLazyKeeps` when a match starts at offset 0: the occurrence lies in the body or after the match. */
  lemma {:induction false} SubLazyKeepsAtMatch(s: string, t: string, open: string, close: string, repl: string -> string, q: nat)
    requires |open| > 0 && |t| > 0
    requires forall i :: 0 <= i < |t| ==> t[i] !in open && t[i] !in close
    requires forall x :: Contains(x, t) ==> Contains(repl(x), t)
    requires OccursAt(s, t, q) && MatchAtStart(s, open, close).Some?
    ensures Contains(SubLazy(s, open, close, repl), t)
    decreases |s|, 0
  {
    var L, k := |open|, MatchAtStart(s, open, close).value;
    SubLazyUnfold(s, open, close, repl);
    MatchAtStartShape(s, open, close);
    MatchSplit(s, t, open, close, q, k);
    var E := L + k + |close|;
    var body, rest := s[L..L + k], s[E..];
    var a, b := repl(body), SubLazy(rest, open, close, repl);
    if q + |t| <= L + k {
      OccursInSlice(s, t, q, L, L + k);
      ContainsLeft(a, b, t);
    } else {
      OccursInSlice(s, t, q, E, |s|);
      assert s[E..|s|] == rest;
      SubLazyKeeps(rest, t, open, close, repl);
      ContainsRight(a, b, t);
    }
  }

  /** `SubLazyKeeps` when no match starts at offset 0: the first character is copied. */
  lemma {:induction false} SubLazyKeepsNoMatch(s: string, t: string, open: string, close: string, repl: string -> string, q: nat)
    requires |open| > 0 && |t| > 0
    requires forall i :: 0 <= i < |t| ==> t[i] !in open && t[i] !in close
    requires forall x :: Contains(x, t) ==> Contains(repl(x), t)
    requires OccursAt(s, t, q) && MatchAtStart(s, open, close).None?
    ensures Contains(SubLazy(s, open, close, repl), t)
    decreases |s|, 0
  {
    var r := SubLazy(s, open, close, repl);
    assert r == [s[0]] + SubLazy(s[1..], open, close, repl);
    if q == 0 {
      var tail := s[|t|..];
      assert s[1..] == t[1..] + tail;
      forall i | 0 <= i < |t[1..]| ensures t[1..][i] != open[0] {
        assert t[i + 1] !in open;
      }
      NoOpenCharNoMatch(t[1..], tail, open, close);
      SubLazyConcat(t[1..], tail, open, close, repl);
      assert r == t + SubLazy(tail, open, close, repl);
      assert r[..|t|] == t;
      assert OccursAt(r, t, 0);
    } else {
      assert s[1..][q - 1..q - 1 + |t|] == s[q..q + |t|];
      assert OccursAt(s[1..], t, q - 1);
      SubLazyKeeps(s[1..], t, open, close, repl);
      ContainsInMiddle([s[0]], SubLazy(s[1..], open, close, repl), [], t);
      assert [s[0]] + SubLazy(s[1..], open, close, repl) + [] == r;
    }
  }

  // ---------------------------------------------------------------------------
  // CodeProcessor (src/processors.py:6-14)

  /** The replacement for one `<code>X</code>` match. */
  function CodeSpan(body: string): string
  {
    "<code>" + HtmlEscape(body) + "</code>"
  }

  function EscapeCodeSpans(s: string): string
  {
    SubLazy(s, "<code>", "</code>", CodeSpan)
  }

  /** `CodeProcessor.process`. */
  function CodeProcess(content: string): string
  {
    if !Contains(content, "<code>") then content else EscapeCodeSpans(content)
  }

  /** The guard is only a shortcut: the result is always the substitution. */
  lemma CodeProcessIsSubstitution(content: string)
    ensures CodeProcess(content) == EscapeCodeSpans(content)
  {
    if !Contains(content, "<code>") {
      SubLazyNoOpen(content, "<code>", "</code>", CodeSpan);
    }
  }

  /** `</code>` cannot start inside a body that holds no `<` and close the span early. */
  lemma CloseNotInside(body: string)
    requires '<' !in body
    ensures forall j :: 0 <= j < |body| ==> !OccursAt(body + "</code>", "</code>", j)
  {
    forall j | 0 <= j < |body| ensures !OccursAt(body + "</code>", "</code>", j) {
      assert (body + "</code>")[j] == body[j] != '<';
    }
  }

  /** One match of the code pattern, with nothing around it. */
  lemma EscapeOneCodeSpan(body: string)
    requires '\n' !in body
    requires forall j :: 0 <= j < |body| ==> !OccursAt(body + "</code>", "</code>", j)
    ensures EscapeCodeSpans("<code>" + body + "</code>") == CodeSpan(body)
  {
    var s := "<code>" + body + "</code>";
    assert s[..6] == "<code>" && s[6..] == body + "</code>" + [];
    SubLazyOneMatch(s, body, [], "<code>", "</code>", CodeSpan);
  }

  /** A block that is one code span, whose body has no newline and no early `</code>`,
      has its body escaped. */
  lemma CodeProcessSpan(body: string)
    requires '\n' !in body
    requires forall j :: 0 <= j < |body| ==> !OccursAt(body + "</code>", "</code>", j)
    ensures CodeProcess("<code>" + body + "</code>") == "<code>" + HtmlEscape(body) + "</code>"
  {
    EscapeOneCodeSpan(body);
    CodeProcessIsSubstitution("<code>" + body + "</code>");
  }

  /** The common case: neither newline nor `<` inside the span. */
  lemma CodeProcessOneSpan(body: string)
    requires '\n' !in body && '<' !in body
    ensures CodeProcess("<code>" + body + "</code>") == "<code>" + HtmlEscape(body) + "</code>"
  {
    CloseNotInside(body);
    CodeProcessSpan(body);
  }

  /** A code span inside a block: the text before it, in which no match starts, and the
      text after it, which holds no `<code>`, are copied, and only the span's body is
      escaped. */
  lemma CodeSpanInBlock(pre: string, body: string, post: string)
    requires '\n' !in body && '<' !in body && !Contains(post, "<code>")
    requires forall i :: 0 <= i < |pre| ==>
      MatchAtStart((pre + "<code>" + body + "</code>" + post)[i..], "<code>", "</code>").None?
    ensures CodeProcess(pre + "<code>" + body + "</code>" + post)
         == pre + "<code>" + HtmlEscape(body) + "</code>" + post
  {
    var s := pre + "<code>" + body + "</code>" + post;
    CloseNotInside(body);
    SubLazyOneInBlock(pre, body, post, "<code>", "</code>", CodeSpan);
    CodeProcessIsSubstitution(s);
    assert CodeProcess(s) == pre + CodeSpan(body) + post;
    Reassociate(pre, "<code>", HtmlEscape(body), "</code>", post);
  }

  lemma Reassociate(a: string, b: string, c: string, d: string, e: string)
    ensures a + (b + c + d) + e == a + b + c + d + e
  {
  }

  /** One match between a prefix where no match starts and a suffix without an opening
      delimiter: only the match is replaced. */
  lemma SubLazyOneInBlock(pre: string, body: string, post: string, open: string, close: string, repl: string -> string)
    requires |open| > 0 && '\n' !in body && !Contains(post, open)
    requires forall j :: 0 <= j < |body| ==> !OccursAt(body + close, close, j)
    requires forall i :: 0 <= i < |pre| ==> MatchAtStart((pre + open + body + close + post)[i..], open, close).None?
    ensures SubLazy(pre + open + body + close + post, open, close, repl) == pre + repl(body) + post
  {
    var rest := open + body + close + post;
    MatchThenRest(pre, open, body, close, post);
    SubLazyConcat(pre, rest, open, close, repl);
    SubLazyOneMatch(rest, body, post, open, close, repl);
    SubLazyNoOpen(post, open, close, repl);
    assert pre + (repl(body) + post) == pre + repl(body) + post;
  }

  /** How `pre + open + body + close + post` splits around the match. */
  lemma MatchThenRest(pre: string, open: string, body: string, close: string, post: string)
    ensures pre + open + body + close + post == pre + (open + body + close + post)
    ensures StartsWith(open + body + close + post, open)
    ensures (open + body + close + post)[|open|..] == body + close + post
  {
    var rest := open + body + close + post;
    assert rest[..|open|] == open;
  }

  /** `<p>x <code>B</code></p>`: the `<p>` before the span is not a match start, so only
      the body is escaped and the paragraph around it is kept. */
  lemma CodeSpanInParagraph(body: string)
    requires '\n' !in body && '<' !in body
    ensures CodeProcess("<p>x " + "<code>" + body + "</code>" + "</p>")
         == "<p>x " + "<code>" + HtmlEscape(body) + "</code>" + "</p>"
  {
    var pre, post := "<p>x ", "</p>";
    ParagraphPieces(pre, post);
    var s := pre + "<code>" + body + "</code>" + post;
    forall i | 0 <= i < |pre| ensures MatchAtStart(s[i..], "<code>", "</code>").None? {
      assert s[i..][0] == pre[i];
      if i == 0 {
        assert s[1] == 'p';
        NotStartsWithAt(s, "<code>", 1);
      } else {
        NotStartsWithAt(s[i..], "<code>", 0);
      }
    }
    CodeSpanInBlock(pre, body, post);
  }

  /** The literal facts `CodeSpanInParagraph` needs about its surroundings. */
  lemma ParagraphPieces(pre: string, post: string)
    requires pre == "<p>x " && post == "</p>"
    ensures |pre| == 5 && pre[0] == '<' && pre[1] == 'p'
    ensures forall i :: 1 <= i < |pre| ==> pre[i] != '<'
    ensures !Contains(post, "<code>")
  {
  }

  /** A span holding one tag, `<code><name></code>` with a lower-case `name` (such as
      `script`), has the tag escaped: `<code>&lt;name&gt;</code>`. */
  lemma CodeProcessEscapesTag(name: string)
    requires forall i :: 0 <= i < |name| ==> 'a' <= name[i] <= 'z'
    ensures CodeProcess("<code><" + name + "></code>") == "<code>&lt;" + name + "&gt;</code>"
  {
    TagSpanClean(name);
    CodeProcessSpan("<" + name + ">");
    EscapeTag(name);
    Regroup("<code>", "<", name, ">", "</code>");
    Regroup("<code>", "&lt;", name, "&gt;", "</code>");
    TagSpanJoins();
  }

  lemma Regroup(a: string, b: string, m: string, c: string, d: string)
    ensures a + (b + m + c) + d == (a + b) + m + (c + d)
  {
  }

  lemma TagSpanJoins()
    ensures "<code>" + "<" == "<code><" && ">" + "</code>" == "></code>"
    ensures "<code>" + "&lt;" == "<code>&lt;" && "&gt;" + "</code>" == "&gt;</code>"
  {
  }

  /** `<name>` holds no newline, and no `</code>` starts inside it. */
  lemma TagSpanClean(name: string)
    requires forall i :: 0 <= i < |name| ==> 'a' <= name[i] <= 'z'
    ensures '\n' !in "<" + name + ">"
    ensures forall j :: 0 <= j < |"<" + name + ">"| ==> !OccursAt("<" + name + ">" + "</code>", "</code>", j)
  {
    var body := "<" + name + ">";
    var w := body + "</code>";
    var close := "</code>";
    assert close[0] == '<' && close[1] == '/';
    forall j | 0 <= j < |body| ensures !OccursAt(w, close, j) {
      if j == 0 {
        assert w[1] == body[1];
        NotOccursAtChar(w, close, 0, 1);
      } else {
        assert w[j] == body[j];
        if j <= |name| {
          assert body[j] == name[j - 1];
        }
        NotOccursAtChar(w, close, j, 0);
      }
    }
    forall i | 0 <= i < |body| ensures body[i] != '\n' {
      if 0 < i < |body| - 1 { assert body[i] == name[i - 1]; }
    }
  }

  /** Escaping `<name>` escapes only its angle brackets. */
  lemma EscapeTag(name: string)
    requires forall i :: 0 <= i < |name| ==> 'a' <= name[i] <= 'z'
    ensures HtmlEscape("<" + name + ">") == "&lt;" + name + "&gt;"
  {
    HtmlEscapePlain(name);
    EscapeAroundPlain("<", name, ">");
    EscapeAngles();
  }

  lemma EscapeAroundPlain(a: string, m: string, b: string)
    requires HtmlEscape(m) == m
    ensures HtmlEscape(a + m + b) == HtmlEscape(a) + m + HtmlEscape(b)
  {
    HtmlEscapeConcat(a, m);
    HtmlEscapeConcat(a + m, b);
  }

  lemma EscapeAngles()
    ensures HtmlEscape("<") == "&lt;" && HtmlEscape(">") == "&gt;"
  {
    assert HtmlEscape("<") == EscapeChar('<') + HtmlEscape([]);
    assert HtmlEscape(">") == EscapeChar('>') + HtmlEscape([]);
  }

  /** The code processor is not idempotent: a second pass escapes the entities again. */
  lemma CodeProcessNotIdempotent(block: string)
    requires block == "<code>&</code>"
    ensures CodeProcess(block) == "<code>&amp;</code>"
    ensures CodeProcess(CodeProcess(block)) == "<code>&amp;amp;</code>"
  {
    CodeProcessAmpersandOnce(block);
    CodeProcessAmpersandTwice(CodeProcess(block));
  }

  lemma CodeProcessAmpersandOnce(block: string)
    requires block == "<code>&</code>"
    ensures CodeProcess(block) == "<code>&amp;</code>"
  {
    AmpersandSpans();
    EscapeAmpersand();
    CodeProcessWrapped(block, "&");
  }

  lemma CodeProcessAmpersandTwice(block: string)
    requires block == "<code>&amp;</code>"
    ensures CodeProcess(block) == "<code>&amp;amp;</code>"
  {
    AmpersandSpans();
    EscapeAmpersand();
    CodeProcessWrapped(block, "&amp;");
  }

  /** `CodeProcessOneSpan` for a block already known to be that span. */
  lemma CodeProcessWrapped(block: string, body: string)
    requires block == "<code>" + body + "</code>"
    requires '\n' !in body && '<' !in body
    ensures CodeProcess(block) == "<code>" + HtmlEscape(body) + "</code>"
  {
    CodeProcessOneSpan(body);
  }

  /** The literal spans of the two lemmas above, split into tag and body. */
  lemma AmpersandSpans()
    ensures "<code>&</code>" == "<code>" + "&" + "</code>"
    ensures "<code>&amp;</code>" == "<code>" + "&amp;" + "</code>"
    ensures "<code>&amp;amp;</code>" == "<code>" + "&amp;amp;" + "</code>"
    ensures '\n' !in "&" && '<' !in "&" && '\n' !in "&amp;" && '<' !in "&amp;"
  {
  }

  lemma EscapeAmpersand()
    ensures HtmlEscape("&") == "&amp;"
    ensures HtmlEscape("&amp;") == "&amp;amp;"
  {
    assert HtmlEscape(";") == ";";
    assert HtmlEscape("p;") == "p;";
    assert HtmlEscape("mp;") == "mp;";
    assert HtmlEscape("amp;") == "amp;";
  }

  // ---------------------------------------------------------------------------
  // ListProcessor (src/processors.py:16-25)

  /** The replacement for one `{s}` match: `<li>` + items of `s` split on commas + `</li>`. */
  function ListItems(body: string): string
  {
    "<li>" + Join(Split(body, ','), "</li><li>") + "</li>"
  }

  function RewriteBraces(s: string): string
  {
    SubLazy(s, "{", "}", ListItems)
  }

  predicate HasListTag(s: string)
  {
    Contains(s, "<ul>") || Contains(s, "<ol>")
  }

  /** `ListProcessor.process`. */
  function ListProcess(content: string): string
  {
    if !HasListTag(content) then content
    else
      var r := RewriteBraces(content);
      if !HasListTag(r) then "<ul>" + r + "</ul>" else r
  }

  /** Each item is one comma-separated piece, untrimmed and unescaped:
      the commas of the body become `</li><li>` and nothing else changes. */
  lemma ListItemsShape(body: string)
    ensures ListItems(body) == "<li>" + ReplaceAll(body, ",", "</li><li>") + "</li>"
    ensures |Split(body, ',')| == CountChar(body, ',') + 1
  {
    JoinSplit(body, ',', "</li><li>");
  }

  /** `{}` gives one empty item. */
  lemma ListItemsEmpty()
    ensures ListItems("") == "<li></li>"
  {
  }

  /** Replacing a single character keeps every substring that does not contain it. */
  lemma {:induction false} ReplaceCharKeeps(s: string, c: char, rep: string, t: string)
    requires |t| > 0 && c !in t && Contains(s, t)
    ensures Contains(ReplaceAll(s, [c], rep), t)
    decreases |s|
  {
    var q :| 0 <= q <= |s| - |t| && OccursAt(s, t, q);
    var r := ReplaceAll(s, [c], rep);
    if StartsWith(s, [c]) {
      assert s[0] == c && t[0] == s[q];
      assert q != 0;
      assert s[1..][q - 1..q - 1 + |t|] == s[q..q + |t|];
      assert OccursAt(s[1..], t, q - 1);
      ReplaceCharKeeps(s[1..], c, rep, t);
      ContainsInMiddle(rep, ReplaceAll(s[1..], [c], rep), [], t);
      assert rep + ReplaceAll(s[1..], [c], rep) + [] == r;
    } else if q == 0 {
      ReplaceCharPrefix(t, s[|t|..], c, rep);
      assert s == t + s[|t|..];
      assert r[..|t|] == t;
      assert OccursAt(r, t, 0);
    } else {
      assert s[1..][q - 1..q - 1 + |t|] == s[q..q + |t|];
      assert OccursAt(s[1..], t, q - 1);
      ReplaceCharKeeps(s[1..], c, rep, t);
      ContainsInMiddle([s[0]], ReplaceAll(s[1..], [c], rep), [], t);
      assert [s[0]] + ReplaceAll(s[1..], [c], rep) + [] == r;
    }
  }

  lemma {:induction false} ReplaceCharPrefix(a: string, b: string, c: char, rep: string)
    requires c !in a
    ensures ReplaceAll(a + b, [c], rep) == a + ReplaceAll(b, [c], rep)
    decreases |a|
  {
    if a != [] {
      var s := a + b;
      assert s[0] == a[0] && s[1..] == a[1..] + b;
      assert !StartsWith(s, [c]);
      ReplaceCharPrefix(a[1..], b, c, rep);
    } else {
      assert a + b == b;
    }
  }

  /** The list-item replacement keeps `<ul>` and `<ol>`, which hold no comma. */
  lemma ListItemsKeepTag(x: string, t: string)
    requires t == "<ul>" || t == "<ol>"
    ensures Contains(x, t) ==> Contains(ListItems(x), t)
  {
    if Contains(x, t) {
      ListItemsShape(x);
      ReplaceCharKeeps(x, ',', "</li><li>", t);
      ContainsInMiddle("<li>", ReplaceAll(x, ",", "</li><li>"), "</li>", t);
    }
  }

  /** Brace rewriting cannot remove a `<ul>` or `<ol>`: neither holds a brace or a comma. */
  lemma RewriteBracesKeepsListTag(s: string)
    ensures HasListTag(s) ==> HasListTag(RewriteBraces(s))
  {
    forall x ensures Contains(x, "<ul>") ==> Contains(ListItems(x), "<ul>") {
      ListItemsKeepTag(x, "<ul>");
    }
    forall x ensures Contains(x, "<ol>") ==> Contains(ListItems(x), "<ol>") {
      ListItemsKeepTag(x, "<ol>");
    }
    if Contains(s, "<ul>") {
      SubLazyKeeps(s, "<ul>", "{", "}", ListItems);
    }
    if Contains(s, "<ol>") {
      SubLazyKeeps(s, "<ol>", "{", "}", ListItems);
    }
  }

  /** The `<ul>…</ul>` wrap on line 25 never fires: the result is the rewritten block,
      or the block itself when it holds no list tag. */
  lemma ListProcessNeverWraps(content: string)
    ensures ListProcess(content) == if HasListTag(content) then RewriteBraces(content) else content
  {
    RewriteBracesKeepsListTag(content);
  }

  /** A `<ul>` block holding one brace group on one line: every comma of the group
      separates two items. */
  lemma ListProcessBlock(body: string)
    requires '\n' !in body && '}' !in body
    ensures ListProcess("<ul>{" + body + "}</ul>") == "<ul>" + ListItems(body) + "</ul>"
  {
    var block := "<ul>{" + body + "}</ul>";
    assert OccursAt(block, "<ul>", 0);
    ListProcessNeverWraps(block);
    RewriteBracesBlock(body);
  }

  lemma RewriteBracesBlock(body: string)
    requires '\n' !in body && '}' !in body
    ensures RewriteBraces("<ul>{" + body + "}</ul>") == "<ul>" + ListItems(body) + "</ul>"
  {
    var tail := "{" + body + "}" + "</ul>";
    assert "<ul>{" + body + "}</ul>" == "<ul>" + tail;
    NoOpenCharNoMatch("<ul>", tail, "{", "}");
    SubLazyConcat("<ul>", tail, "{", "}", ListItems);
    RewriteBracesGroup(body);
  }

  lemma RewriteBracesGroup(body: string)
    requires '\n' !in body && '}' !in body
    ensures SubLazy("{" + body + "}" + "</ul>", "{", "}", ListItems) == ListItems(body) + "</ul>"
  {
    forall j | 0 <= j < |body| ensures !OccursAt(body + "}", "}", j) {
      assert (body + "}")[j] == body[j];
    }
    var s := "{" + body + "}" + "</ul>";
    assert s[..1] == "{" && s[1..] == body + "}" + "</ul>";
    SubLazyOneMatch(s, body, "</ul>", "{", "}", ListItems);
    assert !Contains("</ul>", "{") by {
      forall i | 0 <= i <= |"</ul>"| - 1 ensures !OccursAt("</ul>", "{", i) {
        assert "</ul>"[i] != '{';
      }
    }
    SubLazyNoOpen("</ul>", "{", "}", ListItems);
  }

  // ---------------------------------------------------------------------------
  // TableProcessor (src/processors.py:27-69)

  const TableOpen: string := "<table class=\"content-table\">"
  const ResponsiveOpen: string := "<div class=\"table-responsive\">\n"
  const ResponsiveClose: string := "\n</div>"

  /** `[line.strip() for line in lines if line.strip()]` */
  function NonBlankStripped(lines: seq<string>): seq<string>
    decreases |lines|
  {
    if lines == [] then []
    else
      var rest := NonBlankStripped(lines[1..]);
      var line := Strip(lines[0]);
      if line != [] then [line] + rest else rest
  }

  /** The lines of the block once the `<table>`/`</table>` substrings are removed (lines 32-33). */
  function TableLines(content: string): seq<string>
  {
    var body := Strip(ReplaceAll(ReplaceAll(content, "<table>", ""), "</table>", ""));
    NonBlankStripped(Split(body, '\n'))
  }

  datatype LineKind = HeaderLine | ExplicitTbody | DataRow | Dropped

  /** The branch of the loop (lines 39-49) that a line takes. */
  function KindOf(line: string): LineKind
  {
    if StartsWith(line, "<thead>") then HeaderLine
    else if StartsWith(line, "<tbody>") || StartsWith(line, "</tbody>") then ExplicitTbody
    else if Contains(line, "[[") && Contains(line, "]]") then DataRow
    else Dropped
  }

  /** `[cell.strip() for cell in x.strip('[]').split('|')]` */
  function Cells(x: string): (cells: seq<string>)
    ensures |cells| == |Split(StripChars(x, {'[', ']'}), '|')|
  {
    var pieces := Split(StripChars(x, {'[', ']'}), '|');
    seq(|pieces|, i requires 0 <= i < |pieces| => Strip(pieces[i]))
  }

  function HeaderCells(cells: seq<string>): seq<string>
  {
    seq(|cells|, i requires 0 <= i < |cells| => "<th scope=\"col\">" + cells[i] + "</th>")
  }

  function PlainCells(cells: seq<string>): seq<string>
  {
    seq(|cells|, i requires 0 <= i < |cells| => "<td>" + cells[i] + "</td>")
  }

  /** `header_content`: the line with every `<thead>`, then every `</thead>`, removed. */
  function HeaderContent(line: string): string
  {
    ReplaceAll(ReplaceAll(line, "<thead>", ""), "</thead>", "")
  }

  /** `_process_header`: a header row that also opens `<tbody>`, or nothing without `[[`. */
  function ProcessHeader(line: string): string
  {
    var hc := HeaderContent(line);
    if Contains(hc, "[[") then "<thead><tr>" + Concat(HeaderCells(Cells(hc))) + "</tr></thead><tbody>"
    else ""
  }

  /** `_process_row`: the first cell is the row header, the rest are plain cells. */
  function ProcessRow(line: string): string
  {
    RenderRow(Cells(line))
  }

  function RenderRow(cells: seq<string>): string
    requires |cells| >= 1
  {
    "<tr><td class=\"row-header\">" + cells[0] + "</td>" + Concat(PlainCells(cells[1..])) + "</tr>"
  }

  /** Whether a line sets `tbody_open`. */
  predicate OpensBody(line: string)
  {
    KindOf(line) == HeaderLine || KindOf(line) == DataRow
  }

  /** `tbody_open` after the loop has seen `lines`. */
  function Opened(lines: seq<string>): bool
    decreases |lines|
  {
    if lines == [] then false else Opened(lines[..|lines| - 1]) || OpensBody(lines[|lines| - 1])
  }

  /** What one iteration of the loop appends to `html_parts`. */
  function LineParts(line: string, open: bool): seq<string>
  {
    match KindOf(line)
    case HeaderLine => [ProcessHeader(line)]
    case ExplicitTbody => []
    case DataRow => (if open then [] else ["<tbody>"]) + [ProcessRow(line)]
    case Dropped => []
  }

  /** Everything the loop appends to `html_parts` for `lines`. */
  function BodyParts(lines: seq<string>): seq<string>
    decreases |lines|
  {
    if lines == [] then []
    else
      var init := lines[..|lines| - 1];
      BodyParts(init) + LineParts(lines[|lines| - 1], Opened(init))
  }

  /** `html_parts` when the method joins it. */
  function TableParts(lines: seq<string>): seq<string>
  {
    [TableOpen] + BodyParts(lines) + (if Opened(lines) then ["</tbody>"] else []) + ["</table>"]
  }

  /** `TableProcessor.process` as a function of its input. */
  function TableHtml(content: string): string
  {
    if !Contains(content, "<table>") then content
    else ResponsiveOpen + Join(TableParts(TableLines(content)), "\n") + ResponsiveClose
  }

  /** `TableProcessor.process`. */
  method TableProcess(content: string) returns (r: string)
    ensures r == TableHtml(content)
  {
    if !Contains(content, "<table>") {
      return content;
    }
    var parts := CollectParts(TableLines(content));
    r := ResponsiveOpen + Join(parts, "\n") + ResponsiveClose;
  }

  /** The loop of lines 38-53: appends to `parts` line by line and flips `open`. */
  method CollectParts(lines: seq<string>) returns (parts: seq<string>)
    ensures parts == TableParts(lines)
  {
    parts := [TableOpen];
    var open := false;
    for i := 0 to |lines|
      invariant parts == [TableOpen] + BodyParts(lines[..i])
      invariant open == Opened(lines[..i])
    {
      var line := lines[i];
      ghost var before, wasOpen := parts, open;
      if StartsWith(line, "<thead>") {
        parts := parts + [ProcessHeader(line)];
        open := true;
      } else if StartsWith(line, "<tbody>") || StartsWith(line, "</tbody>") {
        // explicit tbody tags are skipped
      } else if Contains(line, "[[") && Contains(line, "]]") {
        if !open {
          parts := parts + ["<tbody>"];
          open := true;
        }
        parts := parts + [ProcessRow(line)];
      }
      CollectStep(before, line, wasOpen, parts, open);
      BodyPartsStep(lines, i);
      AppendAssoc([TableOpen], BodyParts(lines[..i]), LineParts(line, wasOpen));
    }
    assert lines[..|lines|] == lines;
    if open {
      parts := parts + ["</tbody>"];
    }
    parts := parts + ["</table>"];
  }

  /** What one iteration of the loop did, in terms of `LineParts` and `OpensBody`. */
  lemma CollectStep(before: seq<string>, line: string, wasOpen: bool, parts: seq<string>, open: bool)
    requires KindOf(line) == HeaderLine ==> parts == before + [ProcessHeader(line)] && open
    requires KindOf(line) == ExplicitTbody || KindOf(line) == Dropped ==> parts == before && open == wasOpen
    requires KindOf(line) == DataRow ==>
      open && parts == (if wasOpen then before else before + ["<tbody>"]) + [ProcessRow(line)]
    ensures parts == before + LineParts(line, wasOpen)
    ensures open == (wasOpen || OpensBody(line))
  {
    match KindOf(line)
    case HeaderLine => assert LineParts(line, wasOpen) == [ProcessHeader(line)];
    case DataRow =>
      if wasOpen {
        assert LineParts(line, wasOpen) == [ProcessRow(line)];
      } else {
        assert LineParts(line, wasOpen) == ["<tbody>"] + [ProcessRow(line)];
        AppendAssoc(before, ["<tbody>"], [ProcessRow(line)]);
      }
    case _ => assert LineParts(line, wasOpen) == [];
  }

  lemma AppendAssoc(a: seq<string>, b: seq<string>, c: seq<string>)
    ensures a + (b + c) == a + b + c
  {
  }

  /** One more line: its parts are appended and the flag is updated. */
  lemma BodyPartsStep(lines: seq<string>, i: nat)
    requires i < |lines|
    ensures BodyParts(lines[..i + 1]) == BodyParts(lines[..i]) + LineParts(lines[i], Opened(lines[..i]))
    ensures Opened(lines[..i + 1]) == (Opened(lines[..i]) || OpensBody(lines[i]))
  {
    assert lines[..i + 1][..i] == lines[..i];
  }

  lemma {:induction false} JoinEnds(parts: seq<string>, sep: string)
    requires |parts| >= 1
    ensures StartsWith(Join(parts, sep), parts[0])
    ensures EndsWith(Join(parts, sep), parts[|parts| - 1])
    decreases |parts|
  {
    if |parts| > 1 {
      JoinEnds(parts[1..], sep);
      var j := Join(parts[1..], sep);
      assert Join(parts, sep) == parts[0] + sep + j;
      assert (parts[0] + sep + j)[..|parts[0]|] == parts[0];
      assert (parts[0] + sep + j)[|parts[0] + sep + j| - |parts[|parts| - 1]|..] == j[|j| - |parts[|parts| - 1]|..];
    }
  }

  /** With a `<table>` tag the output is the responsive wrapper around one content table;
      without one the block is returned unchanged. */
  lemma TableFraming(content: string)
    ensures !Contains(content, "<table>") ==> TableHtml(content) == content
    ensures Contains(content, "<table>") ==>
      StartsWith(TableHtml(content), ResponsiveOpen + TableOpen)
      && EndsWith(TableHtml(content), "</table>" + ResponsiveClose)
  {
    var parts := TableParts(TableLines(content));
    JoinEnds(parts, "\n");
    WrappedEnds(ResponsiveOpen, Join(parts, "\n"), ResponsiveClose, TableOpen, "</table>");
  }

  /** `tbody_open` holds exactly when some line is a header line or a data row. */
  lemma {:induction false} OpenedIff(lines: seq<string>)
    ensures Opened(lines) <==> exists i :: 0 <= i < |lines| && OpensBody(lines[i])
    decreases |lines|
  {
    if lines != [] {
      var init := lines[..|lines| - 1];
      OpenedIff(init);
      if Opened(init) {
        var i :| 0 <= i < |init| && OpensBody(init[i]);
        assert lines[i] == init[i];
      }
      if exists i :: 0 <= i < |lines| && OpensBody(lines[i]) {
        var i :| 0 <= i < |lines| && OpensBody(lines[i]);
        if i < |lines| - 1 {
          assert init[i] == lines[i];
        }
      }
    }
  }

  /** The header output is empty exactly when the line, without its `<thead>`/`</thead>`,
      holds no `[[`; otherwise it begins with `<thead>`. */
  lemma ProcessHeaderShape(line: string)
    ensures ProcessHeader(line) == [] <==> !Contains(HeaderContent(line), "[[")
    ensures ProcessHeader(line) == [] || StartsWith(ProcessHeader(line), "<thead>")
  {
    var hc := HeaderContent(line);
    if Contains(hc, "[[") {
      var cells := Concat(HeaderCells(Cells(hc)));
      HeaderStarts(cells);
    }
  }

  /** A header with cells renders one `<th scope="col">` per `|`-separated, stripped cell
      of the bracket-trimmed header content, in order, and ends by opening `<tbody>`. */
  lemma HeaderRowCells(line: string)
    requires Contains(HeaderContent(line), "[[")
    ensures var hc := HeaderContent(line);
      var pieces := Split(StripChars(hc, {'[', ']'}), '|');
      var ths := HeaderCells(Cells(hc));
      |ths| == |pieces| == CountChar(hc, '|') + 1
      && (forall i :: 0 <= i < |ths| ==> ths[i] == "<th scope=\"col\">" + Strip(pieces[i]) + "</th>")
      && ProcessHeader(line) == "<thead><tr>" + Concat(ths) + "</tr></thead><tbody>"
      && EndsWith(ProcessHeader(line), "<tbody>")
  {
    var hc := HeaderContent(line);
    RowCellCount(hc);
    HeaderCellsAt(hc);
    HeaderWithCells(line);
  }

  /** The i-th header cell wraps the i-th stripped piece. */
  lemma HeaderCellsAt(hc: string)
    ensures var pieces := Split(StripChars(hc, {'[', ']'}), '|');
      var ths := HeaderCells(Cells(hc));
      |ths| == |pieces|
      && forall i :: 0 <= i < |ths| ==> ths[i] == "<th scope=\"col\">" + Strip(pieces[i]) + "</th>"
  {
  }

  /** With `[[`, the header is the cells framed by `<thead><tr>` and `</tr></thead><tbody>`. */
  lemma HeaderWithCells(line: string)
    requires Contains(HeaderContent(line), "[[")
    ensures ProcessHeader(line) == "<thead><tr>" + Concat(HeaderCells(Cells(HeaderContent(line)))) + "</tr></thead><tbody>"
    ensures EndsWith(ProcessHeader(line), "<tbody>")
  {
    HeaderEnds(Concat(HeaderCells(Cells(HeaderContent(line)))));
  }

  lemma HeaderEnds(cells: string)
    ensures EndsWith("<thead><tr>" + cells + "</tr></thead><tbody>", "<tbody>")
  {
    var r := "<thead><tr>" + cells + "</tr></thead><tbody>";
    assert r[|r| - 7..] == "<tbody>";
  }

  lemma HeaderStarts(cells: string)
    ensures StartsWith("<thead><tr>" + cells + "</tr></thead><tbody>", "<thead>")
  {
    var r := "<thead><tr>" + cells + "</tr></thead><tbody>";
    assert r[..7] == "<thead>";
  }

  /** A data row renders as a `<tr>` element. */
  lemma ProcessRowShape(line: string)
    ensures StartsWith(ProcessRow(line), "<tr>")
  {
    RenderRowShape(Cells(line));
  }

  /** What one line contributes is never `</tbody>`, and its row parts are its rendered row. */
  lemma LinePartsShape(line: string, open: bool)
    ensures "</tbody>" !in LineParts(line, open)
    ensures RowParts(LineParts(line, open)) == if KindOf(line) == DataRow then [ProcessRow(line)] else []
  {
    var h, r := ProcessHeader(line), ProcessRow(line);
    ProcessHeaderShape(line);
    ProcessRowShape(line);
    PartShapes(h, r);
    match KindOf(line)
    case HeaderLine => assert LineParts(line, open) == [h];
    case DataRow =>
      if open {
        assert LineParts(line, open) == [r];
      } else {
        assert LineParts(line, open) == ["<tbody>"] + [r];
      }
    case _ => assert LineParts(line, open) == [];
  }

  /** The parts a line can contribute, told apart by their first characters. */
  lemma PartShapes(h: string, r: string)
    requires h == [] || StartsWith(h, "<thead>")
    requires StartsWith(r, "<tr>")
    ensures h != "</tbody>" && r != "</tbody>" && "<tbody>" != "</tbody>"
    ensures RowParts([h]) == [] && RowParts([r]) == [r] && RowParts(["<tbody>"] + [r]) == [r]
  {
    assert StartsWith(h, "<thead>") ==> h[1] == 't' && h[2] == 'h';
    assert r[1] == 't' && r[2] == 'r';
    assert "</tbody>"[1] == '/';
    assert "<tbody>"[2] == 'b';
    var none: seq<string> := [];
    assert [h][..0] == none && [r][..0] == none && ["<tbody>"][..0] == none;
    assert RowParts(["<tbody>"]) == [];
    RowPartsAppend(["<tbody>"], [r]);
  }

  /** No line ever contributes a `</tbody>` part of its own. */
  lemma {:induction false} BodyPartsNoClose(lines: seq<string>)
    ensures "</tbody>" !in BodyParts(lines)
    decreases |lines|
  {
    if lines != [] {
      var init := lines[..|lines| - 1];
      BodyPartsNoClose(init);
      LinePartsShape(lines[|lines| - 1], Opened(init));
    }
  }

  /** `</tbody>` is emitted exactly once when a header line or a data row was seen,
      and not at all otherwise. */
  lemma TbodyClosedOnce(lines: seq<string>)
    ensures multiset(TableParts(lines))["</tbody>"] == if Opened(lines) then 1 else 0
  {
    BodyPartsNoClose(lines);
    CloseCount(BodyParts(lines), Opened(lines));
  }

  lemma CloseCount(body: seq<string>, isOpen: bool)
    requires "</tbody>" !in body
    ensures multiset([TableOpen] + body + (if isOpen then ["</tbody>"] else []) + ["</table>"])["</tbody>"]
      == if isOpen then 1 else 0
  {
    assert multiset(body)["</tbody>"] == 0;
    assert TableOpen[1] == 't';
    assert "</table>"[3] == 'a';
  }

  /** A `<thead>` line without any `[` contributes an empty part but still sets the flag,
      so `</tbody>` closes a body that was never opened. */
  lemma HeaderWithoutCellsStillCloses(line: string)
    requires StartsWith(line, "<thead>") && '[' !in line
    ensures TableParts([line]) == [TableOpen, "", "</tbody>", "</table>"]
  {
    var hc := ReplaceAll(ReplaceAll(line, "<thead>", ""), "</thead>", "");
    ReplaceAllNoChar(line, "<thead>", "", '[');
    ReplaceAllNoChar(ReplaceAll(line, "<thead>", ""), "</thead>", "", '[');
    if Contains(hc, "[[") {
      ContainsChars(hc, "[[");
    }
    assert ProcessHeader(line) == "";
    assert [line][..0] == [];
    assert KindOf(line) == HeaderLine;
    assert Opened([line]);
    assert BodyParts([line]) == [""];
  }

  /** Parts that are table rows. */
  function RowParts(parts: seq<string>): seq<string>
    decreases |parts|
  {
    if parts == [] then []
    else
      var init := parts[..|parts| - 1];
      RowParts(init) + (if StartsWith(parts[|parts| - 1], "<tr>") then [parts[|parts| - 1]] else [])
  }

  /** The rendered data rows, one per data-row line, in input order. */
  function RenderedRows(lines: seq<string>): seq<string>
    decreases |lines|
  {
    if lines == [] then []
    else
      var init := lines[..|lines| - 1];
      var last := lines[|lines| - 1];
      RenderedRows(init) + (if KindOf(last) == DataRow then [ProcessRow(last)] else [])
  }

  lemma {:induction false} RowPartsAppend(a: seq<string>, b: seq<string>)
    ensures RowParts(a + b) == RowParts(a) + RowParts(b)
    decreases |b|
  {
    if b == [] {
      assert a + b == a;
    } else {
      var b' := b[..|b| - 1];
      assert (a + b)[..|a + b| - 1] == a + b';
      assert (a + b)[|a + b| - 1] == b[|b| - 1];
      RowPartsAppend(a, b');
    }
  }

  /** Every data-row line gives exactly one `<tr>` part, in input order; header lines,
      explicit `<tbody>`/`</tbody>` lines and other lines give none. */
  lemma {:induction false} RowsInOrder(lines: seq<string>)
    ensures RowParts(BodyParts(lines)) == RenderedRows(lines)
    decreases |lines|
  {
    if lines != [] {
      var init := lines[..|lines| - 1];
      var last := lines[|lines| - 1];
      RowsInOrder(init);
      RowPartsAppend(BodyParts(init), LineParts(last, Opened(init)));
      LinePartsShape(last, Opened(init));
    }
  }

  /** `strip(chars)` never removes a character outside `chars`: on the left ... */
  lemma {:induction false} TrimLeftKeepsCount(s: string, chars: set<char>, c: char)
    requires c !in chars
    ensures CountChar(TrimLeft(s, chars), c) == CountChar(s, c)
    decreases |s|
  {
    if s != [] && s[0] in chars {
      TrimLeftKeepsCount(s[1..], chars, c);
    }
  }

  /** ... and on the right. */
  lemma {:induction false} TrimRightKeepsCount(s: string, chars: set<char>, c: char)
    requires c !in chars
    ensures CountChar(TrimRight(s, chars), c) == CountChar(s, c)
    decreases |s|
  {
    if s != [] && s[|s| - 1] in chars {
      var init := s[..|s| - 1];
      TrimRightKeepsCount(init, chars, c);
      CountCharConcat(init, [s[|s| - 1]], c);
      assert init + [s[|s| - 1]] == s;
    }
  }

  /** A row has one cell more than it has `|` characters. */
  lemma RowCellCount(line: string)
    ensures |Cells(line)| == CountChar(line, '|') + 1
  {
    TrimLeftKeepsCount(line, {'[', ']'}, '|');
    TrimRightKeepsCount(TrimLeft(line, {'[', ']'}), {'[', ']'}, '|');
  }

  /** The rendered row starts with the row-header cell holding the first cell. */
  lemma RenderRowShape(cells: seq<string>)
    requires |cells| >= 1
    ensures StartsWith(RenderRow(cells), "<tr><td class=\"row-header\">" + cells[0] + "</td>")
    ensures EndsWith(RenderRow(cells), "</tr>")
    ensures StartsWith(RenderRow(cells), "<tr>")
  {
    var p := "<tr><td class=\"row-header\">" + cells[0] + "</td>";
    var r := RenderRow(cells);
    assert r == p + Concat(PlainCells(cells[1..])) + "</tr>";
    assert r[..|p|] == p;
    assert r[..4] == p[..4] == "<tr>";
  }

  /** Tag removal is one left-to-right pass, so it can assemble a new `<table>`:
      the body of a block is not guaranteed free of that tag. */
  lemma TagRemovalSinglePass(s: string)
    requires s == "<ta<table>ble>"
    ensures ReplaceAll(s, "<table>", "") == "<table>"
  {
    var a, b, c := "<ta", "<table>", "ble>";
    TableHalves(a, b, c);
    ReplaceAllSkip(a, b + c, b, "");
    assert StartsWith(b + c, b) && (b + c)[|b|..] == c;
    ReplaceAllAtStart(b + c, b, "");
    ReplaceAllAbsent(c, b, "");
    assert a + ([] + c) == a + c;
  }

  /** The pieces of `<ta<table>ble>`: no `<table>` starts in the first three characters,
      none in the tail, and the outer pieces join into `<table>`. */
  lemma TableHalves(a: string, b: string, c: string)
    requires a == "<ta" && b == "<table>" && c == "ble>"
    ensures a + (b + c) == "<ta<table>ble>" && a + c == b
    ensures forall i :: 0 <= i < |a| ==> !OccursAt(a + (b + c), b, i)
    ensures !Contains(c, b)
  {
    forall i | 0 <= i < |a| ensures !OccursAt(a + (b + c), b, i) {
      assert (a + (b + c))[i + 3] != b[3];
    }
  }

  // ---------------------------------------------------------------------------
  // The processors as a closed set of variants

  datatype Processor = CodeProcessor | ListProcessor | TableProcessor

  /** `processor.process(content)` */
  function Apply(p: Processor, content: string): string
  {
    match p
    case CodeProcessor => CodeProcess(content)
    case ListProcessor => ListProcess(content)
    case TableProcessor => TableHtml(content)
  }

  /** `processor.process(content)` as the program runs it: the table processor is the method. */
  method Run(p: Processor, content: string) returns (r: string)
    ensures r == Apply(p, content)
  {
    match p
    case CodeProcessor => r := CodeProcess(content);
    case ListProcessor => r := ListProcess(content);
    case TableProcessor => r := TableProcess(content);
  }

  /** The substring whose absence makes a processor return its input (lines 8, 18 and 29). */
  predicate HasTrigger(p: Processor, content: string)
  {
    match p
    case CodeProcessor => Contains(content, "<code>")
    case ListProcessor => HasListTag(content)
    case TableProcessor => Contains(content, "<table>")
  }

  /** Each processor leaves a block without its own trigger substring unchanged. */
  lemma ApplyWithoutTrigger(p: Processor, content: string)
    requires !HasTrigger(p, content)
    ensures Apply(p, content) == content
  {
  }
}
