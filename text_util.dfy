/** Python `str` operations the converter relies on, written out over `string`
    (a sequence of code points), with the properties the rest of the model uses. */
module TextUtil {

  datatype Option<+T> = None | Some(value: T)

  // ---------------------------------------------------------------------------
  // Prefixes and substrings: `s.startswith(p)`, `t in s`

  predicate StartsWith(s: string, p: string)
  {
    |p| <= |s| && s[..|p|] == p
  }

  predicate EndsWith(s: string, p: string)
  {
    |p| <= |s| && s[|s| - |p|..] == p
  }

  /** `t` occurs in `s` starting at offset `i`. */
  predicate OccursAt(s: string, t: string, i: int)
  {
    0 <= i && i + |t| <= |s| && s[i..i + |t|] == t
  }

  /** Python's `t in s` on two strings. */
  predicate Contains(s: string, t: string)
  {
    exists i | 0 <= i <= |s| - |t| :: OccursAt(s, t, i)
  }

  /** An occurrence inside a middle piece is an occurrence in the whole. */
  lemma ContainsInMiddle(a: string, b: string, c: string, t: string)
    requires Contains(b, t)
    ensures Contains(a + b + c, t)
  {
    var i :| 0 <= i <= |b| - |t| && OccursAt(b, t, i);
    var w := a + b + c;
    assert w[|a| + i..|a| + i + |t|] == b[i..i + |t|];
    assert OccursAt(w, t, |a| + i);
  }

  lemma ContainsLeft(a: string, b: string, t: string)
    requires Contains(a, t)
    ensures Contains(a + b, t)
  {
    ContainsInMiddle([], a, b, t);
    assert [] + a + b == a + b;
  }

  lemma ContainsRight(a: string, b: string, t: string)
    requires Contains(b, t)
    ensures Contains(a + b, t)
  {
    ContainsInMiddle(a, b, [], t);
    assert a + b + [] == a + b;
  }

  /** An occurrence that lies within `s[a..b]` is an occurrence in that slice. */
  lemma OccursInSlice(s: string, t: string, q: nat, a: nat, b: nat)
    requires OccursAt(s, t, q) && a <= q && q + |t| <= b <= |s|
    ensures OccursAt(s[a..b], t, q - a) && Contains(s[a..b], t)
  {
    var w := s[a..b];
    forall k | 0 <= k < |t| ensures w[q - a + k] == t[k] {
      assert w[q - a + k] == s[q + k] == s[q..q + |t|][k];
    }
    assert w[q - a..q - a + |t|] == t;
    assert OccursAt(w, t, q - a);
  }

  /** A substring's characters are characters of the whole. */
  lemma ContainsChars(s: string, t: string)
    requires Contains(s, t)
    ensures forall c :: c in t ==> c in s
  {
    var i :| 0 <= i <= |s| - |t| && OccursAt(s, t, i);
    forall c | c in t ensures c in s {
      var k :| 0 <= k < |t| && t[k] == c;
      assert s[i + k] == s[i..i + |t|][k];
    }
  }

  /** Dropping the first character keeps every occurrence that does not start at 0. */
  lemma ContainsTail(s: string, t: string)
    requires Contains(s, t) && !OccursAt(s, t, 0)
    ensures Contains(s[1..], t)
  {
    var i :| 0 <= i <= |s| - |t| && OccursAt(s, t, i);
    assert s[1..][i - 1..i - 1 + |t|] == s[i..i + |t|];
    assert OccursAt(s[1..], t, i - 1);
  }

  lemma ContainsFromTail(s: string, t: string)
    requires |s| > 0 && Contains(s[1..], t)
    ensures Contains(s, t)
  {
    var i :| 0 <= i <= |s[1..]| - |t| && OccursAt(s[1..], t, i);
    assert s[i + 1..i + 1 + |t|] == s[1..][i..i + |t|];
    assert OccursAt(s, t, i + 1);
  }

  /** Two occurrences that share no character cannot overlap. */
  lemma OccurrencesDisjoint(s: string, t: string, q: nat, d: string, a: nat)
    requires OccursAt(s, t, q) && OccursAt(s, d, a) && |t| > 0 && |d| > 0
    requires forall i :: 0 <= i < |t| ==> t[i] !in d
    ensures q + |t| <= a || a + |d| <= q
  {
    forall i | a <= i < a + |d| ensures s[i] in d {
      assert s[i] == s[a..a + |d|][i - a];
    }
    forall i | q <= i < q + |t| ensures s[i] !in d {
      assert s[i] == s[q..q + |t|][i - q];
    }
    var p := if q < a then a else q;
    var c := s[p];
  }

  /** A string wrapped in `a` and `b` starts with `a` followed by the string's own prefix,
      and ends with the string's own suffix followed by `b`. */
  lemma WrappedEnds(a: string, j: string, b: string, p: string, q: string)
    requires StartsWith(j, p) && EndsWith(j, q)
    ensures StartsWith(a + j + b, a + p) && EndsWith(a + j + b, q + b)
  {
    var w := a + j + b;
    assert w[..|a + p|] == a + j[..|p|];
    assert w[|w| - |q + b|..] == j[|j| - |q|..] + b;
  }

  // ---------------------------------------------------------------------------
  // `s.replace(pat, rep)`: leftmost, non-overlapping, one pass

  function ReplaceAll(s: string, pat: string, rep: string): string
    requires |pat| > 0
    decreases |s|
  {
    if s == [] then []
    else if StartsWith(s, pat) then rep + ReplaceAll(s[|pat|..], pat, rep)
    else [s[0]] + ReplaceAll(s[1..], pat, rep)
  }

  /** Replacing a substring that does not occur changes nothing. */
  lemma {:induction false} ReplaceAllAbsent(s: string, pat: string, rep: string)
    requires |pat| > 0 && !Contains(s, pat)
    ensures ReplaceAll(s, pat, rep) == s
  {
    if s != [] {
      assert !StartsWith(s, pat) by { if StartsWith(s, pat) { assert OccursAt(s, pat, 0); } }
      if Contains(s[1..], pat) {
        ContainsFromTail(s, pat);
      }
      ReplaceAllAbsent(s[1..], pat, rep);
    }
  }

  /** An occurrence at the start is replaced, and the pass goes on after it. */
  lemma ReplaceAllAtStart(s: string, pat: string, rep: string)
    requires |pat| > 0 && StartsWith(s, pat)
    ensures ReplaceAll(s, pat, rep) == rep + ReplaceAll(s[|pat|..], pat, rep)
  {
  }

  /** A prefix in which no occurrence of `pat` starts is copied unchanged. */
  lemma {:induction false} ReplaceAllSkip(a: string, b: string, pat: string, rep: string)
    requires |pat| > 0
    requires forall i :: 0 <= i < |a| ==> !OccursAt(a + b, pat, i)
    ensures ReplaceAll(a + b, pat, rep) == a + ReplaceAll(b, pat, rep)
    decreases |a|
  {
    var s := a + b;
    if a != [] {
      assert !OccursAt(s, pat, 0);
      assert !StartsWith(s, pat);
      assert s[1..] == a[1..] + b;
      forall i | 0 <= i < |a[1..]| ensures !OccursAt(a[1..] + b, pat, i) {
        assert !OccursAt(s, pat, i + 1);
      }
      ReplaceAllSkip(a[1..], b, pat, rep);
    } else {
      assert s == b;
    }
  }

  /** A character in neither the input nor the replacement is not in the result. */
  lemma {:induction false} ReplaceAllNoChar(s: string, pat: string, rep: string, c: char)
    requires |pat| > 0 && c !in s && c !in rep
    ensures c !in ReplaceAll(s, pat, rep)
    decreases |s|
  {
    if s != [] {
      if StartsWith(s, pat) {
        ReplaceAllNoChar(s[|pat|..], pat, rep, c);
      } else {
        ReplaceAllNoChar(s[1..], pat, rep, c);
      }
    }
  }

  /** Replacing a substring by itself changes nothing. */
  lemma {:induction false} ReplaceAllSelf(s: string, pat: string)
    requires |pat| > 0
    ensures ReplaceAll(s, pat, pat) == s
  {
    if s != [] {
      if StartsWith(s, pat) {
        ReplaceAllSelf(s[|pat|..], pat);
        assert s == s[..|pat|] + s[|pat|..];
      } else {
        ReplaceAllSelf(s[1..], pat);
        assert s == [s[0]] + s[1..];
      }
    }
  }

  // ---------------------------------------------------------------------------
  // `s.strip()`, `s.strip(chars)`

  /** The characters for which Python's `str.isspace()` holds. */
  const Whitespace: set<char> := {
    '\t', '\n', '\U{b}', '\U{c}', '\r', '\U{1c}', '\U{1d}', '\U{1e}', '\U{1f}', ' ',
    '\U{85}', '\U{a0}', '\U{1680}',
    '\U{2000}', '\U{2001}', '\U{2002}', '\U{2003}', '\U{2004}', '\U{2005}',
    '\U{2006}', '\U{2007}', '\U{2008}', '\U{2009}', '\U{200a}',
    '\U{2028}', '\U{2029}', '\U{202f}', '\U{205f}', '\U{3000}'
  }

  predicate IsSpace(c: char)
  {
    c in Whitespace
  }

  /** Removes the leading characters that belong to `chars`. */
  function TrimLeft(s: string, chars: set<char>): (r: string)
    ensures |r| <= |s| && r == s[|s| - |r|..]
    ensures r == [] || r[0] !in chars
    ensures forall i :: 0 <= i < |s| - |r| ==> s[i] in chars
    decreases |s|
  {
    if s != [] && s[0] in chars then TrimLeft(s[1..], chars) else s
  }

  /** Removes the trailing characters that belong to `chars`. */
  function TrimRight(s: string, chars: set<char>): (r: string)
    ensures |r| <= |s| && r == s[..|r|]
    ensures r == [] || r[|r| - 1] !in chars
    ensures forall i :: |r| <= i < |s| ==> s[i] in chars
    decreases |s|
  {
    if s != [] && s[|s| - 1] in chars then TrimRight(s[..|s| - 1], chars) else s
  }

  /** Python's `s.strip(chars)`. */
  function StripChars(s: string, chars: set<char>): string
  {
    TrimRight(TrimLeft(s, chars), chars)
  }

  /** Python's `s.strip()`. */
  function Strip(s: string): string
  {
    StripChars(s, Whitespace)
  }

  /** `strip()` yields the empty string exactly when every character is whitespace. */
  lemma StripEmptyIff(s: string)
    ensures Strip(s) == [] <==> forall i :: 0 <= i < |s| ==> IsSpace(s[i])
  {
    var l := TrimLeft(s, Whitespace);
    if Strip(s) == [] {
      forall i | 0 <= i < |s| ensures IsSpace(s[i]) {
        if i >= |s| - |l| {
          assert s[i] == l[i - (|s| - |l|)];
        }
      }
    } else {
      assert l[0] !in Whitespace;
    }
  }

  // ---------------------------------------------------------------------------
  // Counting, `s.split(c)`, `sep.join(parts)`, `"".join(parts)`

  function CountChar(s: string, c: char): nat
    decreases |s|
  {
    if s == [] then 0 else (if s[0] == c then 1 else 0) + CountChar(s[1..], c)
  }

  lemma {:induction false} CountCharConcat(a: string, b: string, c: char)
    ensures CountChar(a + b, c) == CountChar(a, c) + CountChar(b, c)
  {
    if a != [] {
      assert (a + b)[0] == a[0];
      assert (a + b)[1..] == a[1..] + b;
      CountCharConcat(a[1..], b, c);
    } else {
      assert a + b == b;
    }
  }

  /** Python's `s.split(c)` for a one-character separator. */
  function Split(s: string, c: char): (r: seq<string>)
    ensures |r| == CountChar(s, c) + 1
    ensures forall i :: 0 <= i < |r| ==> c !in r[i]
    decreases |s|
  {
    if s == [] then [[]]
    else if s[0] == c then [[]] + Split(s[1..], c)
    else
      var rest := Split(s[1..], c);
      [[s[0]] + rest[0]] + rest[1..]
  }

  /** The two ways `Split` consumes a first character. */
  lemma SplitCons(x: char, s: string, c: char)
    ensures x == c ==> Split([x] + s, c) == [[]] + Split(s, c)
    ensures x != c ==> Split([x] + s, c) == [[x] + Split(s, c)[0]] + Split(s, c)[1..]
  {
    assert ([x] + s)[1..] == s;
  }

  /** Python's `sep.join(parts)`. */
  function Join(parts: seq<string>, sep: string): string
    decreases |parts|
  {
    if parts == [] then []
    else if |parts| == 1 then parts[0]
    else parts[0] + sep + Join(parts[1..], sep)
  }

  /** Python's `"".join(parts)`. */
  function Concat(parts: seq<string>): string
    decreases |parts|
  {
    if parts == [] then [] else parts[0] + Concat(parts[1..])
  }

  lemma {:induction false} ConcatAppend(parts: seq<string>, last: string)
    ensures Concat(parts + [last]) == Concat(parts) + last
  {
    if parts != [] {
      assert (parts + [last])[1..] == parts[1..] + [last];
      ConcatAppend(parts[1..], last);
    }
  }

  lemma JoinHead(x: string, y: string, rest: seq<string>, sep: string)
    ensures Join([x + y] + rest, sep) == x + Join([y] + rest, sep)
  {
    if rest != [] {
      assert ([x + y] + rest)[1..] == rest;
      assert ([y] + rest)[1..] == rest;
    }
  }

  /** Splitting on `c` and joining with `sep` replaces every `c` by `sep`. */
  lemma {:induction false} JoinSplit(s: string, c: char, sep: string)
    ensures Join(Split(s, c), sep) == ReplaceAll(s, [c], sep)
  {
    if s != [] {
      var rest := Split(s[1..], c);
      JoinSplit(s[1..], c, sep);
      if s[0] == c {
        assert StartsWith(s, [c]);
        assert ([[]] + rest)[1..] == rest;
      } else {
        assert !StartsWith(s, [c]);
        JoinHead([s[0]], rest[0], rest[1..], sep);
        assert [rest[0]] + rest[1..] == rest;
      }
    }
  }

  /** `c.join(s.split(c)) == s`: splitting loses nothing. */
  lemma SplitJoinRoundTrip(s: string, c: char)
    ensures Join(Split(s, c), [c]) == s
  {
    JoinSplit(s, c, [c]);
    ReplaceAllSelf(s, [c]);
  }

  // ---------------------------------------------------------------------------
  // `str(n)` for a non-negative integer

  function DigitChar(d: nat): char
    requires d < 10
  {
    ('0' as int + d) as char
  }

  predicate IsDigit(c: char)
  {
    '0' <= c <= '9'
  }

  function NatToString(n: nat): (r: string)
    ensures |r| >= 1 && forall i :: 0 <= i < |r| ==> IsDigit(r[i])
    decreases n
  {
    if n < 10 then [DigitChar(n)] else NatToString(n / 10) + [DigitChar(n % 10)]
  }

  /** Python's `int(s)` on a string of decimal digits: the inverse of `NatToString`. */
  function ParseNat(s: string): nat
    requires forall i :: 0 <= i < |s| ==> IsDigit(s[i])
    decreases |s|
  {
    if s == [] then 0
    else
      assert IsDigit(s[|s| - 1]);
      ParseNat(s[..|s| - 1]) * 10 + (s[|s| - 1] as int - '0' as int)
  }

  lemma {:induction false} ParseNatToString(n: nat)
    ensures ParseNat(NatToString(n)) == n
    decreases n
  {
    if n >= 10 {
      var s := NatToString(n);
      assert s[..|s| - 1] == NatToString(n / 10);
      ParseNatToString(n / 10);
    }
  }

  /** Distinct numbers print as distinct strings. */
  lemma NatToStringInjective(a: nat, b: nat)
    requires a != b
    ensures NatToString(a) != NatToString(b)
  {
    ParseNatToString(a);
    ParseNatToString(b);
  }

  /** Distinct numbers behind a common prefix give distinct identifiers. */
  lemma PrefixedNatInjective(prefix: string, a: nat, b: nat)
    requires a != b
    ensures prefix + NatToString(a) != prefix + NatToString(b)
  {
    NatToStringInjective(a, b);
    assert NatToString(a) == (prefix + NatToString(a))[|prefix|..];
    assert NatToString(b) == (prefix + NatToString(b))[|prefix|..];
  }

  // ---------------------------------------------------------------------------
  // `s.lower()` (ASCII letters; see README)

  function LowerChar(c: char): char
  {
    if 'A' <= c <= 'Z' then (c as int + 32) as char else c
  }

  function Lower(s: string): (r: string)
    ensures |r| == |s|
    ensures forall i :: 0 <= i < |s| ==> r[i] == LowerChar(s[i])
    decreases |s|
  {
    if s == [] then [] else [LowerChar(s[0])] + Lower(s[1..])
  }

  /** Text without upper-case letters is its own lower-case form. */
  lemma LowerNoUpper(s: string)
    requires forall i :: 0 <= i < |s| ==> !('A' <= s[i] <= 'Z')
    ensures Lower(s) == s
  {
  }

  /** Lower-casing twice is lower-casing once. */
  lemma {:induction false} LowerIdempotent(s: string)
    ensures Lower(Lower(s)) == Lower(s)
  {
    if s != [] {
      LowerIdempotent(s[1..]);
      assert Lower(s)[1..] == Lower(s[1..]);
    }
  }

  // ---------------------------------------------------------------------------
  // `html.escape(s)` (quote=True) and its inverse on entity text

  function EscapeChar(c: char): string
  {
    if c == '&' then "&amp;"
    else if c == '<' then "&lt;"
    else if c == '>' then "&gt;"
    else if c == '"' then "&quot;"
    else if c == '\'' then "&#x27;"
    else [c]
  }

  predicate IsMarkupChar(c: char)
  {
    c == '<' || c == '>' || c == '"' || c == '\''
  }

  /** Python's `html.escape(s)`: the result holds no markup character. */
  function HtmlEscape(s: string): (r: string)
    ensures forall i :: 0 <= i < |r| ==> !IsMarkupChar(r[i])
    ensures |r| >= |s|
    decreases |s|
  {
    if s == [] then [] else EscapeChar(s[0]) + HtmlEscape(s[1..])
  }

  /** One of the five entities `html.escape` writes begins at offset `i` of `r`. */
  predicate EntityAt(r: string, i: nat)
    requires i <= |r|
  {
    StartsWith(r[i..], "&amp;") || StartsWith(r[i..], "&lt;") || StartsWith(r[i..], "&gt;")
      || StartsWith(r[i..], "&quot;") || StartsWith(r[i..], "&#x27;")
  }

  /** Every `&` of the escaped text begins an entity: none is left bare. */
  lemma {:induction false} HtmlEscapeEntities(s: string)
    ensures forall i :: 0 <= i < |HtmlEscape(s)| && HtmlEscape(s)[i] == '&' ==> EntityAt(HtmlEscape(s), i)
    decreases |s|
  {
    if s != [] {
      var e, t := EscapeChar(s[0]), HtmlEscape(s[1..]);
      HtmlEscapeEntities(s[1..]);
      assert HtmlEscape(s) == e + t;
      EscapeCharEntity(s[0], t);
      forall i | |e| <= i < |e + t| && (e + t)[i] == '&' ensures EntityAt(e + t, i) {
        assert (e + t)[i..] == t[i - |e|..];
        assert t[i - |e|] == '&';
      }
    }
  }

  /** Within one escaped character, a `&` can only be the first character, and it begins
      an entity whatever follows. */
  lemma EscapeCharEntity(c: char, t: string)
    ensures forall i :: 0 <= i < |EscapeChar(c)| && EscapeChar(c)[i] == '&' ==> EntityAt(EscapeChar(c) + t, i)
  {
    var e := EscapeChar(c);
    var r := e + t;
    assert r[0..] == r && r[..|e|] == e;
  }

  /** Decodes the five entities `HtmlEscape` produces (a reference inverse, not part of the program). */
  function HtmlUnescape(s: string): string
    decreases |s|
  {
    if s == [] then []
    else if StartsWith(s, "&amp;") then "&" + HtmlUnescape(s[5..])
    else if StartsWith(s, "&lt;") then "<" + HtmlUnescape(s[4..])
    else if StartsWith(s, "&gt;") then ">" + HtmlUnescape(s[4..])
    else if StartsWith(s, "&quot;") then "\"" + HtmlUnescape(s[6..])
    else if StartsWith(s, "&#x27;") then "'" + HtmlUnescape(s[6..])
    else [s[0]] + HtmlUnescape(s[1..])
  }

  /** A text whose character at `i` differs from the pattern's does not start with it. */
  lemma NotStartsWithAt(s: string, p: string, i: nat)
    requires i < |p| && i < |s| && s[i] != p[i]
    ensures !StartsWith(s, p)
  {
    if |p| <= |s| {
      assert s[..|p|][i] == s[i];
    }
  }

  /** A pattern does not occur at `j` when one of its characters differs from the text's. */
  lemma NotOccursAtChar(s: string, t: string, j: nat, k: nat)
    requires k < |t| && j + k < |s| && s[j + k] != t[k]
    ensures !OccursAt(s, t, j)
  {
    if j + |t| <= |s| {
      assert s[j..j + |t|][k] == s[j + k];
    }
  }

  /** One escaped entity followed by `rest` decodes to its character. */
  lemma UnescapeEntity(c: char, rest: string)
    requires c == '&' || IsMarkupChar(c)
    ensures HtmlUnescape(EscapeChar(c) + rest) == [c] + HtmlUnescape(rest)
  {
    var x := EscapeChar(c);
    var e := x + rest;
    assert StartsWith(e, x) by { assert e[..|x|] == x; }
    assert e[|x|..] == rest;
    if c != '&' {
      NotStartsWithAt(e, "&amp;", 1);
      if c != '<' {
        NotStartsWithAt(e, "&lt;", 1);
        if c != '>' {
          NotStartsWithAt(e, "&gt;", 1);
          if c != '"' {
            NotStartsWithAt(e, "&quot;", 1);
          }
        }
      }
    }
  }

  /** A character that needs no escaping decodes to itself. */
  lemma UnescapeStep(c: char, rest: string)
    ensures HtmlUnescape(EscapeChar(c) + rest) == [c] + HtmlUnescape(rest)
  {
    if c == '&' || IsMarkupChar(c) {
      UnescapeEntity(c, rest);
    } else {
      var e := [c] + rest;
      assert EscapeChar(c) == [c];
      assert e[0] == c && e[1..] == rest;
      NotStartsWithAt(e, "&amp;", 0);
      NotStartsWithAt(e, "&lt;", 0);
      NotStartsWithAt(e, "&gt;", 0);
      NotStartsWithAt(e, "&quot;", 0);
      NotStartsWithAt(e, "&#x27;", 0);
    }
  }

  /** Escaping works character by character, so it distributes over concatenation. */
  lemma {:induction false} HtmlEscapeConcat(a: string, b: string)
    ensures HtmlEscape(a + b) == HtmlEscape(a) + HtmlEscape(b)
    decreases |a|
  {
    if a == [] {
      assert a + b == b;
    } else {
      assert (a + b)[0] == a[0] && (a + b)[1..] == a[1..] + b;
      HtmlEscapeConcat(a[1..], b);
      var e := EscapeChar(a[0]);
      assert e + (HtmlEscape(a[1..]) + HtmlEscape(b)) == (e + HtmlEscape(a[1..])) + HtmlEscape(b);
    }
  }

  /** Text without `&` and markup characters is left as it is. */
  lemma {:induction false} HtmlEscapePlain(s: string)
    requires forall i :: 0 <= i < |s| ==> s[i] != '&' && !IsMarkupChar(s[i])
    ensures HtmlEscape(s) == s
    decreases |s|
  {
    if s != [] {
      HtmlEscapePlain(s[1..]);
      assert EscapeChar(s[0]) == [s[0]];
      assert s == [s[0]] + s[1..];
    }
  }

  /** Escaping loses nothing: unescaping gives the original text back. */
  lemma {:induction false} UnescapeEscape(s: string)
    ensures HtmlUnescape(HtmlEscape(s)) == s
  {
    if s != [] {
      UnescapeStep(s[0], HtmlEscape(s[1..]));
      UnescapeEscape(s[1..]);
    }
  }
}
