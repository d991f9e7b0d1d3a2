/**
  The operations of Python's `str` that the record normaliser relies on:
  `lstrip`/`rstrip` with a character set, `strip()`, single-character
  `replace`, `split` on a separator and `str` of a natural number.
 */
module Text {
  import opened Wrappers

  /** Python's `str.isspace()` for one character. */
  predicate IsSpace(c: char)
  {
    || ('\t' <= c <= '\r')
    || ('\U{1C}' <= c <= '\U{1F}')
    || c == ' ' || c == '\U{85}' || c == '\U{A0}' || c == '\U{1680}'
    || ('\U{2000}' <= c <= '\U{200A}')
    || c == '\U{2028}' || c == '\U{2029}' || c == '\U{202F}' || c == '\U{205F}' || c == '\U{3000}'
  }

  predicate IsOpenBrace(c: char) { c == '{' }

  predicate IsCloseBrace(c: char) { c == '}' }

  /** `s.lstrip(chars)`: drops every leading character in the set `drop`. */
  function LStrip(s: string, drop: char -> bool): (r: string)
    ensures |r| <= |s|
    ensures r == [] || !drop(r[0])
    decreases |s|
  {
    if s != [] && drop(s[0]) then LStrip(s[1..], drop) else s
  }

  /** What `LStrip` removes: a run of `drop` characters; the result is the rest. */
  lemma {:induction false} LStripShape(s: string, drop: char -> bool)
    ensures var r := LStrip(s, drop);
            r == s[|s| - |r|..] && forall k :: 0 <= k < |s| - |r| ==> drop(s[k])
    decreases |s|
  {
    if s != [] && drop(s[0]) {
      LStripShape(s[1..], drop);
    }
  }

  /** `s.rstrip(chars)`: drops every trailing character in the set `drop`. */
  function RStrip(s: string, drop: char -> bool): (r: string)
    ensures |r| <= |s|
    ensures r == [] || !drop(r[|r| - 1])
    decreases |s|
  {
    if s != [] && drop(s[|s| - 1]) then RStrip(s[..|s| - 1], drop) else s
  }

  /** What `RStrip` removes: a run of `drop` characters; the result is what precedes it. */
  lemma {:induction false} RStripShape(s: string, drop: char -> bool)
    ensures var r := RStrip(s, drop);
            r == s[..|r|] && forall k :: |r| <= k < |s| ==> drop(s[k])
    decreases |s|
  {
    if s != [] && drop(s[|s| - 1]) {
      RStripShape(s[..|s| - 1], drop);
    }
  }

  /** `s.strip()`: whitespace removed from both ends. */
  function Strip(s: string): (r: string)
    ensures r == [] || (!IsSpace(r[0]) && !IsSpace(r[|r| - 1]))
  {
    StripBoth(s, IsSpace, IsSpace)
  }

  lemma StripKeeps(s: string)
    requires s == [] || (!IsSpace(s[0]) && !IsSpace(s[|s| - 1]))
    ensures Strip(s) == s
  {
    LStripStops(s, IsSpace);
    RStripStops(s, IsSpace);
  }

  /** Stripping twice is stripping once. */
  lemma StripIdempotent(s: string)
    ensures Strip(Strip(s)) == Strip(s)
  {
    StripKeeps(Strip(s));
  }

  /** `s.lstrip(lead).rstrip(trail)`: both ends stripped, each with its own set. */
  function StripBoth(s: string, lead: char -> bool, trail: char -> bool): (r: string)
    ensures r == [] || (!lead(r[0]) && !trail(r[|r| - 1]))
  {
    var l := LStrip(s, lead);
    var r := RStrip(l, trail);
    RStripShape(l, trail);
    assert r != [] ==> r[0] == l[0];
    r
  }

  /**
    What `StripBoth` removes: a run of `lead` characters in front and a run
    of `trail` characters behind; the result is the piece of `s` between.
   */
  lemma StripBothShape(s: string, lead: char -> bool, trail: char -> bool)
    ensures var a := |s| - |LStrip(s, lead)|; var r := StripBoth(s, lead, trail);
            a + |r| <= |s| && r == s[a..a + |r|]
            && (forall k :: 0 <= k < a ==> lead(s[k]))
            && (forall k :: a + |r| <= k < |s| ==> trail(s[k]))
  {
    var l := LStrip(s, lead);
    var r := RStrip(l, trail);
    LStripShape(s, lead);
    RStripShape(l, trail);
    var a := |s| - |l|;
    assert l == s[a..];
    assert r == l[..|r|];
    assert r == s[a..a + |r|];
    forall k | a + |r| <= k < |s|
      ensures trail(s[k])
    {
      assert s[k] == l[k - a];
    }
  }

  /** `s.lstrip('{').rstrip('}')`: every leading `{`, then every trailing `}`, removed. */
  function StripBraces(s: string): (r: string)
    ensures r == [] || (r[0] != '{' && r[|r| - 1] != '}')
  {
    StripBoth(s, IsOpenBrace, IsCloseBrace)
  }

  lemma LStripStops(s: string, drop: char -> bool)
    requires s == [] || !drop(s[0])
    ensures LStrip(s, drop) == s
  {
  }

  lemma RStripStops(s: string, drop: char -> bool)
    requires s == [] || !drop(s[|s| - 1])
    ensures RStrip(s, drop) == s
  {
  }

  /** A value without an outer brace is left alone. */
  lemma StripBracesKeeps(s: string)
    requires s == [] || (s[0] != '{' && s[|s| - 1] != '}')
    ensures StripBraces(s) == s
  {
    LStripStops(s, IsOpenBrace);
    RStripStops(s, IsCloseBrace);
  }

  lemma OpenBraceStripped(s: string)
    requires s == [] || s[0] != '{'
    ensures LStrip("{" + s + "}", IsOpenBrace) == s + "}"
  {
    var u := s + "}";
    assert "{" + s + "}" == "{" + u;
    assert ("{" + u)[1..] == u;
    LStripStops(u, IsOpenBrace);
  }

  lemma CloseBraceStripped(s: string)
    requires s == [] || s[|s| - 1] != '}'
    ensures RStrip(s + "}", IsCloseBrace) == s
  {
    assert (s + "}")[..|s|] == s;
    RStripStops(s, IsCloseBrace);
  }

  /** The outer pair of braces of a braced value is removed. */
  lemma StripBracesOuterPair(s: string)
    requires s == [] || (s[0] != '{' && s[|s| - 1] != '}')
    ensures StripBraces("{" + s + "}") == s
  {
    OpenBraceStripped(s);
    CloseBraceStripped(s);
  }

  /** `s.replace(c, t)` for a one-character `c`. */
  function Replace(s: string, c: char, t: string): (r: string)
    ensures c !in t ==> c !in r
    ensures forall d :: d in r ==> d in t || (d in s && d != c)
    decreases |s|
  {
    if s == [] then [] else (if s[0] == c then t else [s[0]]) + Replace(s[1..], c, t)
  }

  lemma {:induction false} ReplaceAppend(a: string, b: string, c: char, t: string)
    ensures Replace(a + b, c, t) == Replace(a, c, t) + Replace(b, c, t)
    decreases |a|
  {
    if a != [] {
      var h := if a[0] == c then t else [a[0]];
      assert (a + b)[0] == a[0];
      assert (a + b)[1..] == a[1..] + b;
      assert Replace(a + b, c, t) == h + Replace(a[1..] + b, c, t);
      ReplaceAppend(a[1..], b, c, t);
      assert (h + Replace(a[1..], c, t)) + Replace(b, c, t) == h + (Replace(a[1..], c, t) + Replace(b, c, t));
    } else {
      assert a + b == b;
    }
  }

  lemma ReplaceSingle(d: char, c: char, t: string)
    ensures Replace([d], c, t) == if d == c then t else [d]
  {
    assert [d][1..] == [];
  }

  /** Replacing a character that does not occur changes nothing. */
  lemma {:induction false} ReplaceAbsent(s: string, c: char, t: string)
    requires c !in s
    ensures Replace(s, c, t) == s
    decreases |s|
  {
    if s != [] {
      assert s == [s[0]] + s[1..];
      ReplaceAbsent(s[1..], c, t);
    }
  }

  /** `sep` occurs in `s` at position `j`. */
  predicate OccursAt(s: string, sep: string, j: int)
  {
    0 <= j && j + |sep| <= |s| && s[j..j + |sep|] == sep
  }

  ghost predicate Contains(s: string, sep: string)
  {
    exists j :: OccursAt(s, sep, j)
  }

  /** `s.find(sep)`: the leftmost occurrence of `sep`, if any. */
  function Find(s: string, sep: string): (r: Option<nat>)
    ensures r.Some? ==> OccursAt(s, sep, r.value)
    ensures forall j :: 0 <= j && (r.None? || j < r.value) ==> !OccursAt(s, sep, j)
    decreases |s|
  {
    if |s| < |sep| then None
    else if s[..|sep|] == sep then Some(0)
    else
      FindShift(s, sep);
      match Find(s[1..], sep)
      case None => None
      case Some(i) => Some(i + 1)
  }

  /** Occurrences in `s[1..]` are the occurrences in `s` after position 0. */
  lemma FindShift(s: string, sep: string)
    requires s != []
    ensures forall j :: 1 <= j ==> (OccursAt(s, sep, j) <==> OccursAt(s[1..], sep, j - 1))
  {
    forall j | 1 <= j
      ensures OccursAt(s, sep, j) <==> OccursAt(s[1..], sep, j - 1)
    {
      if j + |sep| <= |s| {
        var a, b := s[j..j + |sep|], s[1..][j - 1..j - 1 + |sep|];
        forall i | 0 <= i < |sep|
          ensures a[i] == b[i]
        {
        }
        assert a == b;
      }
    }
  }

  /** `sep` joined between the pieces: the inverse of `Split`. */
  function Join(pieces: seq<string>, sep: string): string
    requires |pieces| >= 1
    decreases |pieces|
  {
    if |pieces| == 1 then pieces[0] else pieces[0] + sep + Join(pieces[1..], sep)
  }

  /** Every character of a piece is a character of the joined string. */
  lemma {:induction false} JoinKeepsChars(pieces: seq<string>, sep: string, k: nat, c: char)
    requires k < |pieces| && c in pieces[k]
    ensures c in Join(pieces, sep)
    decreases |pieces|
  {
    if |pieces| > 1 && k > 0 {
      JoinKeepsChars(pieces[1..], sep, k - 1, c);
    }
  }

  /** A prefix that ends before the first occurrence of `sep` does not contain `sep`. */
  lemma PrefixWithout(s: string, sep: string, i: nat)
    requires sep != [] && i <= |s|
    requires forall j :: 0 <= j < i ==> !OccursAt(s, sep, j)
    ensures !Contains(s[..i], sep)
  {
    forall j | OccursAt(s[..i], sep, j)
      ensures false
    {
      assert s[..i][j..j + |sep|] == s[j..j + |sep|];
      assert OccursAt(s, sep, j);
    }
  }

  /**
    `s.split(sep)`: the pieces between the leftmost non-overlapping
    occurrences of `sep`. Joining them back gives `s`, no piece contains
    `sep`, and the first cut is at the leftmost occurrence.
   */
  function Split(s: string, sep: string): (r: seq<string>)
    requires sep != []
    ensures |r| >= 1 && Join(r, sep) == s
    ensures forall k :: 0 <= k < |r| ==> !Contains(r[k], sep)
    ensures forall j :: 0 <= j < |r[0]| ==> !OccursAt(s, sep, j)
    ensures forall k :: 0 <= k < |r| - 1 ==> LeftmostCut(r[k], sep)
    decreases |s|
  {
    match Find(s, sep)
    case None =>
      PrefixWithout(s, sep, |s|);
      assert s[..|s|] == s;
      [s]
    case Some(i) =>
      PrefixWithout(s, sep, i);
      var rest := Split(s[i + |sep|..], sep);
      var r := [s[..i]] + rest;
      assert r[1..] == rest;
      assert s == s[..i] + sep + s[i + |sep|..];
      CutAtFirst(s, sep, i);
      r
  }

  /** Cutting `piece` off in front of `sep` cut at the leftmost occurrence of `sep` in `piece + sep`. */
  predicate LeftmostCut(piece: string, sep: string)
  {
    forall j :: 0 <= j < |piece| ==> !OccursAt(piece + sep, sep, j)
  }

  lemma CutAtFirst(s: string, sep: string, i: nat)
    requires i + |sep| <= |s| && s[i..i + |sep|] == sep
    requires forall j :: 0 <= j < i ==> !OccursAt(s, sep, j)
    ensures LeftmostCut(s[..i], sep)
  {
    var t := s[..i] + sep;
    assert t == s[..i + |sep|];
    forall j | 0 <= j < i && OccursAt(t, sep, j)
      ensures false
    {
      assert t[j..j + |sep|] == s[j..j + |sep|];
      assert OccursAt(s, sep, j);
    }
  }

  function DigitChar(d: nat): char
    requires d < 10
  {
    (d + '0' as int) as char
  }

  /** `str(n)`: the decimal digits of `n`, without leading zeros. */
  function Decimal(n: nat): (s: string)
    ensures |s| >= 1
    ensures n >= 10 ==> |s| >= 2
    decreases n
  {
    if n < 10 then [DigitChar(n)] else Decimal(n / 10) + [DigitChar(n % 10)]
  }

  /** `str(n)` is made of digits, and begins with `0` only for zero itself. */
  lemma {:induction false} DecimalDigits(n: nat)
    ensures forall k :: 0 <= k < |Decimal(n)| ==> '0' <= Decimal(n)[k] <= '9'
    ensures Decimal(n)[0] == '0' <==> n == 0
    decreases n
  {
    if n >= 10 {
      DecimalDigits(n / 10);
      assert Decimal(n)[0] == Decimal(n / 10)[0];
    }
  }

  /** Different numbers have different decimal representations. */
  lemma {:induction false} DecimalInjective(a: nat, b: nat)
    requires Decimal(a) == Decimal(b)
    ensures a == b
    decreases a
  {
    if a >= 10 && b >= 10 {
      var da, db := Decimal(a), Decimal(b);
      assert da[|da| - 1] == DigitChar(a % 10);
      assert db[|db| - 1] == DigitChar(b % 10);
      assert da[..|da| - 1] == Decimal(a / 10);
      assert db[..|db| - 1] == Decimal(b / 10);
      DecimalInjective(a / 10, b / 10);
    } else if a < 10 && b < 10 {
      assert Decimal(a)[0] == DigitChar(a);
      assert Decimal(b)[0] == DigitChar(b);
    }
  }
}
