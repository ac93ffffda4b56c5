/**
 * The string primitives the sign-in client relies on, with Python's meaning:
 * `str.strip()` with no argument, `str.split('#')`, the empty-after-strip test
 * used on response bodies, and `str(n)` for integers.
 */
module Text {

  /** Python's `str.isspace()` for one character: the characters whose
      bidirectional class is WS, B or S, or whose category is Zs. */
  predicate IsSpace(c: char) {
    ('\t' <= c <= '\r') || ('\U{1C}' <= c <= ' ')
    || c == '\U{85}' || c == '\U{A0}' || c == '\U{1680}'
    || ('\U{2000}' <= c <= '\U{200A}') || c == '\U{2028}' || c == '\U{2029}'
    || c == '\U{202F}' || c == '\U{205F}' || c == '\U{3000}'
  }

  /** Unicode general category Zs (space separator). */
  predicate SpaceSeparator(c: char) {
    c == ' ' || c == '\U{A0}' || c == '\U{1680}' || ('\U{2000}' <= c <= '\U{200A}')
    || c == '\U{202F}' || c == '\U{205F}' || c == '\U{3000}'
  }

  /** Unicode bidirectional class B (paragraph separator). */
  predicate BidiParagraph(c: char) {
    c == '\n' || c == '\r' || ('\U{1C}' <= c <= '\U{1E}') || c == '\U{85}' || c == '\U{2029}'
  }

  /** Unicode bidirectional class S (segment separator). */
  predicate BidiSegment(c: char) {
    c == '\t' || c == '\U{B}' || c == '\U{1F}'
  }

  /** Unicode bidirectional class WS (whitespace). */
  predicate BidiWhitespace(c: char) {
    c == '\U{C}' || c == ' ' || c == '\U{1680}' || ('\U{2000}' <= c <= '\U{200A}')
    || c == '\U{2028}' || c == '\U{205F}' || c == '\U{3000}'
  }

  /** `IsSpace` is Python's definition of whitespace: category Zs, or
      bidirectional class WS, B or S. */
  lemma IsSpaceByClass(c: char)
    ensures IsSpace(c) <==>
      SpaceSeparator(c) || BidiWhitespace(c) || BidiParagraph(c) || BidiSegment(c)
  {
  }

  /** Every character of `s` is whitespace (true of the empty string). */
  predicate AllSpace(s: string) {
    forall k :: 0 <= k < |s| ==> IsSpace(s[k])
  }

  /** `s.lstrip()`: drops whitespace from the front of `s`. */
  function StripLeft(s: string): (r: string)
    ensures |r| <= |s|
  {
    if |s| > 0 && IsSpace(s[0]) then StripLeft(s[1..]) else s
  }

  /** `s.rstrip()`: drops whitespace from the end of `s`. */
  function StripRight(s: string): (r: string)
    ensures |r| <= |s|
  {
    if |s| > 0 && IsSpace(s[|s| - 1]) then StripRight(s[..|s| - 1]) else s
  }

  /** `lstrip` keeps the longest suffix of `s` that does not start with
      whitespace: what it drops is all whitespace. */
  lemma {:induction false} StripLeftShape(s: string)
    ensures var r := StripLeft(s);
      && r == s[|s| - |r|..] && (r == [] || !IsSpace(r[0]))
      && AllSpace(s[..|s| - |r|])
  {
    if |s| > 0 && IsSpace(s[0]) {
      var t := StripLeft(s[1..]);
      StripLeftShape(s[1..]);
      var n := |s| - |t|;
      assert s[1..][n - 1..] == s[n..];
      forall k | 0 <= k < n ensures IsSpace(s[..n][k]) {
        if k == 0 {
          assert s[..n][k] == s[0];
        } else {
          assert s[..n][k] == s[1..][..n - 1][k - 1];
        }
      }
    } else {
      assert s[..0] == [];
    }
  }

  /** `rstrip` keeps the longest prefix of `s` that does not end with
      whitespace: what it drops is all whitespace. */
  lemma {:induction false} StripRightShape(s: string)
    ensures var r := StripRight(s);
      && r == s[..|r|] && (r == [] || !IsSpace(r[|r| - 1]))
      && AllSpace(s[|r|..])
  {
    if |s| > 0 && IsSpace(s[|s| - 1]) {
      var t := StripRight(s[..|s| - 1]);
      StripRightShape(s[..|s| - 1]);
      var m := |s| - 1;
      forall k | 0 <= k < |s| - |t| ensures IsSpace(s[|t|..][k]) {
        if k == m - |t| {
          assert s[|t|..][k] == s[m];
        } else {
          assert s[|t|..][k] == s[..m][|t|..][k];
        }
      }
    } else {
      assert s[|s|..] == [];
    }
  }

  /** `s.strip()`: whitespace at neither end of the result. */
  function Strip(s: string): (r: string)
    ensures |r| <= |s|
    ensures r == [] || (!IsSpace(r[0]) && !IsSpace(r[|r| - 1]))
  {
    var l := StripLeft(s);
    var r := StripRight(l);
    StripLeftShape(s);
    StripRightShape(l);
    assert r != [] ==> r[0] == l[0];
    r
  }

  /** Stripping keeps a slice of `s` and removes only whitespace around it:
      the slice starts after the leading whitespace. */
  lemma StripShape(s: string)
    ensures var r := Strip(s); var i := |s| - |StripLeft(s)|;
      && i + |r| <= |s| && s[i..i + |r|] == r
      && AllSpace(s[..i]) && AllSpace(s[i + |r|..])
  {
    var l := StripLeft(s);
    var r := StripRight(l);
    StripLeftShape(s);
    StripRightShape(l);
    SuffixPrefix(s, l, r);
  }

  /** A prefix `r` of a suffix `l` of `s` is a slice of `s`, and what follows
      it in `l` is what follows it in `s`. */
  lemma SuffixPrefix(s: string, l: string, r: string)
    requires |l| <= |s| && l == s[|s| - |l|..]
    requires |r| <= |l| && r == l[..|r|]
    ensures var i := |s| - |l|; s[i..i + |r|] == r && s[i + |r|..] == l[|r|..]
  {
  }

  /** `not s.strip()` — the body test of the transport — holds exactly when
      every character of `s` is whitespace. */
  lemma StripEmptyIffAllSpace(s: string)
    ensures Strip(s) == [] <==> AllSpace(s)
  {
    var l := StripLeft(s);
    var r := StripRight(l);
    StripLeftShape(s);
    StripRightShape(l);
    if r == [] {
      assert l[|r|..] == l;
      assert s[..|s|] == s;
    }
  }

  /** Stripping twice is stripping once. */
  lemma StripIdempotent(s: string)
    ensures Strip(Strip(s)) == Strip(s)
  {
    var r := Strip(s);
    assert StripLeft(r) == r;
  }

  /** The position of the first `c` in `s`. */
  function IndexOf(s: string, c: char): (i: nat)
    requires c in s
    ensures i < |s| && s[i] == c && c !in s[..i]
  {
    if s[0] == c then 0 else
      var j := IndexOf(s[1..], c);
      assert s[..j + 1] == [s[0]] + s[1..][..j];
      j + 1
  }

  /** Any position holding the first `c` is the one `IndexOf` finds. */
  lemma {:induction false} IndexOfFirst(s: string, c: char, i: nat)
    requires i < |s| && s[i] == c && c !in s[..i]
    ensures IndexOf(s, c) == i
  {
    if i > 0 {
      assert s[0] == s[..i][0];
      assert s[1..][..i - 1] == s[..i][1..];
      IndexOfFirst(s[1..], c, i - 1);
    }
  }

  /** Python's `s.split(sep)` for a one-character separator: the pieces between
      separators, at least one (the empty string gives `[""]`). */
  function Split(s: string, sep: char): (pieces: seq<string>)
    ensures |pieces| >= 1
    ensures forall k :: 0 <= k < |pieces| ==> sep !in pieces[k]
    decreases |s|
  {
    if sep !in s then [s]
    else
      var i := IndexOf(s, sep);
      [s[..i]] + Split(s[i + 1..], sep)
  }

  /** `sep.join(pieces)`, the inverse of `Split`. */
  function Join(pieces: seq<string>, sep: char): string
    requires |pieces| >= 1
  {
    if |pieces| == 1 then pieces[0]
    else pieces[0] + [sep] + Join(pieces[1..], sep)
  }

  /** Splitting loses nothing: joining the pieces back gives the input. */
  lemma {:induction false} JoinSplit(s: string, sep: char)
    ensures Join(Split(s, sep), sep) == s
    decreases |s|
  {
    if sep in s {
      var i := IndexOf(s, sep);
      JoinSplit(s[i + 1..], sep);
      assert s == s[..i] + [sep] + s[i + 1..];
    }
  }

  /** Splitting a join of separator-free pieces gives the pieces back. */
  lemma {:induction false} SplitJoin(pieces: seq<string>, sep: char)
    requires |pieces| >= 1
    requires forall k :: 0 <= k < |pieces| ==> sep !in pieces[k]
    ensures Split(Join(pieces, sep), sep) == pieces
  {
    if |pieces| > 1 {
      var head, rest := pieces[0], pieces[1..];
      var tail := Join(rest, sep);
      var s := head + [sep] + tail;
      assert s == Join(pieces, sep);
      var i := |head|;
      assert s[i] == sep;
      assert s[..i] == head;
      IndexOfFirst(s, sep, i);
      assert s[i + 1..] == tail;
      assert Split(s, sep) == [head] + Split(tail, sep);
      assert forall k :: 0 <= k < |rest| ==> sep !in rest[k] by {
        forall k | 0 <= k < |rest| ensures sep !in rest[k] {
          assert rest[k] == pieces[k + 1];
        }
      }
      SplitJoin(rest, sep);
      assert pieces == [head] + rest;
    }
  }

  /** The decimal digit for `d`. */
  function Digit(d: nat): char
    requires d < 10
  {
    "0123456789"[d]
  }

  predicate IsDigit(c: char) {
    '0' <= c <= '9'
  }

  /** Python's `str(n)` for a natural number: decimal, no leading zeros. */
  function NatToString(n: nat): (s: string)
    ensures |s| >= 1
    ensures forall k :: 0 <= k < |s| ==> IsDigit(s[k])
    ensures |s| > 1 ==> s[0] != '0'
  {
    if n < 10 then [Digit(n)] else NatToString(n / 10) + [Digit(n % 10)]
  }

  /** Python's `str(i)` for an integer. */
  function IntToString(i: int): (s: string)
    ensures |s| >= 1 && (s[0] == '-' <==> i < 0)
  {
    if i < 0 then "-" + NatToString(-i) else NatToString(i)
  }

  /** The value of a string of decimal digits (Python's `int(s)` on such strings). */
  function ParseNat(s: string): nat
    requires forall k :: 0 <= k < |s| ==> IsDigit(s[k])
  {
    if s == [] then 0
    else
      var last := s[|s| - 1];
      assert IsDigit(last);
      ParseNat(s[..|s| - 1]) * 10 + (last as int - '0' as int)
  }

  /** Reading back the decimal rendering of `n` gives `n`. */
  lemma {:induction false} ParseNatToString(n: nat)
    ensures ParseNat(NatToString(n)) == n
  {
    var s := NatToString(n);
    if n >= 10 {
      ParseNatToString(n / 10);
      assert s[..|s| - 1] == NatToString(n / 10);
    }
  }

  /** Different numbers have different renderings. */
  lemma NatToStringInjective(a: nat, b: nat)
    requires NatToString(a) == NatToString(b)
    ensures a == b
  {
    ParseNatToString(a);
    ParseNatToString(b);
  }
}
