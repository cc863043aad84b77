/**
 * The JavaScript string operations the blog uses, on `seq<char>`:
 * `startsWith`, `endsWith`, `includes`, `indexOf`, `replace` with a string
 * pattern (first occurrence only), `toLowerCase` (ASCII letters only),
 * `Array.prototype.join`, `String.prototype.split` with a one-character
 * separator, and the decimal rendering of a natural number.
 */
module Text {

  function StartsWith(s: string, prefix: string): bool {
    |prefix| <= |s| && s[..|prefix|] == prefix
  }

  function EndsWith(s: string, suffix: string): bool {
    |suffix| <= |s| && s[|s| - |suffix|..] == suffix
  }

  /** `t` occurs in `s` at position `i`. */
  predicate OccursAt(s: string, t: string, i: int) {
    0 <= i && i + |t| <= |s| && s[i..i + |t|] == t
  }

  /** An occurrence in `s[1..]` is an occurrence in `s` one position later. */
  lemma OccursAfterFirst(s: string, t: string)
    requires |s| > 0
    ensures forall j :: 0 <= j ==> (OccursAt(s[1..], t, j) <==> OccursAt(s, t, j + 1))
  {
    forall j | 0 <= j
      ensures OccursAt(s[1..], t, j) <==> OccursAt(s, t, j + 1)
    {
      if 0 <= j && j + 1 + |t| <= |s| {
        assert s[1..][j..j + |t|] == s[j + 1..j + 1 + |t|];
      }
    }
  }

  /** `s.indexOf(t)`: the first position where `t` occurs in `s`, or -1. */
  function IndexOf(s: string, t: string): (i: int)
    ensures i >= -1
    ensures i >= 0 ==> OccursAt(s, t, i)
    ensures i >= 0 ==> forall j :: 0 <= j < i ==> !OccursAt(s, t, j)
    ensures i < 0 ==> forall j :: !OccursAt(s, t, j)
    decreases |s|
  {
    if StartsWith(s, t) then
      0
    else if |s| == 0 then
      -1
    else
      var k := IndexOf(s[1..], t);
      OccursAfterFirst(s, t);
      assert forall j :: j <= 0 ==> !OccursAt(s, t, j);
      assert forall j :: OccursAt(s, t, j) ==> OccursAt(s[1..], t, j - 1);
      if k < 0 then -1 else k + 1
  }

  /** `s.includes(t)`: some position of `s` starts an occurrence of `t`. */
  function Contains(s: string, t: string): (b: bool)
    ensures b <==> exists i :: OccursAt(s, t, i)
  {
    IndexOf(s, t) >= 0
  }

  /** An occurrence of `t` in `s` is still one when text is added around `s`. */
  lemma ContainsWithin(before: string, s: string, after: string, t: string)
    requires Contains(s, t)
    ensures Contains(before + s + after, t)
  {
    var i :| OccursAt(s, t, i);
    assert (before + s + after)[|before| + i..|before| + i + |t|] == s[i..i + |t|];
    assert OccursAt(before + s + after, t, |before| + i);
  }

  /** Every part of a join occurs in the joined string. */
  lemma {:induction false} JoinContainsPart(parts: seq<string>, sep: string, j: int)
    requires 0 <= j < |parts|
    ensures Contains(Join(parts, sep), parts[j])
    decreases |parts|
  {
    if |parts| == 1 || j == 0 {
      assert OccursAt(parts[0], parts[0], 0);
      var rest := if |parts| == 1 then "" else sep + Join(parts[1..], sep);
      assert Join(parts, sep) == "" + parts[0] + rest;
      ContainsWithin("", parts[0], rest, parts[0]);
    } else {
      JoinContainsPart(parts[1..], sep, j - 1);
      assert Join(parts, sep) == parts[0] + sep + Join(parts[1..], sep) + "";
      ContainsWithin(parts[0] + sep, Join(parts[1..], sep), "", parts[j]);
    }
  }

  /** `s.replace(pattern, replacement)` with a string pattern: only the first occurrence is replaced. */
  function ReplaceFirst(s: string, pattern: string, replacement: string): (r: string)
    ensures IndexOf(s, pattern) < 0 ==> r == s
    ensures StartsWith(s, pattern) ==> r == replacement + s[|pattern|..]
  {
    var i := IndexOf(s, pattern);
    if i < 0 then s else s[..i] + replacement + s[i + |pattern|..]
  }

  function LowerChar(c: char): (d: char)
    ensures 'A' <= c <= 'Z' ==> d as int == c as int + 32
    ensures !('A' <= c <= 'Z') ==> d == c
  {
    if 'A' <= c <= 'Z' then (c as int + 32) as char else c
  }

  /** `s.toLowerCase()`, restricted to the ASCII letters. */
  function Lower(s: string): (r: string)
    ensures |r| == |s|
    ensures forall i :: 0 <= i < |s| ==> r[i] == LowerChar(s[i])
  {
    seq(|s|, i requires 0 <= i < |s| => LowerChar(s[i]))
  }

  /** `parts.join(sep)`. */
  function Join(parts: seq<string>, sep: string): string
    decreases |parts|
  {
    if |parts| == 0 then ""
    else if |parts| == 1 then parts[0]
    else parts[0] + sep + Join(parts[1..], sep)
  }

  /** `s.split(sep)` for a one-character separator: always at least one piece. */
  function Split(s: string, sep: char): (pieces: seq<string>)
    ensures |pieces| >= 1
    ensures forall i :: 0 <= i < |pieces| ==> sep !in pieces[i]
    decreases |s|
  {
    if |s| == 0 then [""]
    else
      var rest := Split(s[1..], sep);
      if s[0] == sep then [""] + rest
      else [[s[0]] + rest[0]] + rest[1..]
  }

  /** A piece without the separator, followed by the separator, splits off as one piece. */
  lemma {:induction false} SplitAfterPiece(piece: string, sep: char, rest: string)
    requires sep !in piece
    ensures Split(piece + [sep] + rest, sep) == [piece] + Split(rest, sep)
    decreases |piece|
  {
    if |piece| > 0 {
      SplitAfterPiece(piece[1..], sep, rest);
      assert (piece + [sep] + rest)[1..] == piece[1..] + [sep] + rest;
      assert [piece[0]] + piece[1..] == piece;
    } else {
      assert piece + [sep] + rest == [sep] + rest;
      assert ([sep] + rest)[1..] == rest;
    }
  }

  /** A string without the separator is a single piece. */
  lemma {:induction false} SplitNoSeparator(s: string, sep: char)
    requires sep !in s
    ensures Split(s, sep) == [s]
    decreases |s|
  {
    if |s| > 0 {
      SplitNoSeparator(s[1..], sep);
      assert [s[0]] + s[1..] == s;
    }
  }

  /** Joining pieces that are free of the separator and splitting again gives the pieces back. */
  lemma {:induction false} SplitJoin(parts: seq<string>, sep: char)
    requires |parts| >= 1
    requires forall i :: 0 <= i < |parts| ==> sep !in parts[i]
    ensures Split(Join(parts, [sep]), sep) == parts
    decreases |parts|
  {
    if |parts| == 1 {
      SplitNoSeparator(parts[0], sep);
    } else {
      SplitJoin(parts[1..], sep);
      SplitAfterPiece(parts[0], sep, Join(parts[1..], [sep]));
      assert parts == [parts[0]] + parts[1..];
    }
  }

  function DigitChar(d: nat): (c: char)
    requires d < 10
    ensures '0' <= c <= '9' && c as int - '0' as int == d
  {
    ('0' as int + d) as char
  }

  /** The decimal digits of `n`, as JavaScript prints a non-negative integer. */
  function Decimal(n: nat): (s: string)
    ensures |s| >= 1
    ensures forall i :: 0 <= i < |s| ==> '0' <= s[i] <= '9'
    ensures |s| > 1 ==> s[0] != '0'
    decreases n
  {
    if n < 10 then [DigitChar(n)] else Decimal(n / 10) + [DigitChar(n % 10)]
  }

  /** The value of a string of decimal digits. */
  function DecimalValue(s: string): nat
    requires forall i :: 0 <= i < |s| ==> '0' <= s[i] <= '9'
    decreases |s|
  {
    if |s| == 0 then 0
    else DecimalValue(s[..|s| - 1]) * 10 + (s[|s| - 1] as int - '0' as int)
  }

  /** Reading back the printed digits gives the number. */
  lemma {:induction false} DecimalRoundTrip(n: nat)
    ensures DecimalValue(Decimal(n)) == n
    decreases n
  {
    if n >= 10 {
      DecimalRoundTrip(n / 10);
      var s := Decimal(n);
      assert s[..|s| - 1] == Decimal(n / 10);
      assert s[|s| - 1] as int - '0' as int == n % 10;
      assert DecimalValue(s) == (n / 10) * 10 + n % 10;
    }
  }
}
