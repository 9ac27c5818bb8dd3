/** Byte strings, the memory image of a fixed-size record, and the octal text
    that the archive code prints with sprintf and scans back. */
module Bytes {

  type byte = x: int | 0 <= x < 256
  type Text = seq<byte>

  const NUL: byte := 0
  const SPACE: byte := 32
  const DOT: byte := 46
  const SLASH: byte := 47
  const DIGIT_0: byte := 48

  datatype Option<+T> = None | Some(value: T)

  datatype Result<+T, +E> = Success(value: T) | Failure(error: E)

  function Repeat(b: byte, n: nat): (r: Text)
    ensures |r| == n && forall i :: 0 <= i < n ==> r[i] == b
  {
    seq(n, _ => b)
  }

  function Zeros(n: nat): (r: Text) {
    Repeat(NUL, n)
  }

  predicate AllZero(s: Text) {
    forall i :: 0 <= i < |s| ==> s[i] == NUL
  }

  ghost predicate NulFree(s: Text) {
    forall i :: 0 <= i < |s| ==> s[i] != NUL
  }

  /** The record `h` after the bytes `s` were copied over it from offset `at` on. */
  function Put(h: Text, at: nat, s: Text): (r: Text)
    requires at + |s| <= |h|
    ensures |r| == |h|
    ensures forall i :: 0 <= i < |h| ==> r[i] == if at <= i < at + |s| then s[i - at] else h[i]
  {
    h[..at] + s + h[at + |s|..]
  }

  ghost predicate Holds(h: Text, at: nat, s: Text) {
    at + |s| <= |h| && h[at..at + |s|] == s
  }

  lemma PutHolds(h: Text, at: nat, s: Text)
    requires at + |s| <= |h|
    ensures Holds(Put(h, at, s), at, s)
  {
  }

  lemma PutKeeps(h: Text, at: nat, s: Text, at': nat, s': Text)
    requires Holds(h, at, s) && at' + |s'| <= |h|
    requires at' + |s'| <= at || at + |s| <= at'
    ensures Holds(Put(h, at', s'), at, s)
  {
    var p := Put(h, at', s');
    forall i | 0 <= i < |s| ensures p[at + i] == s[i] {
      assert h[at..at + |s|][i] == s[i];
    }
    assert p[at..at + |s|] == s;
  }

  /** What the C library reads as a string from this memory: up to the first NUL. */
  function CString(s: Text): (r: Text)
    ensures |r| <= |s| && r == s[..|r|]
    ensures NulFree(r)
    ensures |r| < |s| ==> s[|r|] == NUL
  {
    if s == [] || s[0] == NUL then [] else [s[0]] + CString(s[1..])
  }

  lemma {:induction false} CStringIs(s: Text, r: Text)
    requires r <= s && NulFree(r)
    requires |r| < |s| ==> s[|r|] == NUL
    ensures CString(s) == r
  {
    if r != [] {
      assert s[1..][..|r| - 1] == r[1..];
      CStringIs(s[1..], r[1..]);
    }
  }

  /* ---- octal text ---- */

  predicate IsOctal(b: byte) {
    DIGIT_0 <= b < DIGIT_0 + 8
  }

  ghost predicate AllOctal(s: Text) {
    forall i :: 0 <= i < |s| ==> IsOctal(s[i])
  }

  /** Fewest octal digits that denote n, as printed by "%o". */
  function OctalDigits(n: nat): (s: Text)
    ensures |s| > 0 && AllOctal(s)
  {
    if n < 8 then [DIGIT_0 + n] else OctalDigits(n / 8) + [DIGIT_0 + n % 8]
  }

  /** sprintf's minimum field width. */
  function PadLeft(pad: byte, width: nat, s: Text): (r: Text)
    ensures |r| == if |s| < width then width else |s|
  {
    if |s| < width then Repeat(pad, width - |s|) + s else s
  }

  /** sprintf(field, "%0<width>o", n), terminator included. */
  function PrintOctal(width: nat, n: nat): (r: Text) {
    PadLeft(DIGIT_0, width, OctalDigits(n)) + [NUL]
  }

  /** Reads octal digits from the front of s until something else is met. */
  function ScanDigits(acc: nat, s: Text): (r: nat)
    decreases s
  {
    if s == [] || !IsOctal(s[0]) then acc else ScanDigits(8 * acc + (s[0] - DIGIT_0), s[1..])
  }

  function Pow8(k: nat): (r: nat)
    ensures r > 0
  {
    if k == 0 then 1 else 8 * Pow8(k - 1)
  }

  lemma {:induction false} OctalLength(n: nat, k: nat)
    requires k > 0 && n < Pow8(k)
    ensures |OctalDigits(n)| <= k
  {
    if n >= 8 {
      assert k > 1;
      OctalLength(n / 8, k - 1);
    }
  }

  lemma {:induction false} ScanAppend(acc: nat, s: Text, t: Text)
    requires AllOctal(s)
    ensures ScanDigits(acc, s + t) == ScanDigits(ScanDigits(acc, s), t)
    decreases s
  {
    if s == [] {
      assert s + t == t;
    } else {
      assert (s + t)[1..] == s[1..] + t;
      ScanAppend(8 * acc + (s[0] - DIGIT_0), s[1..], t);
    }
  }

  lemma {:induction false} ScanOfDigits(n: nat)
    ensures ScanDigits(0, OctalDigits(n)) == n
  {
    if n >= 8 {
      ScanOfDigits(n / 8);
      ScanAppend(0, OctalDigits(n / 8), [DIGIT_0 + n % 8]);
    }
  }

  lemma {:induction false} ScanLeadingZeros(k: nat, t: Text)
    ensures ScanDigits(0, Repeat(DIGIT_0, k) + t) == ScanDigits(0, t)
  {
    if k == 0 {
      assert Repeat(DIGIT_0, 0) + t == t;
    } else {
      assert (Repeat(DIGIT_0, k) + t)[1..] == Repeat(DIGIT_0, k - 1) + t;
      ScanLeadingZeros(k - 1, t);
    }
  }

  /** sscanf undoes sprintf: scanning a printed field, whatever memory follows it. */
  lemma {:induction false} ScanPrinted(width: nat, n: nat, rest: Text)
    ensures ScanDigits(0, PrintOctal(width, n) + rest) == n
  {
    var digits := OctalDigits(n);
    var tail := digits + ([NUL] + rest);
    ScanAppend(0, digits, [NUL] + rest);
    ScanOfDigits(n);
    if |digits| < width {
      var zeros := Repeat(DIGIT_0, width - |digits|);
      assert PrintOctal(width, n) + rest == zeros + tail;
      ScanLeadingZeros(width - |digits|, tail);
    } else {
      assert PrintOctal(width, n) + rest == tail;
    }
  }

  lemma {:induction false} PrintedLength(width: nat, n: nat)
    requires width > 0 && n < Pow8(width)
    ensures |PrintOctal(width, n)| == width + 1
    ensures IsOctal(PrintOctal(width, n)[0])
    ensures PrintOctal(width, n)[width] == NUL
  {
    OctalLength(n, width);
  }

  /* ---- sums of bytes ---- */

  function Sum(s: Text): (r: nat)
    ensures r <= 255 * |s|
  {
    if s == [] then 0 else Sum(s[..|s| - 1]) + s[|s| - 1]
  }
}
