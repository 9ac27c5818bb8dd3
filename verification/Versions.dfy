/** Comparison of version strings. */
module Versions {
  import opened CharText

  /* ---- the pieces of a version ---- */

  predicate IsAlnum(c: char) {
    IsDigit(c) || IsLetter(c)
  }

  predicate IsSeparator(c: char) {
    !IsAlnum(c) && c != '~'
  }

  /** Indexing a string at its size gives the terminating NUL. */
  function At(s: string, i: nat): (c: char)
    requires i <= |s|
  {
    if i < |s| then s[i] else '\0'
  }

  /** The end of the run of characters of one class. */
  function RunEnd(s: string, i: nat, inRun: char -> bool): (j: nat)
    requires i <= |s|
    ensures i <= j <= |s| && (j < |s| ==> !inRun(s[j])) && forall k :: i <= k < j ==> inRun(s[k])
    decreases |s| - i
  {
    if i < |s| && inRun(s[i]) then RunEnd(s, i + 1, inRun) else i
  }

  function SeparatorsEnd(s: string, i: nat): (j: nat)
    requires i <= |s|
    ensures i <= j <= |s| && (j < |s| ==> !IsSeparator(s[j])) && forall k :: i <= k < j ==> IsSeparator(s[k])
  {
    RunEnd(s, i, IsSeparator)
  }

  function DigitsEnd(s: string, i: nat): (j: nat)
    requires i <= |s|
    ensures i <= j <= |s| && (j < |s| ==> !IsDigit(s[j])) && forall k :: i <= k < j ==> IsDigit(s[k])
  {
    RunEnd(s, i, IsDigit)
  }

  function LettersEnd(s: string, i: nat): (j: nat)
    requires i <= |s|
    ensures i <= j <= |s| && (j < |s| ==> !IsLetter(s[j])) && forall k :: i <= k < j ==> IsLetter(s[k])
  {
    RunEnd(s, i, IsLetter)
  }

  method SkipRun(s: string, pos: nat, inRun: char -> bool) returns (pos': nat)
    requires pos <= |s|
    ensures pos' == RunEnd(s, pos, inRun)
  {
    pos' := pos;
    while pos' < |s| && inRun(s[pos'])
      invariant pos <= pos' <= |s| && RunEnd(s, pos', inRun) == RunEnd(s, pos, inRun)
    {
      pos' := pos' + 1;
    }
  }

  function DigitValue(c: char): (d: nat)
    requires IsDigit(c)
    ensures d < 10
  {
    (c - '0') as nat
  }

  function Number(s: string): (n: nat)
    requires AllDigits(s)
  {
    if s == [] then 0 else 10 * Number(s[..|s| - 1]) + DigitValue(s[|s| - 1])
  }

  function Sign(n: int): (r: int) {
    if n < 0 then -1 else if n > 0 then 1 else 0
  }

  /* ---- the order of segments ---- */

  /** The value of a byte as a plain char, which is signed. */
  function CharValue(c: char): (v: int) {
    if 128 <= c as int < 256 then c as int - 256 else c as int
  }

  /** strcmp: the first difference decides, and a proper prefix is smaller. */
  function CompareText(s: string, t: string): (r: int) {
    if s == [] || t == [] then Sign(|s| - |t|)
    else if s[0] != t[0] then Sign(CharValue(s[0]) - CharValue(t[0]))
    else CompareText(s[1..], t[1..])
  }

  function StripZeros(s: string): (t: string)
    ensures |t| <= |s| && t == s[|s| - |t|..] && (t != [] ==> t[0] != '0')
  {
    if s != [] && s[0] == '0' then StripZeros(s[1..]) else s
  }

  /** Steps 2.7 and 2.8. */
  function CompareSegment(s: string, t: string, numeric: bool): (r: int) {
    if !numeric then CompareText(s, t)
    else
      var (s', t') := (StripZeros(s), StripZeros(t));
      if |s'| != |t'| then Sign(|s'| - |t'|) else CompareText(s', t')
  }

  /* ---- the comparison ---- */

  /** Unset: the comparison reads a segment bound that was never set. */
  datatype Outcome = Ordered(sign: int) | Unset

  /** What is left when one string is used up: the longest wins. */
  function Longest(a: nat, b: nat): (r: Outcome) {
    Ordered(Sign(a - b))
  }

  /** Bounds of the segments last taken, from both strings. */
  datatype Segments = NoSegments | Segments(aseg: nat, bseg: nat)

  /** The rest of the comparison from position apos of a and bpos of b. */
  function Compared(a: string, apos: nat, b: string, bpos: nat, segs: Segments): (r: Outcome)
    requires apos <= |a| && bpos <= |b| && (segs.Segments? ==> segs.aseg <= apos && segs.bseg <= bpos)
    decreases |a| - apos, 1
  {
    if apos == |a| || bpos == |b| then Longest(|a| - apos, |b| - bpos)
    else
      var i, j := SeparatorsEnd(a, apos), SeparatorsEnd(b, bpos);
      if At(a, i) == '~' == At(b, j) then
        if i + 1 == |a| || j + 1 == |b| then Longest(|a| - i - 1, |b| - j - 1)
        else ComparedFrom(a, i + 1, b, j + 1, segs, apos)
      else if At(a, i) == '~' then Ordered(-1)
      else if At(b, j) == '~' then Ordered(1)
      else ComparedFrom(a, i, b, j, segs, apos)
  }

  /** Where the segments taken at i and j end, and their bounds. A letter just behind
      the digits makes the letters the segment. */
  datatype Taken = Taken(apos: nat, bpos: nat, segs: Segments)

  function TakeDigits(a: string, i: nat, b: string, j: nat, segs: Segments): (t: Taken)
    requires i <= |a| && j <= |b| && (segs.Segments? ==> segs.aseg <= i && segs.bseg <= j)
    ensures i <= t.apos <= |a| && j <= t.bpos <= |b|
    ensures t.segs.Segments? ==> t.segs.aseg <= t.apos && t.segs.bseg <= t.bpos
  {
    if IsDigit(At(a, i)) then Taken(DigitsEnd(a, i), DigitsEnd(b, j), Segments(i, j)) else Taken(i, j, segs)
  }

  function TakeLetters(a: string, i: nat, b: string, j: nat, segs: Segments): (t: Taken)
    requires i <= |a| && j <= |b| && (segs.Segments? ==> segs.aseg <= i && segs.bseg <= j)
    ensures i <= t.apos <= |a| && j <= t.bpos <= |b|
    ensures t.segs.Segments? ==> t.segs.aseg <= t.apos && t.segs.bseg <= t.bpos
  {
    if IsLetter(At(a, i)) then Taken(LettersEnd(a, i), LettersEnd(b, j), Segments(i, j)) else Taken(i, j, segs)
  }

  function Take(a: string, i: nat, b: string, j: nat, segs: Segments): (t: Taken)
    requires i <= |a| && j <= |b| && (segs.Segments? ==> segs.aseg <= i && segs.bseg <= j)
    ensures i <= t.apos <= |a| && j <= t.bpos <= |b|
    ensures t.segs.Segments? ==> t.segs.aseg <= t.apos && t.segs.bseg <= t.bpos
    ensures i < |a| && IsAlnum(a[i]) ==> i < t.apos && t.segs.Segments?
  {
    var d := TakeDigits(a, i, b, j, segs);
    TakeLetters(a, d.apos, b, d.bpos, d.segs)
  }

  /** Steps 2.5 to 2.8 with what follows; `was` is where the round began. */
  function ComparedFrom(a: string, i: nat, b: string, j: nat, segs: Segments, was: nat): (r: Outcome)
    requires was <= i <= |a| && was < |a| && j <= |b| && (segs.Segments? ==> segs.aseg <= i && segs.bseg <= j)
    requires i == was ==> IsAlnum(a[i])
    decreases |a| - was, 0
  {
    var t := Take(a, i, b, j, segs);
    if t.segs.NoSegments? then Unset
    else
      var Segments(aseg, bseg) := t.segs;
      if t.bpos == bseg && IsDigit(At(a, aseg)) then Ordered(1)
      else if t.bpos == bseg && IsLetter(At(a, aseg)) then Ordered(-1)
      else
        var r := CompareSegment(a[aseg..t.apos], b[bseg..t.bpos], IsDigit(At(a, aseg)));
        if r != 0 then Ordered(r) else Compared(a, t.apos, b, t.bpos, Segments(t.apos, t.bpos))
  }

  function Verdict(a: string, b: string): (r: Outcome) {
    if a == b then Ordered(0) else Compared(a, 0, b, 0, NoSegments)
  }

  /* ---- the method ---- */

  lemma ZeroStripped(s: string, seg: nat, pos: nat)
    requires seg < pos <= |s| && s[seg] == '0'
    ensures StripZeros(s[seg..pos]) == StripZeros(s[seg + 1..pos])
  {
    assert s[seg..pos][1..] == s[seg + 1..pos];
  }

  lemma {:induction false} NothingStripped(s: string)
    requires s != [] ==> s[0] != '0'
    ensures StripZeros(s) == s
  {
  }

  method SkipZeros(s: string, seg: nat, pos: nat) returns (seg': nat)
    requires seg <= pos <= |s|
    ensures seg <= seg' <= pos && s[seg'..pos] == StripZeros(s[seg..pos])
  {
    hide StripZeros;
    seg' := seg;
    while seg' < pos && s[seg'] == '0'
      invariant seg <= seg' <= pos && StripZeros(s[seg'..pos]) == StripZeros(s[seg..pos])
    {
      ZeroStripped(s, seg', pos);
      seg' := seg' + 1;
    }
    NothingStripped(s[seg'..pos]);
  }

  /** Steps 2.7 and 2.8, on the two segments. */
  method CompareSegments(a: string, aseg0: nat, apos: nat, b: string, bseg0: nat, bpos: nat) returns (r: int)
    requires aseg0 <= apos <= |a| && bseg0 <= bpos <= |b|
    ensures r == CompareSegment(a[aseg0..apos], b[bseg0..bpos], IsDigit(At(a, aseg0)))
  {
    hide StripZeros;
    var aseg, bseg := aseg0, bseg0;
    if IsDigit(At(a, aseg)) {
      aseg := SkipZeros(a, aseg, apos);
      bseg := SkipZeros(b, bseg, bpos);
      if apos - aseg > bpos - bseg {
        return 1;
      }
      if bpos - bseg > apos - aseg {
        return -1;
      }
    }
    r := CompareRest(a, aseg, apos, b, bseg, bpos);
  }

  /** The inline strcmp. */
  method CompareRest(a: string, aseg0: nat, apos: nat, b: string, bseg0: nat, bpos: nat) returns (r: int)
    requires aseg0 <= apos <= |a| && bseg0 <= bpos <= |b|
    ensures r == CompareText(a[aseg0..apos], b[bseg0..bpos])
  {
    var aseg, bseg := aseg0, bseg0;
    while aseg < apos && bseg < bpos
      invariant aseg0 <= aseg <= apos && bseg0 <= bseg <= bpos
      invariant CompareText(a[aseg..apos], b[bseg..bpos]) == CompareText(a[aseg0..apos], b[bseg0..bpos])
    {
      if CharValue(a[aseg]) < CharValue(b[bseg]) {
        return -1;
      }
      if CharValue(a[aseg]) > CharValue(b[bseg]) {
        return 1;
      }
      assert a[aseg..apos][1..] == a[aseg + 1..apos] && b[bseg..bpos][1..] == b[bseg + 1..bpos];
      aseg := aseg + 1;
      bseg := bseg + 1;
    }
    if aseg == apos && bseg < bpos {
      return -1;
    }
    if bseg == bpos && aseg < apos {
      return 1;
    }
    r := 0;
  }

  method TakeSegments(a: string, i: nat, b: string, j: nat, segs0: Segments)
    returns (apos: nat, bpos: nat, segs: Segments)
    requires i <= |a| && j <= |b| && (segs0.Segments? ==> segs0.aseg <= i && segs0.bseg <= j)
    ensures Taken(apos, bpos, segs) == Take(a, i, b, j, segs0)
  {
    hide RunEnd;
    apos, bpos, segs := i, j, segs0;
    if IsDigit(At(a, apos)) {
      segs := Segments(apos, bpos);
      apos := SkipRun(a, apos + 1, IsDigit);
      bpos := SkipRun(b, bpos, IsDigit);
      RunGoesOn(a, i, IsDigit);
    }
    if IsLetter(At(a, apos)) {
      segs := Segments(apos, bpos);
      ghost var was := apos;
      apos := SkipRun(a, apos + 1, IsLetter);
      bpos := SkipRun(b, bpos, IsLetter);
      RunGoesOn(a, was, IsLetter);
    }
  }

  lemma RunGoesOn(s: string, i: nat, inRun: char -> bool)
    requires i < |s| && inRun(s[i])
    ensures RunEnd(s, i, inRun) == RunEnd(s, i + 1, inRun)
  {
  }

  lemma {:induction false} RoundBegins(a: string, apos: nat, b: string, bpos: nat, segs: Segments)
    requires apos < |a| && bpos < |b| && (segs.Segments? ==> segs.aseg <= apos && segs.bseg <= bpos)
    ensures var i, j, rest := SeparatorsEnd(a, apos), SeparatorsEnd(b, bpos), Compared(a, apos, b, bpos, segs);
            if At(a, i) == '~' == At(b, j) then
              rest == if i + 1 == |a| || j + 1 == |b| then Longest(|a| - i - 1, |b| - j - 1)
                      else ComparedFrom(a, i + 1, b, j + 1, segs, apos)
            else
              rest == if At(a, i) == '~' then Ordered(-1) else if At(b, j) == '~' then Ordered(1)
                      else ComparedFrom(a, i, b, j, segs, apos)
  {
    hide RunEnd, ComparedFrom;
  }

  lemma {:induction false} RoundEnds(a: string, i: nat, b: string, j: nat, segs: Segments, was: nat)
    requires was <= i <= |a| && was < |a| && j <= |b| && (segs.Segments? ==> segs.aseg <= i && segs.bseg <= j)
    requires i == was ==> IsAlnum(a[i])
    ensures var t, rest := Take(a, i, b, j, segs), ComparedFrom(a, i, b, j, segs, was);
            && (t.segs.NoSegments? ==> rest == Unset)
            && (t.segs.Segments? ==>
                  var Segments(aseg, bseg) := t.segs;
                  var first, r := At(a, aseg), CompareSegment(a[aseg..t.apos], b[bseg..t.bpos], IsDigit(At(a, aseg)));
                  rest == if t.bpos == bseg && IsDigit(first) then Ordered(1)
                          else if t.bpos == bseg && IsLetter(first) then Ordered(-1)
                          else if r != 0 then Ordered(r)
                          else Compared(a, t.apos, b, t.bpos, Segments(t.apos, t.bpos)))
  {
    hide Compared, Take, CompareSegment;
  }

  method CompareVersions(a: string, b: string) returns (r: Outcome)
    ensures r == Verdict(a, b)
  {
    hide CompareSegment, RunEnd, Compared, ComparedFrom, Take;
    if a == b {
      return Ordered(0);
    }
    var apos: nat, bpos: nat, segs := 0, 0, NoSegments;
    while apos < |a| && bpos < |b|
      invariant apos <= |a| && bpos <= |b| && (segs.Segments? ==> segs.aseg <= apos && segs.bseg <= bpos)
      invariant Verdict(a, b) == Compared(a, apos, b, bpos, segs)
      decreases |a| - apos
    {
      ghost var was := apos;
      RoundBegins(a, apos, b, bpos, segs);
      apos := SkipRun(a, apos, IsSeparator);
      bpos := SkipRun(b, bpos, IsSeparator);
      if At(a, apos) == '~' == At(b, bpos) {
        apos := apos + 1;
        bpos := bpos + 1;
        if apos == |a| || bpos == |b| {
          return Longest(|a| - apos, |b| - bpos);
        }
      } else if At(a, apos) == '~' {
        return Ordered(-1);
      } else if At(b, bpos) == '~' {
        return Ordered(1);
      }
      RoundEnds(a, apos, b, bpos, segs, was);
      apos, bpos, segs := TakeSegments(a, apos, b, bpos, segs);
      if segs.NoSegments? {
        return Unset;
      }
      if bpos == segs.bseg {
        if IsDigit(At(a, segs.aseg)) {
          return Ordered(1);
        }
        if IsLetter(At(a, segs.aseg)) {
          return Ordered(-1);
        }
      }
      var sign := CompareSegments(a, segs.aseg, apos, b, segs.bseg, bpos);
      if sign != 0 {
        return Ordered(sign);
      }
      segs := Segments(apos, bpos);
    }
    UsedUp(a, apos, b, bpos, segs);
    r := Longest(|a| - apos, |b| - bpos);
  }

  lemma {:induction false} UsedUp(a: string, apos: nat, b: string, bpos: nat, segs: Segments)
    requires apos <= |a| && bpos <= |b| && (segs.Segments? ==> segs.aseg <= apos && segs.bseg <= bpos)
    requires apos == |a| || bpos == |b|
    ensures Compared(a, apos, b, bpos, segs) == Longest(|a| - apos, |b| - bpos)
  {
  }

  /* ---- digits mean numbers ---- */

  function Power(n: nat): (p: nat)
    ensures p > 0
  {
    if n == 0 then 1 else 10 * Power(n - 1)
  }

  lemma {:induction false} NumberSplits(s: string, t: string)
    requires AllDigits(s) && AllDigits(t)
    ensures AllDigits(s + t) && Number(s + t) == Number(s) * Power(|t|) + Number(t) && Number(t) < Power(|t|)
    decreases |t|
  {
    if t == [] {
      assert s + t == s;
      assert Number(t) == 0 && Power(0) == 1;
    } else {
      hide Number;
      var n := |t| - 1;
      NumberSplits(s, t[..n]);
      LastDigit(s + t[..n], t[n]);
      LastDigit(t[..n], t[n]);
      assert s + t[..n] + [t[n]] == s + t && t[..n] + [t[n]] == t;
      TenTimes(Number(s), Power(n));
    }
  }

  lemma {:induction false} LastDigit(s: string, c: char)
    requires AllDigits(s) && IsDigit(c)
    ensures AllDigits(s + [c]) && Number(s + [c]) == 10 * Number(s) + DigitValue(c)
  {
    assert (s + [c])[..|s|] == s;
  }

  lemma TenTimes(x: nat, p: nat)
    ensures 10 * (x * p) == x * (10 * p)
  {
  }

  lemma OneDigit(c: char)
    requires IsDigit(c)
    ensures Number([c]) == DigitValue(c)
  {
    assert [c][..0] == [];
  }

  lemma {:induction false} LeadingZero(s: string)
    requires s != [] && s[0] == '0' && AllDigits(s)
    ensures AllDigits(s[1..]) && Number(s[1..]) == Number(s)
  {
    hide Number;
    NumberSplits([s[0]], s[1..]);
    assert [s[0]] + s[1..] == s;
    OneDigit(s[0]);
  }

  lemma {:induction false} Longer(s: string, t: string)
    requires AllDigits(s) && AllDigits(t) && |s| > |t| && s[0] != '0'
    ensures Number(s) > Number(t)
  {
    hide Number, Power;
    NumberSplits([], t);
    FirstDigit(s);
    PowerGrows(|t|, |s| - 1);
    Scaled(0, DigitValue(s[0]), Power(|s| - 1));
  }

  lemma {:induction false} PowerGrows(m: nat, n: nat)
    requires m <= n
    ensures Power(m) <= Power(n)
    decreases n
  {
    if m < n {
      PowerGrows(m, n - 1);
    }
  }

  /** Numbers of equally many digits compare as their texts do. */
  lemma {:induction false} SameLength(s: string, t: string)
    requires AllDigits(s) && AllDigits(t) && |s| == |t|
    ensures CompareText(s, t) == Sign(Number(s) - Number(t))
    decreases s
  {
    hide Number, Power;
    if s != [] {
      FirstDigit(s);
      FirstDigit(t);
      if s[0] == t[0] {
        SameLength(s[1..], t[1..]);
      } else if s[0] < t[0] {
        Scaled(DigitValue(s[0]), DigitValue(t[0]), Power(|s| - 1));
      } else {
        Scaled(DigitValue(t[0]), DigitValue(s[0]), Power(|s| - 1));
      }
    } else {
      assert s == t;
    }
  }

  lemma {:induction false} FirstDigit(s: string)
    requires s != [] && AllDigits(s)
    ensures AllDigits(s[1..]) && Number(s[1..]) < Power(|s| - 1)
    ensures Number(s) == DigitValue(s[0]) * Power(|s| - 1) + Number(s[1..])
  {
    hide Number, Power;
    NumberSplits([s[0]], s[1..]);
    assert [s[0]] + s[1..] == s;
    OneDigit(s[0]);
  }

  lemma Scaled(x: nat, y: nat, p: nat)
    requires y >= x + 1
    ensures y * p >= x * p + p
  {
    assert y * p == (y - x - 1) * p + (x + 1) * p;
  }

  lemma {:induction false} StrippedNumber(s: string)
    requires AllDigits(s)
    ensures AllDigits(StripZeros(s)) && Number(StripZeros(s)) == Number(s)
    decreases s
  {
    hide Number;
    if s != [] && s[0] == '0' {
      LeadingZero(s);
      StrippedNumber(s[1..]);
    }
  }

  /** Stripping zeros, comparing lengths and then digits is comparing numbers. */
  lemma {:induction false} DigitsCompareAsNumbers(s: string, t: string)
    requires AllDigits(s) && AllDigits(t)
    ensures CompareSegment(s, t, true) == Sign(Number(s) - Number(t))
  {
    hide Number, StripZeros, CompareText;
    var (s', t') := (StripZeros(s), StripZeros(t));
    StrippedNumber(s);
    StrippedNumber(t);
    if |s'| > |t'| {
      Longer(s', t');
    } else if |t'| > |s'| {
      Longer(t', s');
    } else {
      SameLength(s', t');
    }
  }

  /* ---- what a version means ---- */

  datatype Token = Tilde | Word(text: string) | Num(value: nat)

  function Tokens(s: string, i: nat): (tokens: seq<Token>)
    requires i <= |s|
    decreases |s| - i
  {
    var j := SeparatorsEnd(s, i);
    if j == |s| then []
    else if s[j] == '~' then [Tilde] + Tokens(s, j + 1)
    else if IsDigit(s[j]) then [Num(Number(s[j..DigitsEnd(s, j)]))] + Tokens(s, DigitsEnd(s, j))
    else [Word(s[j..LettersEnd(s, j)])] + Tokens(s, LettersEnd(s, j))
  }

  function CompareToken(x: Token, y: Token): (r: int) {
    match (x, y)
    case (Num(m), Num(n)) => Sign(m - n)
    case (Word(s), Word(t)) => CompareText(s, t)
    case _ => Sign(Rank(x) - Rank(y))
  }

  /** A tilde is older than letters, and letters are older than a number. */
  function Rank(x: Token): (n: nat) {
    match x
    case Tilde => 0
    case Word(_) => 1
    case Num(_) => 2
  }

  /** Lexicographic: a proper prefix is older. */
  function Compare(x: seq<Token>, y: seq<Token>): (r: int) {
    if x == [] || y == [] then Sign(|x| - |y|)
    else if CompareToken(x[0], y[0]) != 0 then CompareToken(x[0], y[0])
    else Compare(x[1..], y[1..])
  }

  lemma {:induction false} TextOrder(s: string, t: string)
    ensures CompareText(s, t) == 0 <==> s == t
    ensures CompareText(s, t) == -CompareText(t, s)
    decreases |s|
  {
    if s != [] && t != [] {
      TextOrder(s[1..], t[1..]);
      assert s[0] == t[0] && s[1..] == t[1..] ==> s == [s[0]] + s[1..] == [t[0]] + t[1..] == t;
    }
  }

  lemma {:induction false} TextTransitive(s: string, t: string, u: string)
    requires CompareText(s, t) <= 0 && CompareText(t, u) <= 0
    ensures CompareText(s, u) <= 0
    decreases |s|
  {
    if s != [] && t != [] && u != [] && s[0] == t[0] == u[0] {
      TextTransitive(s[1..], t[1..], u[1..]);
    }
  }

  lemma TokenOrder(x: Token, y: Token)
    ensures CompareToken(x, y) == 0 <==> x == y
    ensures CompareToken(x, y) == -CompareToken(y, x)
  {
    if x.Word? && y.Word? {
      TextOrder(x.text, y.text);
    }
  }

  lemma TokenTransitive(x: Token, y: Token, z: Token)
    requires CompareToken(x, y) <= 0 && CompareToken(y, z) <= 0
    ensures CompareToken(x, z) <= 0
  {
    if x.Word? && y.Word? && z.Word? {
      TextTransitive(x.text, y.text, z.text);
    }
  }

  lemma {:induction false} CompareZero(x: seq<Token>, y: seq<Token>)
    ensures Compare(x, y) == 0 <==> x == y
    ensures Compare(x, y) == -Compare(y, x)
    decreases |x|
  {
    hide CompareToken;
    if x != [] && y != [] {
      TokenOrder(x[0], y[0]);
      CompareZero(x[1..], y[1..]);
      assert x[0] == y[0] && x[1..] == y[1..] ==> x == [x[0]] + x[1..] == [y[0]] + y[1..] == y;
    }
  }

  lemma {:induction false} CompareTransitive(x: seq<Token>, y: seq<Token>, z: seq<Token>)
    requires Compare(x, y) <= 0 && Compare(y, z) <= 0
    ensures Compare(x, z) <= 0
    decreases |x|
  {
    hide CompareToken;
    if x != [] && y != [] && z != [] {
      TokenOrder(x[0], y[0]);
      TokenOrder(y[0], z[0]);
      TokenOrder(x[0], z[0]);
      TokenTransitive(x[0], y[0], z[0]);
      if x[0] == y[0] == z[0] {
        CompareTransitive(x[1..], y[1..], z[1..]);
      }
    }
  }

  lemma {:induction false} CompareStep(x: Token, xs: seq<Token>, y: Token, ys: seq<Token>)
    ensures Compare([x] + xs, [y] + ys) == if x != y then CompareToken(x, y) else Compare(xs, ys)
  {
    TokenOrder(x, y);
    assert ([x] + xs)[1..] == xs && ([y] + ys)[1..] == ys;
  }

  /* ---- versions whose order is meant ---- */

  /** No letter just behind a digit, a letter or a digit behind each tilde but a last
      one, and no separator at the end. */
  predicate Plain(s: string) {
    && (forall i :: 0 <= i < |s| - 1 && IsDigit(s[i]) ==> !IsLetter(s[i + 1]))
    && (forall i :: 0 <= i < |s| - 1 && s[i] == '~' ==> IsAlnum(s[i + 1]))
    && (s != [] ==> !IsSeparator(s[|s| - 1]))
  }

  lemma {:induction false} TokensGoOn(s: string, i: nat)
    requires Plain(s) && i < |s|
    ensures SeparatorsEnd(s, i) < |s| && Tokens(s, i) != [] && Tokens(s, i) == Tokens(s, SeparatorsEnd(s, i))
  {
    hide SeparatorsEnd, Tokens;
    assert !IsSeparator(s[|s| - 1]);
    TokensAfterSeparators(s, i);
  }

  lemma {:induction false} TokensAfterSeparators(s: string, i: nat)
    requires i <= |s| && SeparatorsEnd(s, i) < |s|
    ensures Tokens(s, i) != [] && Tokens(s, i) == Tokens(s, SeparatorsEnd(s, i))
  {
    hide RunEnd, Number;
    var j := SeparatorsEnd(s, i);
    assert SeparatorsEnd(s, j) == j;
  }

  lemma {:induction false} TokensEnd(s: string)
    ensures Tokens(s, |s|) == []
  {
  }

  lemma {:induction false} WordAt(s: string, i: nat)
    requires i < |s| && IsLetter(s[i])
    ensures i < LettersEnd(s, i) && DigitsEnd(s, i) == i
    ensures Tokens(s, i) == [Word(s[i..LettersEnd(s, i)])] + Tokens(s, LettersEnd(s, i))
  {
    hide RunEnd, Number;
    assert SeparatorsEnd(s, i) == i;
  }

  lemma {:induction false} NumberAt(s: string, i: nat)
    requires i < |s| && IsDigit(s[i])
    ensures i < DigitsEnd(s, i) && LettersEnd(s, i) == i
    ensures Tokens(s, i) == [Num(Number(s[i..DigitsEnd(s, i)]))] + Tokens(s, DigitsEnd(s, i))
  {
    hide RunEnd, Number;
    assert SeparatorsEnd(s, i) == i;
  }

  lemma TildeAt(s: string, i: nat)
    requires i < |s| && s[i] == '~'
    ensures Tokens(s, i) == [Tilde] + Tokens(s, i + 1)
  {
    hide RunEnd, Number;
    assert SeparatorsEnd(s, i) == i;
  }

  lemma NoLetterBehind(s: string, i: nat)
    requires Plain(s) && i < |s| && IsDigit(s[i])
    ensures !IsLetter(At(s, DigitsEnd(s, i)))
  {
    hide RunEnd;
    var k := DigitsEnd(s, i);
    assert IsDigit(s[k - 1]);
  }

  /** On plain versions the rest of the comparison is the order of the rest of the tokens. */
  lemma {:induction false} ComparedAgrees(a: string, apos: nat, b: string, bpos: nat, segs: Segments)
    requires Plain(a) && Plain(b) && apos <= |a| && bpos <= |b|
    requires segs.Segments? ==> segs.aseg <= apos && segs.bseg <= bpos
    ensures Compared(a, apos, b, bpos, segs) == Ordered(Compare(Tokens(a, apos), Tokens(b, bpos)))
    decreases |a| - apos, 1
  {
    hide Plain, Tokens, RunEnd, ComparedFrom, SeparatorsEnd;
    if apos == |a| || bpos == |b| {
      OneUsedUp(a, apos, b, bpos);
    } else {
      var i, j := SeparatorsEnd(a, apos), SeparatorsEnd(b, bpos);
      TokensGoOn(a, apos);
      TokensGoOn(b, bpos);
      if a[i] == '~' == b[j] {
        BothTildes(a, i, b, j);
        if i + 1 < |a| && j + 1 < |b| {
          FromAgrees(a, i + 1, b, j + 1, segs, apos);
        } else {
          OneUsedUp(a, i + 1, b, j + 1);
        }
      } else if a[i] == '~' || b[j] == '~' {
        OneTilde(a, i, b, j);
      } else {
        FromAgrees(a, i, b, j, segs, apos);
      }
    }
  }

  lemma {:induction false} OneUsedUp(a: string, apos: nat, b: string, bpos: nat)
    requires Plain(a) && Plain(b) && apos <= |a| && bpos <= |b| && (apos == |a| || bpos == |b|)
    ensures Longest(|a| - apos, |b| - bpos) == Ordered(Compare(Tokens(a, apos), Tokens(b, bpos)))
  {
    hide Tokens, Plain, RunEnd;
    TokensEnd(a);
    TokensEnd(b);
    if apos < |a| {
      TokensGoOn(a, apos);
    }
    if bpos < |b| {
      TokensGoOn(b, bpos);
    }
  }

  lemma BothTildes(a: string, i: nat, b: string, j: nat)
    requires Plain(a) && Plain(b) && i < |a| && j < |b| && a[i] == '~' == b[j]
    ensures Compare(Tokens(a, i), Tokens(b, j)) == Compare(Tokens(a, i + 1), Tokens(b, j + 1))
    ensures i + 1 < |a| ==> IsAlnum(a[i + 1])
    ensures j + 1 < |b| ==> IsAlnum(b[j + 1])
  {
    hide Tokens, Compare, RunEnd;
    TildeAt(a, i);
    TildeAt(b, j);
    CompareStep(Tilde, Tokens(a, i + 1), Tilde, Tokens(b, j + 1));
  }

  lemma {:induction false} OneTilde(a: string, i: nat, b: string, j: nat)
    requires i < |a| && j < |b| && !IsSeparator(a[i]) && !IsSeparator(b[j]) && (a[i] == '~') != (b[j] == '~')
    ensures Compare(Tokens(a, i), Tokens(b, j)) == if a[i] == '~' then -1 else 1
  {
    hide Compare, RunEnd, Number, CompareText;
    assert SeparatorsEnd(a, i) == i && SeparatorsEnd(b, j) == j;
    var x, y := Tokens(a, i), Tokens(b, j);
    CompareStep(x[0], x[1..], y[0], y[1..]);
    assert x == [x[0]] + x[1..] && y == [y[0]] + y[1..];
  }

  lemma {:induction false} FromAgrees(a: string, i: nat, b: string, j: nat, segs: Segments, was: nat)
    requires Plain(a) && Plain(b) && was <= i < |a| && j < |b|
    requires segs.Segments? ==> segs.aseg <= i && segs.bseg <= j
    requires IsAlnum(a[i]) && IsAlnum(b[j])
    ensures ComparedFrom(a, i, b, j, segs, was) == Ordered(Compare(Tokens(a, i), Tokens(b, j)))
    decreases |a| - was, 0
  {
    hide Plain, Tokens, Compared, RunEnd, Compare, Number, CompareText, CompareSegment, DigitsEnd, LettersEnd;
    var t := Take(a, i, b, j, segs);
    FirstTokens(a, i, b, j, segs);
    if IsDigit(a[i]) == IsDigit(b[j]) {
      ComparedAgrees(a, t.apos, b, t.bpos, Segments(t.apos, t.bpos));
    }
  }

  /** The token at a position, and what one round of the loop makes of it. */
  lemma {:induction false} FirstTokens(a: string, i: nat, b: string, j: nat, segs: Segments)
    requires Plain(a) && Plain(b) && i < |a| && j < |b| && (segs.Segments? ==> segs.aseg <= i && segs.bseg <= j)
    requires IsAlnum(a[i]) && IsAlnum(b[j])
    ensures var t := Take(a, i, b, j, segs);
            && t.segs == Segments(i, j) && (t.bpos == j <==> IsDigit(a[i]) != IsDigit(b[j]))
            && (IsDigit(a[i]) == IsDigit(b[j]) ==>
                  var r := CompareSegment(a[i..t.apos], b[j..t.bpos], IsDigit(a[i]));
                  Compare(Tokens(a, i), Tokens(b, j))
                  == if r != 0 then r else Compare(Tokens(a, t.apos), Tokens(b, t.bpos)))
            && (IsDigit(a[i]) != IsDigit(b[j]) ==>
                  Compare(Tokens(a, i), Tokens(b, j)) == if IsDigit(a[i]) then 1 else -1)
  {
    hide Plain, Tokens, RunEnd, Compare, Number, CompareText, StripZeros, DigitsEnd, LettersEnd;
    if IsDigit(a[i]) {
      NumberAt(a, i);
      NoLetterBehind(a, i);
    } else {
      WordAt(a, i);
    }
    if IsDigit(b[j]) {
      NumberAt(b, j);
    } else {
      WordAt(b, j);
    }
    var p, q := if IsDigit(a[i]) then DigitsEnd(a, i) else LettersEnd(a, i),
                if IsDigit(b[j]) then DigitsEnd(b, j) else LettersEnd(b, j);
    var x, y := Tokens(a, i)[0], Tokens(b, j)[0];
    CompareStep(x, Tokens(a, p), y, Tokens(b, q));
    TokenOrder(x, y);
    if IsDigit(a[i]) && IsDigit(b[j]) {
      DigitsCompareAsNumbers(a[i..p], b[j..q]);
    }
  }

  /** The comparison of plain versions is the order of their tokens. */
  lemma {:induction false} PlainVersionsCompare(a: string, b: string)
    requires Plain(a) && Plain(b)
    ensures Verdict(a, b) == Ordered(Compare(Tokens(a, 0), Tokens(b, 0)))
  {
    hide Plain, Tokens, Compare, Compared;
    CompareZero(Tokens(a, 0), Tokens(b, 0));
    ComparedAgrees(a, 0, b, 0, NoSegments);
  }

  /** Older-than is a total order on plain versions up to leading zeros and the choice
      of separators: equal exactly for equal tokens, antisymmetric, transitive. */
  lemma {:induction false} VersionsOrdered(a: string, b: string, c: string)
    requires Plain(a) && Plain(b) && Plain(c)
    ensures Verdict(a, b).Ordered? && Verdict(b, a) == Ordered(-Verdict(a, b).sign)
    ensures Verdict(a, b) == Ordered(0) <==> Tokens(a, 0) == Tokens(b, 0)
    ensures Verdict(b, c).Ordered? && Verdict(a, c).Ordered?
    ensures Verdict(a, b).sign <= 0 && Verdict(b, c).sign <= 0 ==> Verdict(a, c).sign <= 0
  {
    hide Plain, Tokens, Compare, Verdict;
    PlainVersionsCompare(a, b);
    PlainVersionsCompare(b, a);
    PlainVersionsCompare(b, c);
    PlainVersionsCompare(a, c);
    CompareZero(Tokens(a, 0), Tokens(b, 0));
    if Compare(Tokens(a, 0), Tokens(b, 0)) <= 0 && Compare(Tokens(b, 0), Tokens(c, 0)) <= 0 {
      CompareTransitive(Tokens(a, 0), Tokens(b, 0), Tokens(c, 0));
    }
  }

  /* ---- versions beyond the plain ones ---- */

  /** The first round finds neither a digit nor a letter in a where it takes segments. */
  predicate StartsBare(a: string, b: string) {
    && a != [] && b != []
    && var i, j := SeparatorsEnd(a, 0), SeparatorsEnd(b, 0);
       if At(a, i) == '~' == At(b, j) then i + 1 < |a| && j + 1 < |b| && !IsAlnum(a[i + 1])
       else At(b, j) != '~' && i == |a|
  }

  lemma {:induction false} SetStays(a: string, apos: nat, b: string, bpos: nat, segs: Segments)
    requires apos <= |a| && bpos <= |b| && segs.Segments? && segs.aseg <= apos && segs.bseg <= bpos
    ensures Compared(a, apos, b, bpos, segs) != Unset
    decreases |a| - apos, 1
  {
    hide RunEnd, ComparedFrom;
    if apos < |a| && bpos < |b| {
      var i, j := SeparatorsEnd(a, apos), SeparatorsEnd(b, bpos);
      if At(a, i) == '~' == At(b, j) {
        if i + 1 < |a| && j + 1 < |b| {
          SetStaysFrom(a, i + 1, b, j + 1, segs, apos);
        }
      } else if At(a, i) != '~' && At(b, j) != '~' {
        SetStaysFrom(a, i, b, j, segs, apos);
      }
    }
  }

  /** A segment taken in a round is never forgotten. */
  lemma {:induction false} SetStaysFrom(a: string, i: nat, b: string, j: nat, segs: Segments, was: nat)
    requires was <= i <= |a| && was < |a| && j <= |b| && (segs.Segments? ==> segs.aseg <= i && segs.bseg <= j)
    requires i == was ==> IsAlnum(a[i])
    ensures ComparedFrom(a, i, b, j, segs, was) == Unset <==> Take(a, i, b, j, segs).segs.NoSegments?
    decreases |a| - was, 0
  {
    hide Compared, Take, CompareSegment;
    var t := Take(a, i, b, j, segs);
    if t.segs.Segments? {
      SetStays(a, t.apos, b, t.bpos, Segments(t.apos, t.bpos));
    }
  }

  /** Exactly when the comparison reads a bound that was never set. */
  lemma UnsetExactly(a: string, b: string)
    ensures Verdict(a, b) == Unset <==> a != b && StartsBare(a, b)
  {
    hide RunEnd, ComparedFrom;
    if a != b && a != [] && b != [] {
      var i, j := SeparatorsEnd(a, 0), SeparatorsEnd(b, 0);
      if At(a, i) == '~' == At(b, j) {
        if i + 1 < |a| && j + 1 < |b| {
          SetStaysFrom(a, i + 1, b, j + 1, NoSegments, 0);
        }
      } else if At(a, i) != '~' && At(b, j) != '~' {
        SetStaysFrom(a, i, b, j, NoSegments, 0);
      }
    }
  }

  predicate AllLetters(s: string) {
    forall i :: 0 <= i < |s| ==> IsLetter(s[i])
  }

  lemma LettersBehindDigits(d: string, w: string)
    requires d != [] && w != [] && AllDigits(d) && AllLetters(w)
    ensures var s := d + w;
            && IsDigit(At(s, 0)) && SeparatorsEnd(s, 0) == 0
            && DigitsEnd(s, 0) == |d| && IsLetter(At(s, |d|)) && LettersEnd(s, |d|) == |s| && s[|d|..] == w
  {
    hide RunEnd;
    var s := d + w;
    assert forall k :: |d| <= k < |s| ==> s[k] == w[k - |d|];
    RunEndIs(s, 0, IsSeparator, 0);
    RunEndIs(s, 0, IsDigit, |d|);
    RunEndIs(s, |d|, IsLetter, |s|);
  }

  lemma {:induction false} RunEndIs(s: string, i: nat, inRun: char -> bool, j: nat)
    requires i <= j <= |s| && (j < |s| ==> !inRun(s[j])) && forall k :: i <= k < j ==> inRun(s[k])
    ensures RunEnd(s, i, inRun) == j
    decreases j - i
  {
    if i < j {
      RunEndIs(s, i + 1, inRun, j);
    }
  }

  /** Digits with letters just behind them are passed over: "1a" and "2a" are the same version. */
  lemma {:induction false} DigitsPassedOver(d: string, e: string, w: string, x: string)
    requires d != [] && e != [] && w != [] && x != []
    requires AllDigits(d) && AllDigits(e) && AllLetters(w) && AllLetters(x)
    ensures Verdict(d + w, e + x) == Ordered(CompareText(w, x))
  {
    hide RunEnd, CompareText, Compared;
    var a, b := d + w, e + x;
    LettersBehindDigits(d, w);
    LettersBehindDigits(e, x);
    TextOrder(w, x);
    if a == b {
      assert w == a[DigitsEnd(a, 0)..] == x;
    } else {
      assert a[|d|..|a|] == w && b[|e|..|b|] == x;
      RoundBegins(a, 0, b, 0, NoSegments);
      UsedUp(a, |a|, b, |b|, Segments(|a|, |b|));
    }
  }

  /** Then the order is not antisymmetric: each of "1" and "2a" is older than the other. */
  lemma BothOlder()
    ensures Verdict("1", "2a") == Verdict("2a", "1") == Ordered(-1)
  {
    hide RunEnd, Compared, CompareSegment, StripZeros;
    var a, b := "1", "2a";
    LettersBehindDigits("2", "a");
    assert "2" + "a" == b;
    RunEndIs(a, 0, IsSeparator, 0);
    RunEndIs(a, 0, IsDigit, 1);
    RunEndIs(a, 1, IsLetter, 1);
    assert Verdict(b, a) == Ordered(-1) by { RoundBegins(b, 0, a, 0, NoSegments); }
    assert a[0..1] == "1" && b[0..1] == "2";
    assert CompareSegment("1", "2", true) == -1 by { DigitsCompareAsNumbers("1", "2"); OneDigit('1'); OneDigit('2'); }
    RoundBegins(a, 0, b, 0, NoSegments);
  }

  /** A separator at the end counts: "1." is newer than "1". */
  lemma SeparatorAtEnd()
    ensures Verdict("1.", "1") == Ordered(1)
  {
    hide RunEnd, Compared, CompareSegment;
    var a, b := "1.", "1";
    RunEndIs(a, 0, IsSeparator, 0);
    RunEndIs(b, 0, IsSeparator, 0);
    RunEndIs(a, 0, IsDigit, 1);
    RunEndIs(b, 0, IsDigit, 1);
    assert a[0..1] == "1" == b[0..1];
    DigitsCompareAsNumbers("1", "1");
    RoundBegins(a, 0, b, 0, NoSegments);
    UsedUp(a, 1, b, 1, Segments(1, 1));
  }
}
