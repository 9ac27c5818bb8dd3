/** Which versions compare like their tokens: plain ones, and no others. */
module VersionsExact {
  import opened CharText
  import opened Versions

  ghost predicate Agrees(a: string, b: string) {
    Verdict(a, b) == Ordered(Compare(Tokens(a, 0), Tokens(b, 0)))
  }

  /* ---- one round of the loop ---- */

  /** What the loop remembers between rounds, the beginning aside. */
  function After(p: nat): (segs: Segments) {
    if p == 0 then NoSegments else Segments(p, p)
  }

  /** The next round from p passes the separators up to i and a tilde, if there is one,
      and takes the token from j to e. */
  predicate Round(s: string, p: nat, i: nat, j: nat, e: nat) {
    && p <= i <= j < e <= |s| && SeparatorsEnd(s, p) == i
    && j == (if s[i] == '~' then i + 1 else i)
    && IsAlnum(s[j]) && e == TokenEnd(s, j)
  }

  function TokenEnd(s: string, j: nat): (e: nat)
    requires j < |s|
    ensures e <= |s|
  {
    if IsDigit(s[j]) then DigitsEnd(s, j) else LettersEnd(s, j)
  }

  /** A token ends at p, and y does not go on with it. */
  predicate Joins(s: string, p: nat, y: string)
    requires p <= |s|
  {
    p == 0
    || (IsAlnum(s[p - 1]) && (y == [] || !IsAlnum(y[0]) || (IsLetter(s[p - 1]) && IsDigit(y[0]))))
  }

  lemma RoundShared(a: string, b: string, p: nat, i: nat, j: nat, e: nat)
    requires Round(a, p, i, j, e) && e <= |b| && a[..e] == b[..e] && Joins(a, e, b[e..])
    ensures Round(b, p, i, j, e) && (IsDigit(b[j]) ==> !IsLetter(At(b, e)))
  {
    hide RunEnd;
    assert forall k :: 0 <= k < e ==> b[k] == b[..e][k] == a[k];
    RunEndIs(b, p, IsSeparator, i);
    if IsDigit(b[j]) {
      assert IsDigit(a[e - 1]);
      RunEndIs(b, j, IsDigit, e);
    } else {
      assert IsLetter(a[e - 1]);
      RunEndIs(b, j, IsLetter, e);
    }
  }

  lemma SameSegment(s: string, numeric: bool)
    ensures CompareSegment(s, s, numeric) == 0
  {
    TextOrder(s, s);
    TextOrder(StripZeros(s), StripZeros(s));
  }

  /** Two versions alike so far go on behind the token. */
  lemma {:induction false} RoundAdvances(a: string, b: string, p: nat, i: nat, j: nat, e: nat)
    requires Round(a, p, i, j, e) && Round(b, p, i, j, e) && a[..e] == b[..e]
    requires IsDigit(a[j]) ==> !IsLetter(At(a, e))
    ensures Compared(a, p, b, p, After(p)) == Compared(a, e, b, e, Segments(e, e))
  {
    hide RunEnd, Compared, ComparedFrom, CompareSegment;
    assert a[j] == a[..e][j] == b[j] && a[i] == a[..e][i] == b[i];
    assert a[j..e] == a[..e][j..] == b[j..e];
    RoundBegins(a, p, b, p, After(p));
    assert Take(a, j, b, j, After(p)) == Taken(e, e, Segments(j, j));
    RoundEnds(a, j, b, j, After(p), p);
    SameSegment(a[j..e], IsDigit(a[j]));
  }

  function TokenAt(s: string, j: nat): (x: Token)
    requires j < |s|
  {
    if IsDigit(s[j]) then Num(Number(s[j..DigitsEnd(s, j)])) else Word(s[j..LettersEnd(s, j)])
  }

  lemma {:induction false} RoundTokens(s: string, p: nat, i: nat, j: nat, e: nat)
    requires Round(s, p, i, j, e)
    ensures Tokens(s, p) == (if s[i] == '~' then [Tilde] else []) + ([TokenAt(s, j)] + Tokens(s, e))
  {
    hide RunEnd, Number;
    assert SeparatorsEnd(s, j) == j;
    if s[i] != '~' {
      assert [] + Tokens(s, p) == Tokens(s, p);
    }
  }

  lemma {:induction false} TokensAdvance(a: string, b: string, p: nat, i: nat, j: nat, e: nat)
    requires Round(a, p, i, j, e) && Round(b, p, i, j, e) && a[..e] == b[..e]
    ensures Compare(Tokens(a, p), Tokens(b, p)) == Compare(Tokens(a, e), Tokens(b, e))
  {
    hide RunEnd, Tokens, Compare, Number;
    assert a[j] == a[..e][j] == b[j] && a[i] == a[..e][i] == b[i];
    assert a[j..e] == a[..e][j..] == b[j..e];
    RoundTokens(a, p, i, j, e);
    RoundTokens(b, p, i, j, e);
    var x, xs, ys := TokenAt(a, j), Tokens(a, e), Tokens(b, e);
    assert TokenAt(b, j) == x;
    CompareStep(x, xs, x, ys);
    if a[i] == '~' {
      CompareStep(Tilde, [x] + xs, Tilde, [x] + ys);
    } else {
      assert [] + ([x] + xs) == [x] + xs && [] + ([x] + ys) == [x] + ys;
    }
  }

  /** A round before a plain rest is plain. */
  lemma PlainRound(a: string, p: nat, i: nat, j: nat, e: nat, y: string)
    requires Round(a, p, i, j, e) && Plain(y) && Joins(a, e, y)
    ensures Plain(a[p..e] + y)
  {
    hide Round, Joins, IsDigit, IsLetter;
    InRange(a, p, i, j, e);
    var s := a[p..e] + y;
    forall k | 0 <= k < |s| - 1
      ensures (IsDigit(s[k]) ==> !IsLetter(s[k + 1])) && (s[k] == '~' ==> IsAlnum(s[k + 1]))
    {
      if k + p >= e {
        assert s[k] == y[k + p - e] && s[k + 1] == y[k + p - e + 1];
      } else {
        assert s[k] == a[k + p];
        if k + 1 + p < e {
          assert s[k + 1] == a[k + 1 + p];
        } else {
          assert s[k + 1] == y[0];
          JoinsFirst(a, e, y);
        }
        RoundPair(a, p, i, j, e, k + p, s[k + 1]);
      }
    }
    if y == [] {
      assert s[|s| - 1] == a[e - 1];
    } else {
      assert s[|s| - 1] == y[|y| - 1];
    }
  }

  lemma InRange(a: string, p: nat, i: nat, j: nat, e: nat)
    requires Round(a, p, i, j, e)
    ensures p < e <= |a| && IsAlnum(a[e - 1])
  {
    hide RunEnd;
  }

  lemma JoinsFirst(a: string, e: nat, y: string)
    requires e <= |a| && y != [] && Joins(a, e, y)
    ensures Joins(a, e, [y[0]])
  {
  }

  lemma RoundPair(a: string, p: nat, i: nat, j: nat, e: nat, k: nat, next: char)
    requires Round(a, p, i, j, e) && p <= k < e
    requires if k + 1 < e then next == a[k + 1] else Joins(a, e, [next])
    ensures (IsDigit(a[k]) ==> !IsLetter(next)) && (a[k] == '~' ==> IsAlnum(next))
  {
    hide RunEnd;
    if k < i {
      assert IsSeparator(a[k]);
    }
  }

  /* ---- a version that is not plain misses some plain one ---- */

  /** Nothing but separators is left. */
  lemma {:induction false} OnlySeparators(a: string, p: nat)
    requires p < |a| && SeparatorsEnd(a, p) == |a|
    ensures Compared(a, p, a[..p], p, After(p)) == Ordered(1)
    ensures Compare(Tokens(a, p), Tokens(a[..p], p)) == 0
  {
    hide RunEnd, ComparedFrom;
    TokensEnd(a[..p]);
  }

  /** A letter just behind the digits. */
  lemma {:induction false} LetterBehind(a: string, p: nat, i: nat, j: nat, e: nat)
    requires Round(a, p, i, j, e) && IsDigit(a[j]) && e < |a| && IsLetter(a[e])
    ensures Compared(a, p, a[..e], p, After(p)) == Ordered(-1)
    ensures Compare(Tokens(a, p), Tokens(a[..e], p)) == 1
  {
    hide RunEnd, Compared, ComparedFrom, CompareSegment, Tokens, Compare;
    var b := a[..e];
    assert b[e..] == [] && b[..e] == a[..e];
    RoundShared(a, b, p, i, j, e);
    RoundBegins(a, p, b, p, After(p));
    RunEndIs(b, e, IsLetter, e);
    assert Take(a, j, b, j, After(p)) == Taken(LettersEnd(a, e), e, Segments(e, e));
    RoundEnds(a, j, b, j, After(p), p);
    TokensAdvance(a, b, p, i, j, e);
    TokensEnd(b);
    WordAt(a, e);
    LongerIsNewer(Tokens(a, e));
  }

  lemma {:induction false} LongerIsNewer(x: seq<Token>)
    requires x != []
    ensures Compare(x, []) == 1
  {
  }

  /** A tilde in the first round with neither a letter nor a digit behind it. */
  lemma {:induction false} BareAtFirst(a: string, i: nat, y: string)
    requires SeparatorsEnd(a, 0) == i && i + 1 < |a| && a[i] == '~' && !IsAlnum(a[i + 1])
    requires y == a[..i] + "~1"
    ensures Plain(y) && Compared(a, 0, y, 0, NoSegments) == Unset
  {
    hide RunEnd, Compared, ComparedFrom;
    assert forall k :: 0 <= k < i ==> y[k] == a[k] && IsSeparator(a[k]);
    assert y[i] == '~' && y[i + 1] == '1';
    RunEndIs(y, 0, IsSeparator, i);
    RoundBegins(a, 0, y, 0, NoSegments);
    RoundEnds(a, i + 1, y, i + 1, NoSegments, 0);
  }

  lemma {:induction false} TextShared(s: string, x: string, y: string)
    ensures CompareText(s + x, s + y) == CompareText(x, y)
    decreases s
  {
    if s == [] {
      assert s + x == x && s + y == y;
    } else {
      assert (s + x)[1..] == s[1..] + x && (s + y)[1..] == s[1..] + y;
      TextShared(s[1..], x, y);
    }
  }

  /** Digits of a number larger than the first token, if that is a number. */
  function Larger(s: string, i: nat): (d: string)
    requires i <= |s|
    ensures d != [] && AllDigits(d)
  {
    var k := SeparatorsEnd(s, i);
    if k < |s| && IsDigit(s[k]) then "1" + s[k..DigitsEnd(s, k)] else "1"
  }

  lemma {:induction false} LargerIsNewer(s: string, i: nat)
    requires i <= |s|
    ensures Compare(Tokens(s, i), [Num(Number(Larger(s, i)))]) == -1
  {
    hide RunEnd, Number, CompareText;
    var k, x := SeparatorsEnd(s, i), Num(Number(Larger(s, i)));
    if k < |s| && IsDigit(s[k]) {
      var text := s[k..DigitsEnd(s, k)];
      FirstDigit("1" + text);
      assert ("1" + text)[1..] == text;
    }
    if Tokens(s, i) != [] {
      var y := Tokens(s, i)[0];
      assert Tokens(s, i) == [y] + Tokens(s, i)[1..] && [x] == [x] + [];
      CompareStep(y, Tokens(s, i)[1..], x, []);
    }
  }

  /** The other version: one separator more before the tilde, and a large number. */
  function Bent(a: string, p: nat, i: nat): (y: string)
    requires p <= i < |a|
  {
    a[p..i] + ("." + ("~" + Larger(a, i + 1)))
  }

  lemma BentReads(a: string, p: nat, i: nat)
    requires p <= i < |a| && SeparatorsEnd(a, p) == i
    ensures var (y, d) := (Bent(a, p, i), Larger(a, i + 1));
            && |y| == i - p + 2 + |d| && y[i - p] == '.' && y[i - p + 1] == '~' && y[i - p + 2..] == d
            && (forall k :: 0 <= k <= i - p ==> IsSeparator(y[k]))
            && (forall k :: i - p + 2 <= k < |y| ==> IsDigit(y[k]))
  {
    hide RunEnd, Larger;
    var (y, d) := (Bent(a, p, i), Larger(a, i + 1));
    assert y[i - p + 2..] == d;
    forall k | i - p + 2 <= k < |y| ensures IsDigit(y[k]) {
      assert y[k] == d[k - (i - p + 2)];
    }
    forall k | 0 <= k < i - p ensures IsSeparator(y[k]) {
      assert y[k] == a[p + k];
    }
  }

  lemma BentIsPlain(a: string, p: nat, i: nat)
    requires p <= i < |a| && SeparatorsEnd(a, p) == i
    ensures Plain(Bent(a, p, i)) && !IsAlnum(Bent(a, p, i)[0])
  {
    hide RunEnd, Larger, Bent;
    BentReads(a, p, i);
  }

  lemma BentRound(a: string, p: nat, i: nat)
    requires p <= i < |a| && SeparatorsEnd(a, p) == i && a[i] == '~'
    ensures var b := a[..p] + Bent(a, p, i);
            && i + 2 < |b| && Round(b, p, i + 1, i + 2, |b|) && b[i + 1] == '~' && IsDigit(b[i + 2])
            && b[p..i + 2] == a[p..i] + ".~" && b[i + 2..] == Larger(a, i + 1)
  {
    hide RunEnd, Larger;
    var y := Bent(a, p, i);
    var b := a[..p] + y;
    BentReads(a, p, i);
    hide Bent;
    assert forall k :: p <= k < |b| ==> b[k] == y[k - p];
    RunEndIs(b, p, IsSeparator, i + 1);
    RunEndIs(b, i + 2, IsDigit, |b|);
    assert b[i + 2..] == y[i - p + 2..];
    assert b[p..i + 2] == a[p..i] + ".~" by { BentStarts(a, p, i); }
  }

  lemma BentStarts(a: string, p: nat, i: nat)
    requires p <= i < |a|
    ensures i + 2 <= |a[..p] + Bent(a, p, i)| && (a[..p] + Bent(a, p, i))[p..i + 2] == a[p..i] + ".~"
  {
    hide Larger;
  }

  /** A tilde with neither a letter nor a digit behind it: the comparison looks at the
      separators before it. */
  lemma {:induction false} BareLater(a: string, p: nat, i: nat)
    requires 0 < p <= i && i + 1 < |a| && SeparatorsEnd(a, p) == i && a[i] == '~' && !IsAlnum(a[i + 1])
    ensures var b := a[..p] + Bent(a, p, i);
            && Compared(a, p, b, p, Segments(p, p)) == Ordered(1)
            && Compare(Tokens(a, p), Tokens(b, p)) == -1
  {
    hide RunEnd, Compared, ComparedFrom, Bent, Larger, Tokens, Compare, Number;
    var b := a[..p] + Bent(a, p, i);
    BentRound(a, p, i);
    RoundBegins(a, p, b, p, Segments(p, p));
    RoundEnds(a, i + 1, b, i + 2, Segments(p, p), p);
    assert a[p..i + 1] == a[p..i] + "~";
    TextShared(a[p..i], "~", ".~");
    assert IsSeparator(a[p]) || a[p] == '~';
    RoundTokens(b, p, i + 1, i + 2, |b|);
    TokensEnd(b);
    assert b[i + 2..|b|] == b[i + 2..];
    var x := Num(Number(Larger(a, i + 1)));
    assert Tokens(b, p) == [Tilde] + ([x] + []);
    TildeTokens(a, p, i);
    CompareStep(Tilde, Tokens(a, i + 1), Tilde, [x] + []);
    assert [x] + [] == [x];
    LargerIsNewer(a, i + 1);
  }

  lemma TildeTokens(s: string, p: nat, i: nat)
    requires p <= i < |s| && SeparatorsEnd(s, p) == i && s[i] == '~'
    ensures Tokens(s, p) == [Tilde] + Tokens(s, i + 1)
  {
    hide RunEnd, Number;
  }

  /** Separators and a tilde at the end are plain. */
  lemma TildeAtEnd(a: string, p: nat, i: nat)
    requires p <= i < |a| && SeparatorsEnd(a, p) == i && a[i] == '~' && i + 1 == |a|
    ensures Plain(a[p..])
  {
    hide RunEnd;
    assert forall k :: p <= k < i ==> a[p..][k - p] == a[k] && IsSeparator(a[k]);
  }

  lemma {:induction false} Misses(a: string, p: nat) returns (y: string)
    requires p <= |a| && Joins(a, p, a[p..]) && !Plain(a[p..])
    ensures Plain(y) && Joins(a, p, y)
    ensures var b := a[..p] + y;
            Compared(a, p, b, p, After(p)) != Ordered(Compare(Tokens(a, p), Tokens(b, p)))
    decreases |a| - p
  {
    hide RunEnd, Plain, Compared, Tokens, Compare, Bent;
    NothingIsPlain();
    assert a[p..] != [];
    var i := SeparatorsEnd(a, p);
    if i == |a| {
      y := [];
      assert a[..p] + y == a[..p];
      OnlySeparators(a, p);
    } else if a[i] == '~' && i + 1 < |a| && !IsAlnum(a[i + 1]) {
      if p == 0 {
        y := a[..i] + "~1";
        BareAtFirst(a, i, y);
        assert a[..0] + y == y;
      } else {
        y := Bent(a, p, i);
        BentIsPlain(a, p, i);
        BareLater(a, p, i);
      }
    } else if a[i] == '~' && i + 1 == |a| {
      TildeAtEnd(a, p, i);
      assert false;
    } else {
      y := MissesLater(a, p, i, if a[i] == '~' then i + 1 else i);
    }
  }

  lemma NothingIsPlain()
    ensures Plain([])
  {
  }

  lemma {:induction false} MissesLater(a: string, p: nat, i: nat, j: nat) returns (y: string)
    requires p <= i <= j < |a| && SeparatorsEnd(a, p) == i && j == (if a[i] == '~' then i + 1 else i) && IsAlnum(a[j])
    requires Joins(a, p, a[p..]) && !Plain(a[p..])
    ensures Plain(y) && Joins(a, p, y)
    ensures var b := a[..p] + y;
            Compared(a, p, b, p, After(p)) != Ordered(Compare(Tokens(a, p), Tokens(b, p)))
    decreases |a| - p, 0
  {
    hide RunEnd, Plain, Compared, Tokens, Compare;
    var e := TokenEnd(a, j);
    assert Round(a, p, i, j, e);
    NothingIsPlain();
    if IsDigit(a[j]) && e < |a| && IsLetter(a[e]) {
      y := a[p..e];
      assert IsDigit(a[e - 1]);
      PlainRound(a, p, i, j, e, []);
      assert a[p..e] + [] == y && a[..p] + y == a[..e];
      assert y[0] == a[p] == a[p..][0];
      LetterBehind(a, p, i, j, e);
    } else {
      TokenEnds(a, p, i, j, e);
      assert a[p..] == a[p..e] + a[e..];
      if Plain(a[e..]) {
        PlainRound(a, p, i, j, e, a[e..]);
      }
      var more := Misses(a, e);
      y := a[p..e] + more;
      PlainRound(a, p, i, j, e, more);
      var b := a[..e] + more;
      assert b == a[..p] + y && b[..e] == a[..e] && b[e..] == more;
      assert y[0] == a[p] == a[p..][0];
      RoundShared(a, b, p, i, j, e);
      RoundAdvances(a, b, p, i, j, e);
      TokensAdvance(a, b, p, i, j, e);
    }
  }

  lemma TokenEnds(a: string, p: nat, i: nat, j: nat, e: nat)
    requires Round(a, p, i, j, e) && !(IsDigit(a[j]) && e < |a| && IsLetter(a[e]))
    ensures Joins(a, e, a[e..])
  {
    hide RunEnd;
    assert IsDigit(a[e - 1]) == IsDigit(a[j]);
  }

  /** The comparison with every plain version, from either side, is the order of the
      tokens if and only if the version is plain. */
  lemma PlainExactly(a: string)
    ensures Plain(a) <==> forall b :: Plain(b) ==> Agrees(a, b)
    ensures Plain(a) <==> forall b :: Plain(b) ==> Agrees(a, b) && Agrees(b, a)
  {
    hide Plain, Agrees;
    if Plain(a) {
      forall b | Plain(b) ensures Agrees(a, b) && Agrees(b, a) {
        PlainAgrees(a, b);
        PlainAgrees(b, a);
      }
    } else {
      var b := MissesSome(a);
      assert Plain(b) && !Agrees(a, b);
    }
  }

  lemma PlainAgrees(a: string, b: string)
    requires Plain(a) && Plain(b)
    ensures Agrees(a, b)
  {
    hide Verdict, Compare, Tokens;
    PlainVersionsCompare(a, b);
  }

  lemma MissesSome(a: string) returns (b: string)
    requires !Plain(a)
    ensures Plain(b) && !Agrees(a, b)
  {
    hide Plain, Compared, Compare, Tokens;
    assert a[0..] == a;
    b := Misses(a, 0);
    assert a[..0] + b == b;
  }
}
