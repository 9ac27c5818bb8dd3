/** The order of versions in plain words: which of two numbers, words, tildes and
    beginnings is older. */
module VersionLaws {
  import opened CharText
  import opened Versions

  /* ---- words ---- */

  /** The first different letter decides, capitals first, and a beginning is older. */
  ghost predicate OlderWord(s: string, t: string) {
    s < t || exists k: nat :: FirstDiffers(s, t, k)
  }

  ghost predicate FirstDiffers(s: string, t: string, k: nat) {
    k < |s| && k < |t| && s[..k] == t[..k] && s[k] < t[k]
  }

  lemma OlderTail(s: string, t: string)
    requires s != [] && t != [] && s[0] == t[0]
    ensures OlderWord(s, t) <==> OlderWord(s[1..], t[1..])
  {
    if s[1..] < t[1..] {
      assert s == [s[0]] + s[1..] && t == [t[0]] + t[1..];
      assert s < t;
    }
    if s < t {
      assert s[1..] == t[1..|s|] == t[1..][..|s| - 1];
    }
    if k: nat :| FirstDiffers(s[1..], t[1..], k) {
      assert s[..k + 1] == [s[0]] + s[1..][..k] && t[..k + 1] == [t[0]] + t[1..][..k];
      assert FirstDiffers(s, t, k + 1);
    }
    if k: nat :| FirstDiffers(s, t, k) {
      assert k > 0;
      assert s[1..][..k - 1] == s[..k][1..] && t[1..][..k - 1] == t[..k][1..];
      assert FirstDiffers(s[1..], t[1..], k - 1);
    }
  }

  lemma SharedFirst(s: string, t: string, k: nat)
    requires k <= |s| && k <= |t| && s[..k] == t[..k]
    ensures k > 0 ==> s[0] == t[0]
  {
    if k > 0 {
      assert s[..k][0] == t[..k][0];
    }
  }

  /** The comparison of words is that order. */
  lemma {:induction false} WordsCompare(s: string, t: string)
    requires AllLetters(s) && AllLetters(t)
    ensures CompareText(s, t) == if s == t then 0 else if OlderWord(s, t) then -1 else 1
    decreases |s|
  {
    TextOrder(s, t);
    if s == [] || t == [] {
      assert !exists k: nat :: FirstDiffers(s, t, k);
    } else if s[0] != t[0] {
      assert s[..0] == t[..0] == [];
      assert s[0] < t[0] ==> FirstDiffers(s, t, 0);
      forall k: nat | FirstDiffers(s, t, k) ensures k == 0 {
        SharedFirst(s, t, k);
      }
    } else {
      WordsCompare(s[1..], t[1..]);
      OlderTail(s, t);
      assert s[1..] == t[1..] ==> s == [s[0]] + s[1..] == t;
    }
  }

  /* ---- versions of one part ---- */

  lemma {:induction false} OneNumber(d: string)
    requires d != [] && AllDigits(d)
    ensures Plain(d) && Tokens(d, 0) == [Num(Number(d))]
  {
    hide RunEnd, Number;
    RunEndIs(d, 0, IsDigit, |d|);
    NumberAt(d, 0);
    TokensEnd(d);
    assert d[0..|d|] == d && [Num(Number(d))] + [] == [Num(Number(d))];
  }

  lemma {:induction false} OneWord(w: string)
    requires w != [] && AllLetters(w)
    ensures Plain(w) && Tokens(w, 0) == [Word(w)]
  {
    hide RunEnd, Number;
    RunEndIs(w, 0, IsLetter, |w|);
    WordAt(w, 0);
    TokensEnd(w);
    assert w[0..|w|] == w && [Word(w)] + [] == [Word(w)];
  }

  /** The value of digits, from the left. */
  lemma {:induction false} DigitsMean(d: string, c: char)
    requires AllDigits(d) && IsDigit(c)
    ensures AllDigits(d + [c]) && Number(d + [c]) == 10 * Number(d) + (c as int - 48) && Number([]) == 0
  {
    LastDigit(d, c);
  }

  /** Two numbers compare by value, two words as words, and a number is newer than a word. */
  lemma {:induction false} PartsCompare(d: string, e: string, w: string, x: string)
    requires d != [] && e != [] && AllDigits(d) && AllDigits(e)
    requires w != [] && x != [] && AllLetters(w) && AllLetters(x)
    ensures Verdict(d, e) == Ordered(if Number(d) < Number(e) then -1 else if Number(d) > Number(e) then 1 else 0)
    ensures Verdict(w, x) == Ordered(if w == x then 0 else if OlderWord(w, x) then -1 else 1)
    ensures Verdict(d, w) == Ordered(1) && Verdict(w, d) == Ordered(-1)
  {
    hide Verdict, Tokens, Number, Plain;
    OneNumber(d);
    OneNumber(e);
    OneWord(w);
    OneWord(x);
    PlainVersionsCompare(d, e);
    PlainVersionsCompare(w, x);
    PlainVersionsCompare(d, w);
    PlainVersionsCompare(w, d);
    WordsCompare(w, x);
    SingleParts(Num(Number(d)), Num(Number(e)));
    SingleParts(Word(w), Word(x));
    SingleParts(Num(Number(d)), Word(w));
    SingleParts(Word(w), Num(Number(d)));
  }

  lemma SingleParts(x: Token, y: Token)
    ensures Compare([x], [y]) == CompareToken(x, y)
  {
    TokenOrder(x, y);
    assert [x][1..] == [] && [y][1..] == [];
  }

  /* ---- longer versions ---- */

  /** What comes first decides; a version is newer than its beginning, also when a tilde
      follows; and a tilde is older than anything else that could stand in its place. */
  lemma {:induction false} PlacesCompare(x: seq<Token>, y: seq<Token>, z: seq<Token>, a: Token, b: Token)
    ensures CompareToken(a, b) != 0 ==> Compare(z + [a] + x, z + [b] + y) == CompareToken(a, b)
    ensures x != [] ==> Compare(z + x, z) == 1 && Compare(z, z + x) == -1
    ensures !a.Tilde? ==> CompareToken(Tilde, a) == -1 && CompareToken(a, Tilde) == 1
    ensures a.Num? && b.Word? ==> CompareToken(a, b) == 1 && CompareToken(b, a) == -1
  {
    SharedTokens(z, [a] + x, [b] + y);
    assert z + [a] + x == z + ([a] + x) && z + [b] + y == z + ([b] + y);
    CompareStep(a, x, b, y);
    TokenOrder(a, b);
    SharedTokens(z, x, []);
    SharedTokens(z, [], x);
    assert z + [] == z;
  }

  lemma {:induction false} SharedTokens(z: seq<Token>, x: seq<Token>, y: seq<Token>)
    ensures Compare(z + x, z + y) == Compare(x, y)
    decreases |z|
  {
    hide CompareToken;
    if z == [] {
      assert z + x == x && z + y == y;
    } else {
      assert (z + x)[1..] == z[1..] + x && (z + y)[1..] == z[1..] + y;
      TokenOrder(z[0], z[0]);
      SharedTokens(z[1..], x, y);
    }
  }

  /** The tokens of a version that is put together: separators do not count, a tilde does. */
  lemma {:induction false} TokensJoin(d: string, rest: string, c: char)
    requires d != [] && AllDigits(d) && !IsAlnum(c)
    ensures Tokens(d + [c] + rest, 0) ==
            [Num(Number(d))] + (if c == '~' then [Tilde] else []) + Tokens(d + [c] + rest, |d| + 1)
  {
    hide RunEnd, Number;
    var s := d + [c] + rest;
    assert forall k :: 0 <= k < |d| ==> s[k] == d[k];
    assert s[|d|] == c && s[..|d|] == d;
    RunEndIs(s, 0, IsDigit, |d|);
    NumberAt(s, 0);
    assert s[0..|d|] == d;
    if c == '~' {
      TildeAt(s, |d|);
    } else {
      SeparatorSkipped(s, |d|);
    }
  }

  lemma SeparatorSkipped(s: string, i: nat)
    requires i < |s| && IsSeparator(s[i])
    ensures Tokens(s, i) == Tokens(s, i + 1)
  {
    hide Number;
    var j := SeparatorsEnd(s, i + 1);
    assert SeparatorsEnd(s, i) == j;
  }
}
