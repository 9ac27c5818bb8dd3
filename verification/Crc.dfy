/** The CRC-32 of RFC 1952: the shift register of section 8, fed bit by bit, and the
    table-driven form that the compressor uses. */
module Crc {
  import opened Bytes

  function Xor(x: bv32, y: bv32): (r: bv32) { x ^ y }
  function Half(x: bv32): (r: bv32) { x >> 1 }
  predicate Odd(x: bv32) { x & 1 == 1 }

  const POLYNOMIAL: bv32 := 0xedb88320
  const ONES: bv32 := 0xffffffff

  /* ---- the register ---- */

  function Shift(c: bv32): (r: bv32) {
    if Odd(c) then Xor(POLYNOMIAL, Half(c)) else Half(c)
  }

  /** One message bit enters at the low end. */
  function FeedBit(c: bv32, bit: bool): (r: bv32) {
    Shift(if bit then Xor(c, 1) else c)
  }

  function FeedBits(c: bv32, bits: seq<bool>): (r: bv32)
    decreases |bits|
  {
    if bits == [] then c else FeedBits(FeedBit(c, bits[0]), bits[1..])
  }

  function Widened(b: byte): (r: bv32) {
    b as bv32
  }

  /** The low `k` bits, the least significant first. */
  function LowBits(b: bv32, k: nat): (r: seq<bool>)
    decreases k
  {
    if k == 0 then [] else [Odd(b)] + LowBits(Half(b), k - 1)
  }

  function MessageBits(s: Text): (r: seq<bool>) {
    if s == [] then [] else MessageBits(s[..|s| - 1]) + LowBits(Widened(s[|s| - 1]), 8)
  }

  /** The CRC of a message: the register starts with ones and is complemented at the end. */
  function CrcOf(s: Text): (r: bv32) {
    Xor(FeedBits(ONES, MessageBits(s)), ONES)
  }

  /* ---- the table ---- */

  function Shifts(c: bv32, k: nat): (r: bv32)
    decreases k
  {
    if k == 0 then c else Shift(Shifts(c, k - 1))
  }

  function LowByte(x: bv32): (r: bv32) { x & 0xff }
  function Rest(x: bv32): (r: bv32) { x & 0xffffff00 }
  function Shr8(x: bv32): (r: bv32) { x >> 8 }

  function TableStep(c: bv32, b: byte): (r: bv32) {
    Xor(Shifts(LowByte(Xor(c, Widened(b))), 8), Shr8(c))
  }

  function TableSteps(c: bv32, s: Text): (r: bv32) {
    if s == [] then c else TableStep(TableSteps(c, s[..|s| - 1]), s[|s| - 1])
  }

  /* ---- words ---- */

  lemma HalfXor(x: bv32, y: bv32)
    ensures Half(Xor(x, y)) == Xor(Half(x), Half(y))
  {
    assert (x ^ y) >> 1 == (x >> 1) ^ (y >> 1);
  }

  lemma OddXor(x: bv32, y: bv32)
    ensures Odd(Xor(x, y)) <==> Odd(x) != Odd(y)
  {
    assert (x ^ y) & 1 == (x & 1) ^ (y & 1);
  }

  lemma XorCancels(p: bv32, x: bv32, y: bv32)
    ensures Xor(Xor(p, x), Xor(p, y)) == Xor(x, y)
  {
    assert (p ^ x) ^ (p ^ y) == x ^ y;
  }

  lemma XorAssociates(x: bv32, y: bv32, z: bv32)
    ensures Xor(Xor(x, y), z) == Xor(x, Xor(y, z))
  {
    assert (x ^ y) ^ z == x ^ (y ^ z);
  }

  lemma XorCommutes(x: bv32, y: bv32)
    ensures Xor(x, y) == Xor(y, x)
  {
    assert x ^ y == y ^ x;
  }

  lemma XorZero(x: bv32)
    ensures Xor(x, 0) == x
  {
    assert x ^ 0 == x;
  }

  lemma One()
    ensures Odd(1) && Half(1) == 0 && Half(0) == 0 && !Odd(0)
  {
  }

  /* ---- shifting respects exclusive or ---- */

  lemma ShiftLinear(x: bv32, y: bv32)
    ensures Shift(Xor(x, y)) == Xor(Shift(x), Shift(y))
  {
    hide Xor, Half, Odd;
    HalfXor(x, y);
    OddXor(x, y);
    XorCancels(POLYNOMIAL, Half(x), Half(y));
    XorAssociates(POLYNOMIAL, Half(x), Half(y));
    XorAssociates(POLYNOMIAL, Half(y), Half(x));
    XorCommutes(Half(x), Half(y));
    XorCommutes(Half(x), Shift(y));
  }

  lemma {:induction false} ShiftsLinear(x: bv32, y: bv32, k: nat)
    ensures Shifts(Xor(x, y), k) == Xor(Shifts(x, k), Shifts(y, k))
    decreases k
  {
    hide Xor, Shift;
    if k > 0 {
      ShiftsLinear(x, y, k - 1);
      ShiftLinear(Shifts(x, k - 1), Shifts(y, k - 1));
    }
  }

  /** A bit may as well wait inside the register. */
  lemma FeedBitIsShift(c: bv32, b: bv32)
    ensures Xor(FeedBit(c, Odd(b)), Half(b)) == Shift(Xor(c, b))
  {
    hide Xor, Half, Odd;
    One();
    HalfXor(c, b);
    OddXor(c, b);
    HalfXor(c, 1);
    OddXor(c, 1);
    XorZero(Half(c));
    XorAssociates(POLYNOMIAL, Half(c), Half(b));
  }

  function Halves(x: bv32, k: nat): (r: bv32)
    decreases k
  {
    if k == 0 then x else Halves(Half(x), k - 1)
  }

  lemma ShiftsFirst(c: bv32, k: nat)
    requires k > 0
    ensures Shifts(c, k) == Shifts(Shift(c), k - 1)
    decreases k
  {
    hide Shift;
    if k > 1 {
      ShiftsFirst(c, k - 1);
    }
  }

  lemma {:induction false} FeedingIsShifting(c: bv32, b: bv32, k: nat)
    ensures Xor(FeedBits(c, LowBits(b, k)), Halves(b, k)) == Shifts(Xor(c, b), k)
    decreases k
  {
    hide Xor, Half, Odd, Shift;
    if k > 0 {
      var c', b' := FeedBit(c, Odd(b)), Half(b);
      assert LowBits(b, k)[0] == Odd(b) && LowBits(b, k)[1..] == LowBits(b', k - 1);
      FeedBitIsShift(c, b);
      FeedingIsShifting(c', b', k - 1);
      ShiftsFirst(Xor(c, b), k);
    }
  }

  /* ---- eight shifts at a time ---- */

  predicate Clear(z: bv32, k: nat)
    decreases k
  {
    k == 0 || (!Odd(z) && Clear(Half(z), k - 1))
  }

  lemma {:induction false} ClearShifts(z: bv32, k: nat)
    requires Clear(z, k)
    ensures Shifts(z, k) == Halves(z, k)
    decreases k
  {
    hide Xor, Half, Odd;
    if k > 0 {
      ShiftsFirst(z, k);
      ClearShifts(Half(z), k - 1);
    }
  }

  function Eighth(z: bv32): (r: bv32) {
    Half(Half(Half(Half(Half(Half(Half(Half(z))))))))
  }

  lemma {:induction false} HalvesEight(z: bv32)
    ensures Halves(z, 8) == Eighth(z)
  {
    hide Half;
    assert Halves(z, 8) == Halves(Half(Half(Half(Half(z)))), 4);
  }

  lemma EighthIsShr8(z: bv32)
    ensures Eighth(z) == Shr8(z)
  {
    assert ((((((((z >> 1) >> 1) >> 1) >> 1) >> 1) >> 1) >> 1) >> 1) == z >> 8;
  }

  lemma RestClear(x: bv32)
    ensures Clear(Rest(x), 8)
  {
    var z := x & 0xffffff00;
    assert z & 1 == 0;
    assert (z >> 1) & 1 == 0;
    assert ((z >> 1) >> 1) & 1 == 0;
    assert (((z >> 1) >> 1) >> 1) & 1 == 0;
    assert ((((z >> 1) >> 1) >> 1) >> 1) & 1 == 0;
    assert (((((z >> 1) >> 1) >> 1) >> 1) >> 1) & 1 == 0;
    assert ((((((z >> 1) >> 1) >> 1) >> 1) >> 1) >> 1) & 1 == 0;
    assert (((((((z >> 1) >> 1) >> 1) >> 1) >> 1) >> 1) >> 1) & 1 == 0;
  }

  lemma Parts(x: bv32)
    ensures Xor(LowByte(x), Rest(x)) == x && Shr8(Rest(x)) == Shr8(x)
  {
    assert (x & 0xff) ^ (x & 0xffffff00) == x;
    assert (x & 0xffffff00) >> 8 == x >> 8;
  }

  lemma Shr8Xor(x: bv32, y: bv32)
    ensures Shr8(Xor(x, y)) == Xor(Shr8(x), Shr8(y))
  {
    assert (x ^ y) >> 8 == (x >> 8) ^ (y >> 8);
  }

  lemma ByteFits(b: byte)
    ensures Widened(b) <= 0xff
  {
  }

  lemma NothingAbove(b: byte)
    ensures Shr8(Widened(b)) == 0
  {
    ByteFits(b);
    SmallShr8(Widened(b));
  }

  lemma SmallShr8(x: bv32)
    requires x <= 0xff
    ensures Shr8(x) == 0
  {
    assert x >> 8 == 0;
  }

  /** One table step is eight steps of the register. */
  lemma {:induction false} TableStepFeeds(c: bv32, b: byte)
    ensures TableStep(c, b) == FeedBits(c, LowBits(Widened(b), 8))
  {
    hide Xor, Half, Odd, Shift, Shr8, LowByte, Rest, Widened, Halves, Clear, Eighth, Shifts, FeedBits, LowBits;
    var w := Widened(b);
    var x := Xor(c, w);
    FeedingIsShifting(c, w, 8);
    HalvesEight(w);
    EighthIsShr8(w);
    NothingAbove(b);
    XorZero(FeedBits(c, LowBits(w, 8)));
    Parts(x);
    ShiftsLinear(LowByte(x), Rest(x), 8);
    RestClear(x);
    ClearShifts(Rest(x), 8);
    HalvesEight(Rest(x));
    EighthIsShr8(Rest(x));
    Shr8Xor(c, w);
    XorZero(Shr8(c));
  }

  lemma {:induction false} FeedBitsAppend(c: bv32, s: seq<bool>, t: seq<bool>)
    ensures FeedBits(c, s + t) == FeedBits(FeedBits(c, s), t)
    decreases |s|
  {
    hide FeedBit;
    if s == [] {
      assert s + t == t;
    } else {
      assert (s + t)[1..] == s[1..] + t;
      FeedBitsAppend(FeedBit(c, s[0]), s[1..], t);
    }
  }

  /** The table-driven update is the shift register, for every byte string. */
  lemma {:induction false} TableIsRegister(c: bv32, s: Text)
    ensures TableSteps(c, s) == FeedBits(c, MessageBits(s))
    decreases |s|
  {
    hide TableStep, FeedBits, LowBits, Widened;
    if s == [] {
      NoBits(c);
    } else {
      var n := |s| - 1;
      TableIsRegister(c, s[..n]);
      TableStepFeeds(TableSteps(c, s[..n]), s[n]);
      FeedBitsAppend(c, MessageBits(s[..n]), LowBits(Widened(s[n]), 8));
    }
  }

  lemma {:induction false} NoBits(c: bv32)
    ensures FeedBits(c, []) == c
  {
  }

  lemma {:induction false} TableStepsAppend(c: bv32, s: Text, t: Text)
    ensures TableSteps(c, s + t) == TableSteps(TableSteps(c, s), t)
    decreases |t|
  {
    hide TableStep;
    if t == [] {
      assert s + t == s;
    } else {
      var n := |t| - 1;
      assert (s + t)[..|s + t| - 1] == s + t[..n];
      TableStepsAppend(c, s, t[..n]);
    }
  }

  /* ---- the running value ---- */

  /** The value after one more block, complemented before and after. */
  function Updated(crc: bv32, s: Text): (r: bv32) {
    Xor(TableSteps(Xor(crc, ONES), s), ONES)
  }

  lemma XorTwice(x: bv32)
    ensures Xor(Xor(x, ONES), ONES) == x
  {
    assert (x ^ 0xffffffff) ^ 0xffffffff == x;
  }

  lemma OnesFromZero()
    ensures Xor(0, ONES) == ONES
  {
  }

  lemma UpdatedAppend(crc: bv32, s: Text, t: Text)
    ensures Updated(Updated(crc, s), t) == Updated(crc, s + t)
  {
    hide Xor;
    XorTwice(TableSteps(Xor(crc, ONES), s));
    TableStepsAppend(Xor(crc, ONES), s, t);
  }

  lemma UpdatedFromZero(s: Text)
    ensures Updated(0, s) == CrcOf(s)
  {
    hide Xor;
    OnesFromZero();
    TableIsRegister(ONES, s);
  }

  /* ---- known values ---- */

  lemma ShiftsOn(c: bv32, d: bv32, k: nat)
    requires k > 0 && Shifts(c, k - 1) == d
    ensures Shifts(c, k) == Shift(d)
  {
  }

  lemma {:induction false} NoShifts(c: bv32)
    ensures Shifts(c, 0) == c
  {
  }

  lemma EntryOfOne()
    ensures Shifts(0x1, 8) == 0x77073096
  {
    hide Shifts;
    NoShifts(0x1);
    assert Shift(0x00000001) == 0xedb88320;
    ShiftsOn(0x1, 0x00000001, 1);
    assert Shift(0xedb88320) == 0x76dc4190;
    ShiftsOn(0x1, 0xedb88320, 2);
    assert Shift(0x76dc4190) == 0x3b6e20c8;
    ShiftsOn(0x1, 0x76dc4190, 3);
    assert Shift(0x3b6e20c8) == 0x1db71064;
    ShiftsOn(0x1, 0x3b6e20c8, 4);
    assert Shift(0x1db71064) == 0x0edb8832;
    ShiftsOn(0x1, 0x1db71064, 5);
    assert Shift(0x0edb8832) == 0x076dc419;
    ShiftsOn(0x1, 0x0edb8832, 6);
    assert Shift(0x076dc419) == 0xee0e612c;
    ShiftsOn(0x1, 0x076dc419, 7);
    assert Shift(0xee0e612c) == 0x77073096;
    ShiftsOn(0x1, 0xee0e612c, 8);
  }

  lemma EntryOfLast()
    ensures Shifts(0xff, 8) == 0x2d02ef8d
  {
    hide Shifts;
    NoShifts(0xff);
    assert Shift(0x000000ff) == 0xedb8835f;
    ShiftsOn(0xff, 0x000000ff, 1);
    assert Shift(0xedb8835f) == 0x9b64c28f;
    ShiftsOn(0xff, 0xedb8835f, 2);
    assert Shift(0x9b64c28f) == 0xa00ae267;
    ShiftsOn(0xff, 0x9b64c28f, 3);
    assert Shift(0xa00ae267) == 0xbdbdf213;
    ShiftsOn(0xff, 0xa00ae267, 4);
    assert Shift(0xbdbdf213) == 0xb3667a29;
    ShiftsOn(0xff, 0xbdbdf213, 5);
    assert Shift(0xb3667a29) == 0xb40bbe34;
    ShiftsOn(0xff, 0xb3667a29, 6);
    assert Shift(0xb40bbe34) == 0x5a05df1a;
    ShiftsOn(0xff, 0xb40bbe34, 7);
    assert Shift(0x5a05df1a) == 0x2d02ef8d;
    ShiftsOn(0xff, 0x5a05df1a, 8);
  }

  lemma EntryOfA()
    ensures Shifts(0x9e, 8) == 0x17b7be43
  {
    hide Shifts;
    NoShifts(0x9e);
    assert Shift(0x0000009e) == 0x0000004f;
    ShiftsOn(0x9e, 0x0000009e, 1);
    assert Shift(0x0000004f) == 0xedb88307;
    ShiftsOn(0x9e, 0x0000004f, 2);
    assert Shift(0xedb88307) == 0x9b64c2a3;
    ShiftsOn(0x9e, 0xedb88307, 3);
    assert Shift(0x9b64c2a3) == 0xa00ae271;
    ShiftsOn(0x9e, 0x9b64c2a3, 4);
    assert Shift(0xa00ae271) == 0xbdbdf218;
    ShiftsOn(0x9e, 0xa00ae271, 5);
    assert Shift(0xbdbdf218) == 0x5edef90c;
    ShiftsOn(0x9e, 0xbdbdf218, 6);
    assert Shift(0x5edef90c) == 0x2f6f7c86;
    ShiftsOn(0x9e, 0x5edef90c, 7);
    assert Shift(0x2f6f7c86) == 0x17b7be43;
    ShiftsOn(0x9e, 0x2f6f7c86, 8);
  }

  /** The table's entries for 1 and 255 in RFC 1952, the CRC of nothing, and that of the
      letter a, which is 0xe8b7be43. */
  lemma KnownValues()
    ensures Shifts(1, 8) == 0x77073096 && Shifts(255, 8) == 0x2d02ef8d
    ensures CrcOf([]) == 0 && CrcOf([97]) == 0xe8b7be43
  {
    hide Shifts, CrcOf, Xor, Shr8, LowByte, Widened;
    EntryOfOne();
    EntryOfLast();
    EntryOfA();
    UpdatedFromZero([]);
    UpdatedFromZero([97]);
    assert [97][..0] == [];
    WordsOfA();
  }

  lemma WordsOfA()
    ensures Xor(0, ONES) == ONES && Xor(ONES, ONES) == 0
    ensures LowByte(Xor(ONES, Widened(97))) == 0x9e && Shr8(ONES) == 0x00ffffff
    ensures Xor(Xor(0x17b7be43, 0x00ffffff), ONES) == 0xe8b7be43
  {
  }

  /* ---- the code ---- */

  predicate IsTable(table: seq<bv32>) {
    |table| == 256 && forall n :: 0 <= n < 256 ==> table[n] == Shifts(Widened(n), 8)
  }

  method BuildTable() returns (table: array<bv32>)
    ensures fresh(table) && IsTable(table[..])
  {
    hide Xor, Half, Odd, Widened;
    table := new bv32[256];
    for n := 0 to 256
      invariant forall j :: 0 <= j < n ==> table[j] == Shifts(Widened(j), 8)
    {
      var c := Widened(n);
      for k := 0 to 8
        invariant c == Shifts(Widened(n), k)
      {
        if Odd(c) {
          c := Xor(POLYNOMIAL, Half(c));
        } else {
          c := Half(c);
        }
      }
      table[n] := c;
    }
  }

  function Index(x: bv32): (n: nat)
    ensures n < 256 && Widened(n) == LowByte(x)
  {
    SmallBack(LowByte(x));
    LowByte(x) as nat
  }

  lemma SmallBack(y: bv32)
    requires y <= 0xff
    ensures (y as int) as bv32 == y && 0 <= (y as int) < 256
  {
  }

  method UpdateCrc(table: array<bv32>, crc: bv32, buf: Text) returns (crc': bv32)
    requires IsTable(table[..])
    ensures crc' == Updated(crc, buf)
  {
    hide Xor, Shr8, Widened, Shifts, LowByte;
    var c := Xor(crc, ONES);
    for n := 0 to |buf|
      invariant c == TableSteps(Xor(crc, ONES), buf[..n])
    {
      var i := Index(Xor(c, Widened(buf[n])));
      assert table[i] == table[..][i];
      assert buf[..n + 1][..n] == buf[..n];
      c := Xor(table[i], Shr8(c));
    }
    assert buf[..|buf|] == buf;
    crc' := Xor(c, ONES);
  }
}
