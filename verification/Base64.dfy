/** The base64 coder of the archive code: bit-by-bit loops over characters, proved
    against the 24-bit groups of section 4 of RFC 4648. */
module Base64 {

  type Data = seq<bv8>

  /* ---- the alphabet ---- */

  predicate InAlphabet(c: char) {
    'A' <= c <= 'Z' || 'a' <= c <= 'z' || '0' <= c <= '9' || c == '+' || c == '/'
  }

  /** The 64-character lookup table, by ranges. */
  function CharOf(n: nat): (c: char)
    requires n < 64
    ensures InAlphabet(c)
  {
    if n < 26 then 'A' + n as char
    else if n < 52 then 'a' + (n - 26) as char
    else if n < 62 then '0' + (n - 52) as char
    else if n == 62 then '+' else '/'
  }

  /** The decoder's table: -1 for a character it rejects. The entry for '=' is 0
      and is never consulted. */
  function TableEntry(c: char): (v: int)
    ensures v < 64
    ensures v >= 0 <==> InAlphabet(c) || c == '='
  {
    if 'A' <= c <= 'Z' then (c - 'A') as int
    else if 'a' <= c <= 'z' then (c - 'a') as int + 26
    else if '0' <= c <= '9' then (c - '0') as int + 52
    else if c == '+' then 62
    else if c == '/' then 63
    else if c == '=' then 0
    else -1
  }

  /** The same two tables between characters and six-bit values. */
  function SextetChar(v: bv8): (c: char)
    requires v < 64
    ensures InAlphabet(c)
  {
    CharOf(v as int)
  }

  function CharSextet(c: char): (v: bv8)
    requires InAlphabet(c)
    ensures v < 64
  {
    TableEntry(c) as bv8
  }

  lemma TableInvertsAlphabet(v: bv8)
    requires v < 64
    ensures CharSextet(SextetChar(v)) == v
  {
    var n := v as int;
    assert TableEntry(CharOf(n)) == n;
  }

  /* ---- bits of the input and of the output ---- */

  /** Reading at the size of a std::string gives NUL. */
  function ByteAt(raw: Data, i: nat): (r: bv8) {
    if i < |raw| then raw[i] else 0
  }

  /** Three octets and the four groups of six bits in them. */
  function FirstSix(x: bv8): (r: bv8) { x >> 2 }
  function SecondSix(x: bv8, y: bv8): (r: bv8) { ((x & 3) << 4) | (y >> 4) }
  function ThirdSix(y: bv8, z: bv8): (r: bv8) { ((y & 15) << 2) | (z >> 6) }
  function LastSix(z: bv8): (r: bv8) { z & 63 }

  /** Four six-bit values and the three octets in them. */
  function FirstEight(a: bv8, b: bv8): (r: bv8) { (a << 2) | (b >> 4) }
  function SecondEight(b: bv8, c: bv8): (r: bv8) { (b << 4) | (c >> 2) }
  function LastEight(c: bv8, d: bv8): (r: bv8) { (c << 6) | d }

  lemma SixBits(x: bv8, y: bv8, z: bv8)
    ensures FirstSix(x) < 64 && SecondSix(x, y) < 64 && ThirdSix(y, z) < 64 && LastSix(z) < 64
  {
  }

  lemma EightsOfSixes(x: bv8, y: bv8, z: bv8)
    ensures FirstEight(FirstSix(x), SecondSix(x, y)) == x
    ensures SecondEight(SecondSix(x, y), ThirdSix(y, z)) == y
    ensures LastEight(ThirdSix(y, z), LastSix(z)) == z
  {
    assert ((x >> 2) << 2) | ((((x & 3) << 4) | (y >> 4)) >> 4) == x;
    assert ((((x & 3) << 4) | (y >> 4)) << 4) | ((((y & 15) << 2) | (z >> 6)) >> 2) == y;
    assert ((((y & 15) << 2) | (z >> 6)) << 6) | (z & 63) == z;
  }

  lemma NoBits()
    ensures FirstSix(0) == 0 && SecondSix(0, 0) == 0 && ThirdSix(0, 0) == 0 && LastSix(0) == 0
  {
  }

  /** The j-th group of six bits of the input. */
  function Sextet(raw: Data, j: nat): (v: bv8)
    ensures v < 64
  {
    var q := 3 * (j / 4);
    SixBits(ByteAt(raw, q), ByteAt(raw, q + 1), ByteAt(raw, q + 2));
    if j % 4 == 0 then FirstSix(ByteAt(raw, q))
    else if j % 4 == 1 then SecondSix(ByteAt(raw, q), ByteAt(raw, q + 1))
    else if j % 4 == 2 then ThirdSix(ByteAt(raw, q + 1), ByteAt(raw, q + 2))
    else LastSix(ByteAt(raw, q + 2))
  }

  /** The j-th byte that a list of six-bit values denotes, zero bits following. */
  function Octet(vals: Data, j: nat): (v: bv8) {
    var q := 4 * (j / 3);
    if j % 3 == 0 then FirstEight(ByteAt(vals, q), ByteAt(vals, q + 1))
    else if j % 3 == 1 then SecondEight(ByteAt(vals, q + 1), ByteAt(vals, q + 2))
    else LastEight(ByteAt(vals, q + 2), ByteAt(vals, q + 3))
  }

  lemma OctetAt(vals: Data, q: nat)
    ensures Octet(vals, 3 * q) == FirstEight(ByteAt(vals, 4 * q), ByteAt(vals, 4 * q + 1))
    ensures Octet(vals, 3 * q + 1) == SecondEight(ByteAt(vals, 4 * q + 1), ByteAt(vals, 4 * q + 2))
    ensures Octet(vals, 3 * q + 2) == LastEight(ByteAt(vals, 4 * q + 2), ByteAt(vals, 4 * q + 3))
  {
    hide FirstEight, SecondEight, LastEight, ByteAt;
    assert (3 * q) / 3 == (3 * q + 1) / 3 == (3 * q + 2) / 3 == q;
  }

  lemma SextetAt(raw: Data, q: nat)
    ensures Sextet(raw, 4 * q) == FirstSix(ByteAt(raw, 3 * q))
    ensures Sextet(raw, 4 * q + 1) == SecondSix(ByteAt(raw, 3 * q), ByteAt(raw, 3 * q + 1))
    ensures Sextet(raw, 4 * q + 2) == ThirdSix(ByteAt(raw, 3 * q + 1), ByteAt(raw, 3 * q + 2))
    ensures Sextet(raw, 4 * q + 3) == LastSix(ByteAt(raw, 3 * q + 2))
  {
    hide FirstSix, SecondSix, ThirdSix, LastSix, ByteAt;
    assert (4 * q) / 4 == (4 * q + 1) / 4 == (4 * q + 2) / 4 == (4 * q + 3) / 4 == q;
  }

  /** The values are the input's sextets, as many as there are that are not zero. */
  ghost predicate Denotes(vals: Data, raw: Data) {
    forall i: nat :: ByteAt(vals, i) == Sextet(raw, i)
  }

  lemma OctetsInvertSextets(raw: Data, vals: Data, q: nat)
    requires ByteAt(vals, 4 * q) == Sextet(raw, 4 * q) && ByteAt(vals, 4 * q + 1) == Sextet(raw, 4 * q + 1)
    requires ByteAt(vals, 4 * q + 2) == Sextet(raw, 4 * q + 2) && ByteAt(vals, 4 * q + 3) == Sextet(raw, 4 * q + 3)
    ensures Octet(vals, 3 * q) == ByteAt(raw, 3 * q)
    ensures Octet(vals, 3 * q + 1) == ByteAt(raw, 3 * q + 1)
    ensures Octet(vals, 3 * q + 2) == ByteAt(raw, 3 * q + 2)
  {
    hide Sextet, Octet, ByteAt, FirstSix, SecondSix, ThirdSix, LastSix, FirstEight, SecondEight, LastEight;
    OctetAt(vals, q);
    SextetAt(raw, q);
    EightsOfSixes(ByteAt(raw, 3 * q), ByteAt(raw, 3 * q + 1), ByteAt(raw, 3 * q + 2));
  }

  lemma OctetInvertsSextet(raw: Data, vals: Data, j: nat)
    requires Denotes(vals, raw)
    ensures Octet(vals, j) == ByteAt(raw, j)
  {
    hide Sextet, Octet, ByteAt;
    var q := j / 3;
    OctetsInvertSextets(raw, vals, q);
    assert j == 3 * q || j == 3 * q + 1 || j == 3 * q + 2;
  }

  /* ---- encoding ---- */

  function PadCount(n: nat): (r: nat) {
    (3 - n % 3) % 3
  }

  /** 4 * ceil(n / 3). */
  function EncodedLength(n: nat): (r: nat) {
    4 * ((n + 2) / 3)
  }

  function Encoded(raw: Data): (s: string) {
    var n := EncodedLength(|raw|) - PadCount(|raw|);
    seq(n, i requires 0 <= i < n => SextetChar(Sextet(raw, i))) + seq(PadCount(|raw|), _ => '=')
  }

  /** The bits [avail - get, avail) of a byte, as the encoder masks and shifts them. */
  function TakeBits(b: bv8, avail: nat, get: nat): (r: bv8)
    requires get <= avail <= 8
  {
    var mask: bv32 := ((1 << get) - 1) << (avail - get);
    (((b as bv32) & mask) >> (avail - get)) as bv8
  }

  lemma TakenBits(b: bv8)
    ensures TakeBits(b, 8, 6) == b >> 2 && TakeBits(b, 2, 2) == b & 3
    ensures TakeBits(b, 8, 4) == b >> 4 && TakeBits(b, 4, 4) == b & 15
    ensures TakeBits(b, 8, 2) == b >> 6 && TakeBits(b, 6, 6) == b & 63
  {
  }

  function Or(x: bv8, y: bv8): (r: bv8) { x | y }
  function Shl(x: bv8, n: nat): (r: bv8) requires n <= 8 { x << n }

  lemma Shifted(x: bv8)
    ensures Shl(x, 0) == x && Shl(x, 2) == x << 2 && Shl(x, 4) == x << 4
  {
  }

  lemma TakenSecond(x: bv8, y: bv8)
    ensures Or(Shl(TakeBits(x, 2, 2), 4), TakeBits(y, 8, 4)) == SecondSix(x, y)
  {
    hide TakeBits, Shl;
    TakenBits(x);
    TakenBits(y);
    Shifted(x & 3);
  }

  lemma TakenThird(x: bv8, y: bv8)
    ensures Or(Shl(TakeBits(x, 4, 4), 2), TakeBits(y, 8, 2)) == ThirdSix(x, y)
  {
    hide TakeBits, Shl;
    TakenBits(x);
    TakenBits(y);
    Shifted(x & 15);
  }

  lemma TakenSixes(x: bv8, y: bv8)
    ensures Shl(TakeBits(x, 8, 6), 0) == FirstSix(x) && Shl(TakeBits(x, 6, 6), 0) == LastSix(x)
    ensures Or(Shl(TakeBits(x, 2, 2), 4), TakeBits(y, 8, 4)) == SecondSix(x, y)
    ensures Or(Shl(TakeBits(x, 4, 4), 2), TakeBits(y, 8, 2)) == ThirdSix(x, y)
  {
    hide TakeBits, Shl, Or, SecondSix, ThirdSix;
    TakenBits(x);
    Shifted(x >> 2);
    Shifted(x & 63);
    TakenSecond(x, y);
    TakenThird(x, y);
  }

  /** The two steps that collect a sextet starting at bit 6 * i of the input. */
  lemma CollectsSextet(raw: Data, i: nat, at: nat, avail: nat)
    requires at == 6 * i / 8 && avail == 8 - 6 * i % 8
    ensures avail >= 6 ==> Shl(TakeBits(ByteAt(raw, at), avail, 6), 0) == Sextet(raw, i)
    ensures avail < 6 ==> avail == 2 || avail == 4
    ensures avail < 6 ==> Or(Shl(TakeBits(ByteAt(raw, at), avail, avail), 6 - avail),
                             TakeBits(ByteAt(raw, at + 1), 8, 6 - avail)) == Sextet(raw, i)
  {
    hide Sextet, TakeBits, ByteAt, Or, Shl, FirstSix, SecondSix, ThirdSix, LastSix;
    var q, k := i / 4, i % 4;
    assert 6 * i == 24 * q + 6 * k;
    TakenSixes(ByteAt(raw, at), ByteAt(raw, at + 1));
    SextetAt(raw, q);
    if k == 0 {
      assert at == 3 * q && avail == 8;
    } else if k == 1 {
      assert at == 3 * q && avail == 2;
    } else if k == 2 {
      assert at == 3 * q + 1 && avail == 4;
    } else {
      assert at == 3 * q + 2 && avail == 6;
    }
  }

  /** The body of the encoder's loop: six bits from the current byte, or from it
      and the next. */
  method NextSextet(raw: Data, at: nat, avail: nat, ghost i: nat)
    returns (lutIdx: bv8, inputIdx: nat, availBits: nat)
    requires at == 6 * i / 8 && avail == 8 - 6 * i % 8
    ensures lutIdx == Sextet(raw, i)
    ensures inputIdx == 6 * (i + 1) / 8 && availBits == 8 - 6 * (i + 1) % 8
  {
    hide TakeBits, Sextet, ByteAt, Or, Shl;
    CollectsSextet(raw, i, at, avail);
    inputIdx := at;
    var getBits := if avail < 6 then avail else 6;
    lutIdx := Shl(TakeBits(ByteAt(raw, inputIdx), avail, getBits), 6 - getBits);
    availBits := avail - getBits;
    if availBits == 0 {
      inputIdx, availBits := inputIdx + 1, 8;
      if getBits < 6 {
        getBits := 6 - getBits;
        lutIdx := Or(lutIdx, TakeBits(ByteAt(raw, inputIdx), availBits, getBits));
        availBits := availBits - getBits;
      }
    }
  }

  method EncodeBase64(raw: Data) returns (s: string)
    ensures s == Encoded(raw)
  {
    hide Sextet, SextetChar;
    var pad, outLen := PadCount(|raw|), EncodedLength(|raw|);
    var encoded := new char[outLen](_ => '\0');
    var availBits, inputIdx := 8, 0;
    for i := 0 to outLen - pad
      invariant inputIdx == 6 * i / 8 && availBits == 8 - 6 * i % 8
      invariant forall k :: 0 <= k < i ==> encoded[k] == SextetChar(Sextet(raw, k))
    {
      var lutIdx;
      lutIdx, inputIdx, availBits := NextSextet(raw, inputIdx, availBits, i);
      encoded[i] := SextetChar(lutIdx);
    }
    var used := outLen - pad;
    for i := used to outLen
      invariant forall k :: 0 <= k < used ==> encoded[k] == SextetChar(Sextet(raw, k))
      invariant forall k :: used <= k < i ==> encoded[k] == '='
    {
      encoded[i] := '=';
    }
    s := encoded[..];
  }

  /* ---- decoding ---- */

  /** The characters before the first '='. */
  function Payload(coded: string): (p: string)
    ensures p <= coded && '=' !in p
    ensures |p| < |coded| ==> coded[|p|] == '='
  {
    if coded == [] || coded[0] == '=' then [] else [coded[0]] + Payload(coded[1..])
  }

  /** The length left when trailing '=' are dropped. */
  function CodedSize(coded: string): (n: nat)
    ensures n <= |coded|
    ensures n > 0 ==> coded[n - 1] != '='
    ensures forall i :: n <= i < |coded| ==> coded[i] == '='
  {
    if coded == [] || coded[|coded| - 1] != '=' then |coded| else CodedSize(coded[..|coded| - 1])
  }

  function FirstIllegal(payload: string): (i: nat)
    ensures i <= |payload|
    ensures forall k :: 0 <= k < i ==> InAlphabet(payload[k])
    ensures i < |payload| ==> !InAlphabet(payload[i])
  {
    if payload == [] || !InAlphabet(payload[0]) then 0 else 1 + FirstIllegal(payload[1..])
  }

  function Values(payload: string): (vals: Data)
    requires forall c <- payload :: InAlphabet(c)
    ensures |vals| == |payload| && forall i :: 0 <= i < |vals| ==> vals[i] < 64
  {
    seq(|payload|, i requires 0 <= i < |payload| => CharSextet(payload[i]))
  }

  /** The decoded bytes, and the byte past them that a std::string keeps zero. */
  datatype Decoding = Decoding(bytes: Data, terminator: bv8) | IllegalCharacter(c: char)

  function Decoded(coded: string): (r: Decoding) {
    var payload := Payload(coded);
    var bad := FirstIllegal(payload);
    if bad < |payload| then IllegalCharacter(payload[bad])
    else
      var vals, outLen := Values(payload), CodedSize(coded) * 3 / 4;
      Decoding(seq(outLen, j requires 0 <= j < outLen => Octet(vals, j)), Octet(vals, outLen))
  }

  /** The high `put` bits of a sextet, moved to bit position 8 - cur - put of a byte. */
  function PutHigh(v: bv8, cur: nat, put: nat): (r: bv8)
    requires put <= 6 && cur + put <= 8
  {
    var mask: bv32 := ((1 << put) - 1) << (6 - put);
    (((((v as bv32) & mask) >> (6 - put)) << (8 - cur - put)) & 0xFF) as bv8
  }

  /** The low `put` bits of a sextet at the top of a byte. */
  function PutLow(v: bv8, put: nat): (r: bv8)
    requires put <= 6
  {
    var mask: bv32 := (1 << put) - 1;
    ((((v as bv32) & mask) << (8 - put)) & 0xFF) as bv8
  }

  lemma PlacedBits(v: bv8)
    requires v < 64
    ensures PutHigh(v, 0, 6) == v << 2 && PutHigh(v, 6, 2) == v >> 4 && PutHigh(v, 4, 4) == v >> 2
            && PutHigh(v, 2, 6) == v
    ensures PutLow(v, 4) == v << 4 && PutLow(v, 2) == v << 6
  {
  }

  /** A value joins the octets it belongs to. */
  lemma PlacedEights(u: bv8, v: bv8)
    requires v < 64
    ensures FirstEight(v, 0) == Or(FirstEight(0, 0), PutHigh(v, 0, 6))
    ensures FirstEight(u, v) == Or(FirstEight(u, 0), PutHigh(v, 6, 2))
    ensures SecondEight(v, 0) == Or(SecondEight(0, 0), PutLow(v, 4))
    ensures SecondEight(u, v) == Or(SecondEight(u, 0), PutHigh(v, 4, 4))
    ensures LastEight(v, 0) == Or(LastEight(0, 0), PutLow(v, 2))
    ensures LastEight(u, v) == Or(LastEight(u, 0), PutHigh(v, 2, 6))
  {
    hide PutHigh, PutLow;
    PlacedBits(v);
  }

  lemma OctetUnchanged(vals: Data, v: bv8, j: nat)
    requires j != 6 * |vals| / 8 && (6 * |vals| % 8 <= 2 || j != 6 * |vals| / 8 + 1)
    ensures Octet(vals + [v], j) == Octet(vals, j)
  {
    var k, q := |vals|, 4 * (j / 3);
    assert forall i :: 0 <= i && i != k ==> ByteAt(vals + [v], i) == ByteAt(vals, i);
    if j % 3 == 0 {
      assert k != q && k != q + 1;
    } else if j % 3 == 1 {
      assert k != q + 1 && k != q + 2;
    } else {
      assert k != q + 2 && k != q + 3;
    }
  }

  lemma ByteAfter(vals: Data, v: bv8, i: nat)
    ensures ByteAt(vals + [v], i) == if i == |vals| then v else ByteAt(vals, i)
    ensures i >= |vals| ==> ByteAt(vals, i) == 0
  {
  }

  lemma FourBytesAfter(vals: Data, v: bv8, q: nat)
    ensures forall i: nat | 4 * q <= i < 4 * q + 4 ::
              ByteAt(vals + [v], i) == (if i == |vals| then v else ByteAt(vals, i))
                && (i >= |vals| ==> ByteAt(vals, i) == 0)
  {
    hide ByteAt;
    forall i: nat | 4 * q <= i < 4 * q + 4
      ensures ByteAt(vals + [v], i) == (if i == |vals| then v else ByteAt(vals, i))
              && (i >= |vals| ==> ByteAt(vals, i) == 0)
    {
      ByteAfter(vals, v, i);
    }
  }

  /** Adding a value to the list puts its bits where the decoder writes them. */
  lemma OctetReached(vals: Data, v: bv8)
    requires v < 64
    ensures var (at, cur) := (6 * |vals| / 8, 6 * |vals| % 8);
            && (cur == 0 || cur == 2 || cur == 4 || cur == 6)
            && Octet(vals + [v], at) == Or(Octet(vals, at), PutHigh(v, cur, if cur <= 2 then 6 else 8 - cur))
            && (cur > 2 ==> Octet(vals + [v], at + 1) == Or(Octet(vals, at + 1), PutLow(v, cur - 2)))
  {
    hide Octet, PutHigh, PutLow, ByteAt, Or, FirstEight, SecondEight, LastEight;
    var q, k, after := |vals| / 4, |vals| % 4, vals + [v];
    FourBytesAfter(vals, v, q);
    OctetAt(vals, q);
    OctetAt(after, q);
    var at, cur := 6 * |vals| / 8, 6 * |vals| % 8;
    if k == 0 {
      PlacedEights(0, v);
      assert |vals| == 4 * q && at == 3 * q && cur == 0;
    } else if k == 1 {
      PlacedEights(ByteAt(vals, 4 * q), v);
      assert |vals| == 4 * q + 1 && at == 3 * q && cur == 6;
    } else if k == 2 {
      PlacedEights(ByteAt(vals, 4 * q + 1), v);
      assert |vals| == 4 * q + 2 && at == 3 * q + 1 && cur == 4;
    } else {
      PlacedEights(ByteAt(vals, 4 * q + 2), v);
      assert |vals| == 4 * q + 3 && at == 3 * q + 2 && cur == 2;
    }
  }

  /** The decoder's buffer after some values: every byte up to the terminator. */
  ghost predicate Holds(buffer: array<bv8>, vals: Data)
    reads buffer
  {
    forall j :: 0 <= j < buffer.Length ==> buffer[j] == Octet(vals, j)
  }

  /** The body of the decoder's loop: shoves six bits into the buffer at outData. */
  method PutSextet(buffer: array<bv8>, outData: nat, curBits: nat, newBits: bv8, ghost vals: Data)
    returns (outData': nat, curBits': nat)
    requires newBits < 64 && Holds(buffer, vals)
    requires outData == 6 * |vals| / 8 && curBits == 6 * |vals| % 8
    requires (6 * |vals| + 5) / 8 < buffer.Length
    modifies buffer
    ensures Holds(buffer, vals + [newBits])
    ensures outData' == 6 * (|vals| + 1) / 8 && curBits' == 6 * (|vals| + 1) % 8
  {
    hide Octet, PutHigh, PutLow, Or;
    OctetReached(vals, newBits);
    forall j: nat | j != outData && (curBits <= 2 || j != outData + 1)
      ensures Octet(vals + [newBits], j) == Octet(vals, j)
    {
      OctetUnchanged(vals, newBits, j);
    }
    outData', curBits' := outData, curBits;
    var putBits := if 8 - curBits < 6 then 8 - curBits else 6;
    buffer[outData'] := Or(buffer[outData'], PutHigh(newBits, curBits', putBits));
    curBits' := curBits' + putBits;
    if curBits' == 8 {
      curBits', outData' := 0, outData' + 1;
      if putBits < 6 {
        putBits := 6 - putBits;
        buffer[outData'] := Or(buffer[outData'], PutLow(newBits, putBits));
        curBits' := putBits;
      }
    }
  }

  lemma {:induction false} PayloadFits(coded: string)
    ensures |Payload(coded)| <= CodedSize(coded)
  {
    var cs := CodedSize(coded);
    if cs < |coded| {
      assert coded[cs] == '=';
    }
  }

  lemma {:induction false} PayloadIs(coded: string, p: string)
    requires p <= coded && '=' !in p && (|p| < |coded| ==> coded[|p|] == '=')
    ensures Payload(coded) == p
  {
    if p != [] {
      assert coded[1..][..|p| - 1] == p[1..];
      PayloadIs(coded[1..], p[1..]);
    }
  }

  lemma {:induction false} FirstIllegalIs(payload: string, i: nat)
    requires i <= |payload| && (forall k :: 0 <= k < i ==> InAlphabet(payload[k]))
    requires i < |payload| ==> !InAlphabet(payload[i])
    ensures FirstIllegal(payload) == i
  {
    if i > 0 {
      FirstIllegalIs(payload[1..], i - 1);
    }
  }

  method DropPadding(coded: string) returns (codedSize: nat)
    ensures codedSize == CodedSize(coded)
  {
    codedSize := |coded|;
    assert coded[..|coded|] == coded;
    while codedSize > 0 && coded[codedSize - 1] == '='
      invariant 0 <= codedSize <= |coded|
      invariant CodedSize(coded) == CodedSize(coded[..codedSize])
    {
      assert coded[..codedSize][..codedSize - 1] == coded[..codedSize - 1];
      codedSize := codedSize - 1;
    }
  }

  method DecodeBase64(coded: string) returns (d: Decoding)
    ensures d == Decoded(coded)
  {
    hide Octet, TableEntry, CharSextet, InAlphabet, CodedSize, Payload, FirstIllegal, Holds;
    var codedSize := DropPadding(coded);
    PayloadFits(coded);
    ghost var payload := Payload(coded);
    var outLen := codedSize * 3 / 4;
    var buffer := new bv8[outLen + 1](_ => 0);
    ghost var vals: Data := [];
    EmptyHolds(buffer);
    var outData, curBits, n := 0, 0, 0;
    while n < |coded|
      invariant n <= |payload| && n == |vals|
      invariant forall k :: 0 <= k < n ==> InAlphabet(payload[k])
      invariant vals == Values(payload[..n])
      invariant outData == 6 * n / 8 && curBits == 6 * n % 8
      invariant Holds(buffer, vals)
    {
      var next := coded[n];
      if next == '=' {
        break;
      }
      assert n < |payload| && payload[n] == next;
      AcceptedIff(next);
      if TableEntry(next) == -1 {
        FirstIllegalIs(payload, n);
        return IllegalCharacter(next);
      }
      var newBits := CharSextet(next);
      outData, curBits := PutSextet(buffer, outData, curBits, newBits, vals);
      assert Values(payload[..n + 1]) == vals + [newBits];
      vals := vals + [newBits];
      n := n + 1;
    }
    assert n == |payload|;
    FirstIllegalIs(payload, n);
    assert payload[..n] == payload;
    HoldsMeans(buffer, vals);
    d := Decoding(buffer[..outLen], buffer[outLen]);
  }

  lemma HoldsMeans(buffer: array<bv8>, vals: Data)
    requires Holds(buffer, vals)
    ensures forall j :: 0 <= j < buffer.Length ==> buffer[j] == Octet(vals, j)
  {
  }

  lemma AcceptedIff(c: char)
    requires c != '='
    ensures TableEntry(c) == -1 <==> !InAlphabet(c)
    ensures -1 <= TableEntry(c) < 64
  {
  }

  lemma EmptyHolds(buffer: array<bv8>)
    requires forall j :: 0 <= j < buffer.Length ==> buffer[j] == 0
    ensures Holds(buffer, [])
  {
  }

  /* ---- the sanity check ---- */

  /** Characters of the alphabet, then only '='. */
  ghost predicate LooksEncoded(s: string) {
    exists k: nat :: PaddedFrom(s, k)
  }

  ghost predicate PaddedFrom(s: string, k: nat) {
    k <= |s| && (forall i :: 0 <= i < k ==> InAlphabet(s[i])) && (forall i :: k <= i < |s| ==> s[i] == '=')
  }

  method SanityCheckBase64(str: string) returns (ok: bool)
    ensures ok <==> LooksEncoded(str)
  {
    var pos := 0;
    while pos < |str| && InAlphabet(str[pos])
      invariant pos <= |str| && forall i :: 0 <= i < pos ==> InAlphabet(str[i])
    {
      pos := pos + 1;
    }
    ghost var k := pos;
    if pos == |str| {
      assert PaddedFrom(str, k);
      return true;
    }
    while pos < |str| && str[pos] == '='
      invariant k <= pos <= |str| && forall i :: k <= i < pos ==> str[i] == '='
    {
      pos := pos + 1;
    }
    ok := pos == |str|;
    if ok {
      assert PaddedFrom(str, k);
    } else {
      forall k' ensures !PaddedFrom(str, k') {
      }
    }
  }

  /** Whatever passes the check has nothing the decoder rejects. */
  lemma {:induction false} SanityMeansDecodable(s: string)
    requires LooksEncoded(s)
    ensures Decoded(s).Decoding?
    ensures CodedSize(s) == |Payload(s)|
  {
    hide Octet, TableEntry, CharSextet;
    var k: nat :| PaddedFrom(s, k);
    PayloadIs(s, s[..k]);
    FirstIllegalIs(s[..k], k);
    PayloadFits(s);
  }

  /* ---- round trip ---- */

  lemma EncodedLooksEncoded(raw: Data)
    ensures PaddedFrom(Encoded(raw), EncodedLength(|raw|) - PadCount(|raw|))
    ensures LooksEncoded(Encoded(raw)) && |Encoded(raw)| % 4 == 0
  {
    hide Sextet, SextetChar;
    var n := EncodedLength(|raw|) - PadCount(|raw|);
    assert PaddedFrom(Encoded(raw), n) by {
      assert forall i :: 0 <= i < n ==> InAlphabet(Encoded(raw)[i]);
    }
  }

  lemma EncodedValues(raw: Data)
    ensures var p := Payload(Encoded(raw));
            && FirstIllegal(p) == |p| == EncodedLength(|raw|) - PadCount(|raw|)
            && CodedSize(Encoded(raw)) == |p|
            && Denotes(Values(p), raw)
  {
    hide SextetChar, TableEntry, CharSextet, Sextet;
    var s, n := Encoded(raw), EncodedLength(|raw|) - PadCount(|raw|);
    EncodedLooksEncoded(raw);
    assert '=' !in s[..n];
    PayloadIs(s, s[..n]);
    FirstIllegalIs(s[..n], n);
    SanityMeansDecodable(s);
    var vals := Values(s[..n]);
    forall i: nat ensures ByteAt(vals, i) == Sextet(raw, i) {
      if i < n {
        TableInvertsAlphabet(Sextet(raw, i));
      } else {
        SextetBeyond(raw, i);
      }
    }
  }

  /** From the last encoded sextet on, the bytes that a sextet reads are past the end. */
  lemma IndicesBeyond(n: nat, i: nat)
    requires i >= EncodedLength(n) - PadCount(n)
    ensures 3 * (i / 4) + 2 >= n && (i % 4 < 2 ==> 3 * (i / 4) >= n) && (i % 4 == 2 ==> 3 * (i / 4) + 1 >= n)
  {
    hide EncodedLength, PadCount;
    var a, b, q, k := n / 3, n % 3, i / 4, i % 4;
    PayloadLength(a, b);
    assert n == 3 * a + b && i == 4 * q + k;
  }

  /** Two, three or four characters for one, two or three octets. */
  lemma PayloadLength(a: nat, b: nat)
    requires b < 3
    ensures EncodedLength(3 * a + b) - PadCount(3 * a + b) == 4 * a + if b == 0 then 0 else b + 1
  {
    assert (3 * a + b + 2) / 3 == a + if b == 0 then 0 else 1;
    assert (3 * a + b) % 3 == b;
  }

  lemma DecodedLength(n: nat)
    ensures (EncodedLength(n) - PadCount(n)) * 3 / 4 == n
  {
    hide EncodedLength, PadCount;
    var a, b := n / 3, n % 3;
    PayloadLength(a, b);
    assert n == 3 * a + b;
  }

  lemma SextetBeyond(raw: Data, i: nat)
    requires i >= EncodedLength(|raw|) - PadCount(|raw|)
    ensures Sextet(raw, i) == 0
  {
    hide FirstSix, SecondSix, ThirdSix, LastSix, EncodedLength, PadCount;
    IndicesBeyond(|raw|, i);
    NoBits();
  }

  /** Decoding undoes encoding for every byte string, and the byte after the
      output, to which the decoder also writes, is left zero. */
  lemma DecodeEncode(raw: Data)
    ensures Decoded(Encoded(raw)) == Decoding(raw, 0)
  {
    hide Octet, Sextet, SextetChar, TableEntry, CharSextet, Encoded, Payload, CodedSize, FirstIllegal, Denotes;
    hide EncodedLength, PadCount, Values;
    EncodedValues(raw);
    DecodedLength(|raw|);
    var vals := Values(Payload(Encoded(raw)));
    OctetInvertsSextet(raw, vals, |raw|);
    forall j | 0 <= j < |raw| ensures Octet(vals, j) == raw[j] {
      OctetInvertsSextet(raw, vals, j);
    }
  }

  /** For all text that is not rejected, the byte past the output stays zero exactly when
      something but '=' follows the first '=', so that the output is longer than what is
      decoded, or the bits that do not fill a byte are zero. */
  lemma {:induction false} TerminatorKept(s: string)
    requires Decoded(s).Decoding?
    ensures FirstIllegal(Payload(s)) == |Payload(s)|
    ensures Decoded(s).terminator == 0 <==> CodedSize(s) > |Payload(s)| || UnusedBits(Values(Payload(s))) == 0
  {
    hide Payload, CodedSize, FirstIllegal, UnusedBits, Octet;
    var vals := Values(Payload(s));
    PayloadFits(s);
    if CodedSize(s) > |vals| {
      OctetBeyond(vals, CodedSize(s));
    } else {
      LeftoverOctet(vals);
    }
  }

  /** For text that passes the sanity check nothing but '=' follows. */
  lemma {:induction false} TerminatorKeptIfChecked(s: string)
    requires LooksEncoded(s)
    ensures Decoded(s).Decoding?
    ensures Decoded(s).terminator == 0 <==> UnusedBits(Values(Payload(s))) == 0
  {
    hide LooksEncoded, Payload, CodedSize, FirstIllegal, UnusedBits, Octet;
    SanityMeansDecodable(s);
    TerminatorKept(s);
  }

  lemma OctetBeyond(vals: Data, m: nat)
    requires m > |vals|
    ensures Octet(vals, m * 3 / 4) == 0
  {
    hide Octet, FirstEight, SecondEight, LastEight;
    var a, b := m / 4, m % 4;
    OctetAt(vals, a);
    assert m * 3 / 4 == 3 * a + (if b == 0 then 0 else b - 1);
    LeftoverBits(0);
  }

  /** The bits of the last value that do not fill a byte. */
  function UnusedBits(vals: Data): (r: bv8) {
    if |vals| % 4 == 0 then 0
    else
      var last := vals[|vals| - 1];
      if |vals| % 4 == 1 then last else if |vals| % 4 == 2 then last & 15 else last & 3
  }

  /** "AB" passes the check, yet its unused bits reach the byte past the output. */
  lemma TerminatorLost()
    ensures LooksEncoded("AB") && Decoded("AB").Decoding? && Decoded("AB").terminator != 0
  {
    hide Octet, Denotes;
    assert PaddedFrom("AB", 2);
    TerminatorKeptIfChecked("AB");
    assert Values(Payload("AB"))[1] == 1;
  }

  lemma LeftoverOctet(vals: Data)
    requires forall i :: 0 <= i < |vals| ==> vals[i] < 64
    ensures Octet(vals, |vals| * 3 / 4) == 0 <==> UnusedBits(vals) == 0
  {
    hide Octet, FirstEight, SecondEight, LastEight;
    var q, k := |vals| / 4, |vals| % 4;
    OctetAt(vals, q);
    assert |vals| * 3 / 4 == 3 * q + (if k == 0 then 0 else k - 1);
    if k == 0 {
      LeftoverBits(0);
    } else {
      LeftoverBits(vals[|vals| - 1]);
    }
  }

  lemma LeftoverBits(v: bv8)
    ensures v < 64 ==> (FirstEight(v, 0) == 0 <==> v == 0)
    ensures SecondEight(v, 0) == 0 <==> v & 15 == 0
    ensures LastEight(v, 0) == 0 <==> v & 3 == 0
  {
    assert v < 64 ==> ((v << 2) == 0 <==> v == 0);
    assert (v << 4) == 0 <==> v & 15 == 0;
    assert (v << 6) == 0 <==> v & 3 == 0;
  }

  /* ---- the standard's form ---- */

  /** Three octets as a 24-bit group, first octet first. */
  function Group(x: bv8, y: bv8, z: bv8): (r: bv24) {
    ((x as bv24) << 16) | ((y as bv24) << 8) | (z as bv24)
  }

  /** Table 1 of RFC 4648: the character of each six-bit value. */
  const ALPHABET: string := "ABCDEFGHIJKLMNOPQRSTUVWXYZ" + "abcdefghijklmnopqrstuvwxyz" + "0123456789+/"

  lemma AlphabetIs(n: nat)
    requires n < 64
    ensures |ALPHABET| == 64 && ALPHABET[n] == CharOf(n)
  {
    if n < 26 {
      assert ALPHABET[n] == "ABCDEFGHIJKLMNOPQRSTUVWXYZ"[n];
    } else if n < 52 {
      assert ALPHABET[n] == "abcdefghijklmnopqrstuvwxyz"[n - 26];
    } else {
      assert ALPHABET[n] == "0123456789+/"[n - 52];
    }
  }

  /** Both tables of the code are the standard's: the coder's characters in order, and the
      decoder's value of a character its place, and of any other but '=' none. */
  lemma TablesAreStandard(c: char)
    ensures |ALPHABET| == 64 && forall n: nat :: n < 64 ==> CharOf(n) == ALPHABET[n]
    ensures forall n: nat :: n < 64 ==> TableEntry(ALPHABET[n]) == n
    ensures c !in ALPHABET ==> TableEntry(c) == if c == '=' then 0 else -1
    ensures InAlphabet(c) <==> c in ALPHABET
  {
    forall n: nat | n < 64 ensures CharOf(n) == ALPHABET[n] && TableEntry(ALPHABET[n]) == n {
      AlphabetIs(n);
    }
    if InAlphabet(c) {
      AlphabetIs(TableEntry(c));
      assert ALPHABET[TableEntry(c)] == CharOf(TableEntry(c)) == c;
      assert c in ALPHABET;
    }
    if c in ALPHABET {
      var n :| 0 <= n < |ALPHABET| && ALPHABET[n] == c;
      AlphabetIs(n);
    }
  }

  /** The four six-bit parts of a 24-bit group, high bits first. */
  function Parts(g: bv24): (p: (bv8, bv8, bv8, bv8))
    ensures p.0 < 64 && p.1 < 64 && p.2 < 64 && p.3 < 64
  {
    (((g >> 18) & 0x3F) as bv8, ((g >> 12) & 0x3F) as bv8, ((g >> 6) & 0x3F) as bv8, (g & 0x3F) as bv8)
  }

  function Quantum(x: bv8, y: bv8, z: bv8): (s: string)
    ensures |s| == 4
  {
    var p := Parts(Group(x, y, z));
    AlphabetIs(0);
    [ALPHABET[p.0 as int], ALPHABET[p.1 as int], ALPHABET[p.2 as int], ALPHABET[p.3 as int]]
  }

  /** Section 4 of RFC 4648: whole groups of 24 bits, then a last group of one or
      two octets, filled up with zero bits and padded with '='. */
  function Rfc4648(raw: Data): (r: string) {
    if |raw| == 0 then []
    else if |raw| == 1 then Quantum(raw[0], 0, 0)[..2] + "=="
    else if |raw| == 2 then Quantum(raw[0], raw[1], 0)[..3] + "="
    else Quantum(raw[0], raw[1], raw[2]) + Rfc4648(raw[3..])
  }

  lemma GroupBits(x: bv8, y: bv8, z: bv8)
    ensures Parts(Group(x, y, z)) == (FirstSix(x), SecondSix(x, y), ThirdSix(y, z), LastSix(z))
  {
    hide FirstSix, SecondSix, ThirdSix, LastSix;
    GroupParts(x, y, z);
    SixesAre(x, y, z);
  }

  lemma GroupParts(x: bv8, y: bv8, z: bv8)
    ensures Parts(Group(x, y, z)) == (x >> 2, ((x & 3) << 4) | (y >> 4), ((y & 15) << 2) | (z >> 6), z & 63)
  {
  }

  lemma SixesAre(x: bv8, y: bv8, z: bv8)
    ensures FirstSix(x) == x >> 2 && SecondSix(x, y) == ((x & 3) << 4) | (y >> 4)
    ensures ThirdSix(y, z) == ((y & 15) << 2) | (z >> 6) && LastSix(z) == z & 63
  {
  }

  lemma QuantumIs(x: bv8, y: bv8, z: bv8)
    ensures FirstSix(x) < 64 && SecondSix(x, y) < 64 && ThirdSix(y, z) < 64 && LastSix(z) < 64
    ensures Quantum(x, y, z) == [SextetChar(FirstSix(x)), SextetChar(SecondSix(x, y)),
                                 SextetChar(ThirdSix(y, z)), SextetChar(LastSix(z))]
  {
    hide CharOf, Group, Parts, FirstSix, SecondSix, ThirdSix, LastSix;
    SixBits(x, y, z);
    GroupBits(x, y, z);
    AlphabetIs(FirstSix(x) as int);
    AlphabetIs(SecondSix(x, y) as int);
    AlphabetIs(ThirdSix(y, z) as int);
    AlphabetIs(LastSix(z) as int);
  }

  lemma FirstQuantum(raw: Data)
    ensures Quantum(ByteAt(raw, 0), ByteAt(raw, 1), ByteAt(raw, 2)) ==
            [SextetChar(Sextet(raw, 0)), SextetChar(Sextet(raw, 1)), SextetChar(Sextet(raw, 2)),
              SextetChar(Sextet(raw, 3))]
  {
    hide SextetChar, ByteAt, Sextet, Quantum, FirstSix, SecondSix, ThirdSix, LastSix;
    SextetAt(raw, 0);
    QuantumIs(ByteAt(raw, 0), ByteAt(raw, 1), ByteAt(raw, 2));
  }

  lemma SextetShift(raw: Data, i: nat)
    requires |raw| >= 3
    ensures Sextet(raw, i + 4) == Sextet(raw[3..], i)
  {
    hide FirstSix, SecondSix, ThirdSix, LastSix;
    assert 3 * ((i + 4) / 4) == 3 * (i / 4) + 3 && (i + 4) % 4 == i % 4;
  }

  /** Any four characters and the three octets they give are the same 24 bits. */
  lemma OctetsAreGroups(vals: Data, q: nat)
    requires forall i :: 0 <= i < |vals| ==> vals[i] < 64
    ensures var (a, b, c, d) := (ByteAt(vals, 4 * q), ByteAt(vals, 4 * q + 1), ByteAt(vals, 4 * q + 2),
                                 ByteAt(vals, 4 * q + 3));
            Parts(Group(Octet(vals, 3 * q), Octet(vals, 3 * q + 1), Octet(vals, 3 * q + 2))) == (a, b, c, d)
  {
    hide Octet, ByteAt, FirstEight, SecondEight, LastEight, FirstSix, SecondSix, ThirdSix, LastSix, Parts, Group;
    OctetAt(vals, q);
    var (a, b) := (ByteAt(vals, 4 * q), ByteAt(vals, 4 * q + 1));
    var (c, d) := (ByteAt(vals, 4 * q + 2), ByteAt(vals, 4 * q + 3));
    assert a < 64 && b < 64 && c < 64 && d < 64 by { SmallBytes(vals, q); }
    GroupBits(FirstEight(a, b), SecondEight(b, c), LastEight(c, d));
    SixesOfEights(a, b, c, d);
  }

  lemma SmallBytes(vals: Data, q: nat)
    requires forall i :: 0 <= i < |vals| ==> vals[i] < 64
    ensures forall i: nat :: ByteAt(vals, i) < 64
  {
  }

  lemma SixesOfEights(a: bv8, b: bv8, c: bv8, d: bv8)
    requires a < 64 && b < 64 && c < 64 && d < 64
    ensures FirstSix(FirstEight(a, b)) == a && SecondSix(FirstEight(a, b), SecondEight(b, c)) == b
    ensures ThirdSix(SecondEight(b, c), LastEight(c, d)) == c && LastSix(LastEight(c, d)) == d
  {
    hide FirstEight, SecondEight, LastEight, FirstSix, SecondSix, ThirdSix, LastSix;
    SixOfFirst(a, b);
    SixOfSecond(a, b, c);
    SixOfThird(b, c, d);
    SixOfLast(c, d);
  }

  lemma SixOfFirst(a: bv8, b: bv8)
    requires a < 64 && b < 64
    ensures FirstSix(FirstEight(a, b)) == a
  {
  }

  lemma SixOfSecond(a: bv8, b: bv8, c: bv8)
    requires a < 64 && b < 64 && c < 64
    ensures SecondSix(FirstEight(a, b), SecondEight(b, c)) == b
  {
  }

  lemma SixOfThird(b: bv8, c: bv8, d: bv8)
    requires b < 64 && c < 64 && d < 64
    ensures ThirdSix(SecondEight(b, c), LastEight(c, d)) == c
  {
  }

  lemma SixOfLast(c: bv8, d: bv8)
    requires c < 64 && d < 64
    ensures LastSix(LastEight(c, d)) == d
  {
  }

  lemma {:induction false} CodedSizeIs(s: string, last: nat)
    requires last <= |s| && (forall i :: last <= i < |s| ==> s[i] == '=') && (last > 0 ==> s[last - 1] != '=')
    ensures CodedSize(s) == last
    decreases s
  {
    if last < |s| {
      CodedSizeIs(s[..|s| - 1], last);
    }
  }

  /** How much is decoded: up to the first '=', into three quarters of the text without the
      '=' at its end. */
  lemma DecodedSize(s: string, first: nat, last: nat)
    requires first <= |s| && '=' !in s[..first] && (first < |s| ==> s[first] == '=')
    requires last <= |s| && (forall i :: last <= i < |s| ==> s[i] == '=') && (last > 0 ==> s[last - 1] != '=')
    ensures match Decoded(s)
            case IllegalCharacter(c) =>
              exists i: nat :: i < first && s[i] == c && c !in ALPHABET && forall j :: 0 <= j < i ==> s[j] in ALPHABET
            case Decoding(bytes, _) => |bytes| == last * 3 / 4 && forall i :: 0 <= i < first ==> s[i] in ALPHABET
  {
    hide Octet, TableEntry, CharOf;
    PayloadIs(s, s[..first]);
    assert CodedSize(s) == last by { CodedSizeIs(s, last); }
    forall i | 0 <= i < first ensures InAlphabet(s[i]) <==> s[i] in ALPHABET {
      TablesAreStandard(s[i]);
    }
    var bad := FirstIllegal(s[..first]);
    if bad < first {
      assert s[bad] == s[..first][bad];
    } else {
      assert forall i :: 0 <= i < first ==> s[..first][i] == s[i];
    }
  }

  /** The encoder's output is the padded form of the standard. */
  lemma {:induction false} EncodesPerRfc4648(raw: Data)
    ensures Encoded(raw) == Rfc4648(raw)
  {
    if |raw| == 0 {
    } else if |raw| < 3 {
      LastGroup(raw);
    } else {
      EncodesPerRfc4648(raw[3..]);
      FirstGroup(raw);
    }
  }

  lemma {:induction false} LastGroup(raw: Data)
    requires 1 <= |raw| <= 2
    ensures Encoded(raw) == Rfc4648(raw)
  {
    hide Sextet, SextetChar, Quantum, ByteAt, Encoded;
    var x, y := raw[0], if |raw| == 1 then 0 else raw[1];
    assert ByteAt(raw, 0) == x && ByteAt(raw, 1) == y && ByteAt(raw, 2) == 0 by { LastBytes(raw); }
    FirstQuantum(raw);
    var t := Quantum(x, y, 0)[..|raw| + 1] + (if |raw| == 1 then "==" else "=");
    EncodedLast(raw, t);
  }

  lemma LastBytes(raw: Data)
    requires 1 <= |raw| <= 2
    ensures ByteAt(raw, 0) == raw[0] && ByteAt(raw, 1) == (if |raw| == 1 then 0 else raw[1]) && ByteAt(raw, 2) == 0
  {
  }

  lemma EncodedLast(raw: Data, t: string)
    requires 1 <= |raw| <= 2 && |t| == 4
    requires forall i: nat | i <= |raw| :: t[i] == SextetChar(Sextet(raw, i))
    requires forall i: nat | |raw| < i < 4 :: t[i] == '='
    ensures Encoded(raw) == t
  {
    hide Sextet, SextetChar;
  }

  lemma {:induction false} FirstGroup(raw: Data)
    requires |raw| >= 3 && Encoded(raw[3..]) == Rfc4648(raw[3..])
    ensures Encoded(raw) == Rfc4648(raw)
  {
    hide Sextet, SextetChar, Quantum, ByteAt, Rfc4648, Encoded;
    FirstQuantum(raw);
    FirstBytes(raw);
    var t := Quantum(raw[0], raw[1], raw[2]) + Encoded(raw[3..]);
    EncodedTail(raw, t);
    RfcStep(raw);
  }

  lemma {:induction false} RfcStep(raw: Data)
    requires |raw| >= 3
    ensures Rfc4648(raw) == Quantum(raw[0], raw[1], raw[2]) + Rfc4648(raw[3..])
  {
    hide Quantum;
  }

  lemma LengthsShift(n: nat)
    requires n >= 3
    ensures EncodedLength(n - 3) == EncodedLength(n) - 4 && PadCount(n - 3) == PadCount(n)
  {
  }

  lemma EncodedAt(raw: Data, i: nat)
    requires i < EncodedLength(|raw|)
    ensures |Encoded(raw)| == EncodedLength(|raw|)
    ensures Encoded(raw)[i] ==
            if i < EncodedLength(|raw|) - PadCount(|raw|) then SextetChar(Sextet(raw, i)) else '='
  {
    hide Sextet, SextetChar;
  }

  lemma EncodedShift(raw: Data, i: nat)
    requires |raw| >= 3 && 4 <= i < EncodedLength(|raw|)
    ensures |Encoded(raw)| == EncodedLength(|raw|) && |Encoded(raw[3..])| == EncodedLength(|raw|) - 4
    ensures Encoded(raw)[i] == Encoded(raw[3..])[i - 4]
  {
    hide Sextet, SextetChar, EncodedLength, PadCount, Encoded;
    LengthsShift(|raw|);
    EncodedAt(raw, i);
    EncodedAt(raw[3..], i - 4);
    SextetShift(raw, i - 4);
  }

  lemma EncodedTail(raw: Data, t: string)
    requires |raw| >= 3 && |t| == 4 + |Encoded(raw[3..])| && t[4..] == Encoded(raw[3..])
    requires forall i: nat | i < 4 :: t[i] == SextetChar(Sextet(raw, i))
    ensures Encoded(raw) == t
  {
    hide Sextet, SextetChar, Encoded, EncodedLength, PadCount;
    var s := Encoded(raw);
    EncodedStart(raw);
    forall i | 0 <= i < |s| ensures s[i] == t[i] {
      if i >= 4 {
        EncodedShift(raw, i);
        assert t[i] == t[4..][i - 4];
      }
    }
  }

  lemma EncodedStart(raw: Data)
    requires |raw| >= 3
    ensures |Encoded(raw)| == 4 + |Encoded(raw[3..])| == EncodedLength(|raw|)
    ensures forall i: nat | i < 4 :: Encoded(raw)[i] == SextetChar(Sextet(raw, i))
  {
    hide Sextet, SextetChar, Encoded;
    LengthsShift(|raw|);
    EncodedSize(raw);
    EncodedSize(raw[3..]);
    assert EncodedLength(|raw|) - PadCount(|raw|) >= 4;
    forall i: nat | i < 4 ensures Encoded(raw)[i] == SextetChar(Sextet(raw, i)) {
      EncodedAt(raw, i);
    }
  }

  lemma EncodedSize(raw: Data)
    ensures |Encoded(raw)| == EncodedLength(|raw|)
  {
    hide Sextet, SextetChar;
  }

  lemma FirstBytes(raw: Data)
    requires |raw| >= 3
    ensures ByteAt(raw, 0) == raw[0] && ByteAt(raw, 1) == raw[1] && ByteAt(raw, 2) == raw[2]
  {
  }
}
