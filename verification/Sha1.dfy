/** The hash function of FIPS 180-4 (section 6.1), over whole messages. */
module Sha1Standard {

  type octet = n: int | 0 <= n < 256
  type Word32 = n: int | 0 <= n < 0x1_0000_0000

  datatype Hash = Hash(h0: Word32, h1: Word32, h2: Word32, h3: Word32, h4: Word32)

  /* ---- section 3.2: operations on words ---- */

  function Bits(x: Word32): (r: bv32) { x as bv32 }
  function Number(b: bv32): (r: Word32) { b as int }

  function Plus(x: Word32, y: Word32): (r: Word32) { (x + y) % 0x1_0000_0000 }
  function Or(x: Word32, y: Word32): (r: Word32) { Number(Bits(x) | Bits(y)) }
  function Shl(o: octet, n: nat): (r: Word32) requires n <= 24 { Number(Bits(o) << n) }
  function Xor4(x: Word32, y: Word32, z: Word32, u: Word32): (r: Word32) {
    Number(Bits(x) ^ Bits(y) ^ Bits(z) ^ Bits(u))
  }
  function Rotl(x: Word32, n: nat): (r: Word32) requires n <= 32 { Number(RotlBits(Bits(x), n)) }

  function RotlBits(b: bv32, n: nat): (r: bv32)
    requires n <= 32
  {
    (b << n) | (b >> (32 - n))
  }

  /* ---- section 4.1.1 and 4.2.1 ---- */

  function ChBits(x: bv32, y: bv32, z: bv32): (r: bv32) { (x & y) ^ (!x & z) }
  function ParityBits(x: bv32, y: bv32, z: bv32): (r: bv32) { x ^ y ^ z }
  function MajBits(x: bv32, y: bv32, z: bv32): (r: bv32) { (x & y) ^ (x & z) ^ (y & z) }

  function F(t: nat, x: Word32, y: Word32, z: Word32): (r: Word32) {
    Number(if t < 20 then ChBits(Bits(x), Bits(y), Bits(z))
           else if t < 40 then ParityBits(Bits(x), Bits(y), Bits(z))
           else if t < 60 then MajBits(Bits(x), Bits(y), Bits(z))
           else ParityBits(Bits(x), Bits(y), Bits(z)))
  }

  function K(t: nat): (r: Word32) {
    if t < 20 then 0x5a827999 else if t < 40 then 0x6ed9eba1 else if t < 60 then 0x8f1bbcdc else 0xca62c1d6
  }

  /* ---- section 6.1.2 ---- */

  /** A big-endian word. */
  function Joined(a: octet, b: octet, c: octet, d: octet): (r: Word32) {
    Or(Or(Or(Shl(a, 24), Shl(b, 16)), Shl(c, 8)), Shl(d, 0))
  }

  /** Step 1: the message schedule. */
  function W(block: seq<octet>, t: nat): (r: Word32)
    requires |block| == 64
  {
    if t < 16 then Joined(block[4 * t], block[4 * t + 1], block[4 * t + 2], block[4 * t + 3])
    else Rotl(Xor4(W(block, t - 3), W(block, t - 8), W(block, t - 14), W(block, t - 16)), 1)
  }

  /** Step 3: the working variables after `t` rounds. */
  function Rounds(h: Hash, block: seq<octet>, t: nat): (r: Hash)
    requires |block| == 64
  {
    if t == 0 then h else Round(Rounds(h, block, t - 1), t - 1, W(block, t - 1))
  }

  function Total(a: Word32, f: Word32, e: Word32, k: Word32, w: Word32): (r: Word32) {
    Plus(Plus(Plus(Plus(a, f), e), k), w)
  }

  function Round(v: Hash, t: nat, w: Word32): (r: Hash) {
    Hash(Total(Rotl(v.h0, 5), F(t, v.h1, v.h2, v.h3), v.h4, K(t), w), v.h0, Rotl(v.h1, 30), v.h2, v.h3)
  }

  /** Step 4: the next intermediate hash value. */
  function Compress(h: Hash, block: seq<octet>): (r: Hash)
    requires |block| == 64
  {
    Added(h, Rounds(h, block, 80))
  }

  function Added(h: Hash, v: Hash): (r: Hash) {
    Hash(Plus(h.h0, v.h0), Plus(h.h1, v.h1), Plus(h.h2, v.h2), Plus(h.h3, v.h3), Plus(h.h4, v.h4))
  }

  /** Section 5.3.1. */
  const Initial := Hash(0x67452301, 0xefcdab89, 0x98badcfe, 0x10325476, 0xc3d2e1f0)

  /** The hash value after the first `n` blocks. */
  function Chain(s: seq<octet>, n: nat): (r: Hash)
    requires 64 * n <= |s|
  {
    if n == 0 then Initial else Compress(Chain(s, n - 1), s[64 * n - 64..64 * n])
  }

  /* ---- section 5.1.1 ---- */

  function Zeros(n: nat): (s: seq<octet>)
    ensures |s| == n
  {
    seq(n, _ => 0)
  }

  /** The low octet of a number. */
  function Low(n: nat): (r: octet) { n % 256 }

  /** A number in `k` octets, the most significant first. */
  function BigEndian(n: nat, k: nat): (s: seq<octet>)
    ensures |s| == k
  {
    if k == 0 then [] else BigEndian(n / 256, k - 1) + [Low(n)]
  }

  predicate FillsBlocks(length: nat, zeros: nat) {
    (length + 1 + zeros + 8) % 64 == 0
  }

  /** The smallest number of zero octets that completes the last block. */
  function ZeroCount(length: nat): (k: nat)
    ensures FillsBlocks(length, k) && forall j: nat :: FillsBlocks(length, j) ==> k <= j
  {
    (55 - length) % 64
  }

  function Padded(m: seq<octet>): (r: seq<octet>) {
    m + [0x80] + Zeros(ZeroCount(|m|)) + BigEndian(8 * |m|, 8)
  }

  function Sha1(m: seq<octet>): (r: Hash) {
    Chain(Padded(m), |Padded(m)| / 64)
  }
}

/** The streaming implementation: one block, filled an octet at a time. */
module Sha1Stream {
  import opened Sha1Standard

  const TWO_TO_64 := 0x1_0000_0000_0000_0000
  const TWO_TO_61 := 0x2000_0000_0000_0000
  const TWO_TO_29 := 0x2000_0000

  function LeftRotate(value: Word32, count: nat): (r: Word32)
    requires count <= 32
  {
    Number(LeftRotateBits(Bits(value), count))
  }

  function LeftRotateBits(b: bv32, count: nat): (r: bv32)
    requires count <= 32
  {
    (b << count) ^ (b >> (32 - count))
  }

  /** The round functions as the code writes them. */
  function Mixed(i: nat, b: Word32, c: Word32, d: Word32): (r: Word32) {
    Number(if i < 20 then Choice(Bits(b), Bits(c), Bits(d))
           else if i < 40 then ParityBits(Bits(b), Bits(c), Bits(d))
           else if i < 60 then Majority(Bits(b), Bits(c), Bits(d))
           else ParityBits(Bits(b), Bits(c), Bits(d)))
  }

  function Choice(x: bv32, y: bv32, z: bv32): (r: bv32) { (x & y) | (!x & z) }
  function Majority(x: bv32, y: bv32, z: bv32): (r: bv32) { (x & y) | (x & z) | (y & z) }

  lemma RotatesAlike(x: Word32, n: nat)
    requires n == 1 || n == 5 || n == 30
    ensures LeftRotate(x, n) == Rotl(x, n)
  {
    hide Bits, Number, LeftRotateBits, RotlBits;
    BitsRotate(Bits(x), n);
  }

  lemma BitsRotate(b: bv32, n: nat)
    requires n == 1 || n == 5 || n == 30
    ensures LeftRotateBits(b, n) == RotlBits(b, n)
  {
    if n == 1 {
      assert (b << 1) ^ (b >> 31) == (b << 1) | (b >> 31);
    } else if n == 5 {
      assert (b << 5) ^ (b >> 27) == (b << 5) | (b >> 27);
    } else {
      assert (b << 30) ^ (b >> 2) == (b << 30) | (b >> 2);
    }
  }

  lemma MixesAlike(i: nat, b: Word32, c: Word32, d: Word32)
    ensures Mixed(i, b, c, d) == F(i, b, c, d)
  {
    hide Bits, Number, Choice, ChBits, Majority, MajBits;
    BitsChoose(Bits(b), Bits(c), Bits(d));
    BitsAgree(Bits(b), Bits(c), Bits(d));
  }

  lemma BitsChoose(x: bv32, y: bv32, z: bv32)
    ensures Choice(x, y, z) == ChBits(x, y, z)
  {
    assert (x & y) | (!x & z) == (x & y) ^ (!x & z);
  }

  lemma BitsAgree(x: bv32, y: bv32, z: bv32)
    ensures Majority(x, y, z) == MajBits(x, y, z)
  {
    assert (x & y) | (x & z) | (y & z) == (x & y) ^ (x & z) ^ (y & z);
  }

  lemma NextWord(m: seq<octet>, i: nat)
    requires |m| == 64 && 16 <= i
    ensures W(m, i) == LeftRotate(Xor4(W(m, i - 3), W(m, i - 8), W(m, i - 14), W(m, i - 16)), 1)
  {
    hide LeftRotate, Rotl, Xor4;
    RotatesAlike(Xor4(W(m, i - 3), W(m, i - 8), W(m, i - 14), W(m, i - 16)), 1);
  }

  lemma RoundsAlike(v: Hash, i: nat, w: Word32)
    ensures Hash(Total(LeftRotate(v.h0, 5), Mixed(i, v.h1, v.h2, v.h3), v.h4, K(i), w),
                 v.h0, LeftRotate(v.h1, 30), v.h2, v.h3) == Round(v, i, w)
  {
    hide LeftRotate, Rotl, Mixed, F, Total;
    RotatesAlike(v.h0, 5);
    RotatesAlike(v.h1, 30);
    MixesAlike(i, v.h1, v.h2, v.h3);
  }

  /** Later octets do not matter. */
  lemma {:induction false} ChainKeeps(s: seq<octet>, more: seq<octet>, n: nat)
    requires 64 * n <= |s|
    ensures Chain(s + more, n) == Chain(s, n)
  {
    hide Compress;
    if n > 0 {
      ChainKeeps(s, more, n - 1);
      assert (s + more)[64 * n - 64..64 * n] == s[64 * n - 64..64 * n];
    }
  }

  lemma ChainGrows(s: seq<octet>, o: octet, n: nat)
    requires 64 * n <= |s| < 64 * n + 64
    ensures Chain(s + [o], n) == Chain(s, n)
    ensures |s| == 64 * n + 63 ==> Chain(s + [o], n + 1) == Compress(Chain(s, n), (s + [o])[64 * n..64 * n + 64])
  {
    hide Compress;
    ChainKeeps(s, [o], n);
  }

  /** The part of the block in use, when an octet is put behind it. */
  lemma FillGrows(s: seq<octet>, o: octet, n: nat, block: seq<octet>, i: nat)
    requires |s| == 64 * n + i && i < 64 == |block| && block[..i] == s[64 * n..]
    ensures block[i := o][..i + 1] == (s + [o])[64 * n..]
    ensures i == 63 ==> block[i := o] == (s + [o])[64 * n..64 * n + 64] && (s + [o])[64 * n + 64..] == []
  {
    assert block[i := o][..i] == block[..i];
    assert block[i := o][..i + 1] == block[..i] + [o];
  }

  /** What getDigest feeds after a message: the low 32 bits of the bit count only. */
  function Tail(length: nat): (r: seq<octet>) {
    [0x80] + Zeros(ZeroCount(length)) + Count(BitCount(Wrapped(length)))
  }

  /** The counters are 64 bits wide. */
  function Wrapped(n: nat): (r: nat) {
    n % TWO_TO_64
  }

  lemma WrappedNext(n: nat)
    ensures Wrapped(Wrapped(n) + 1) == Wrapped(n + 1)
  {
  }

  function BitCount(byteCount: nat): (r: nat) {
    Wrapped(byteCount * 8)
  }

  function Count(bitCount: nat): (s: seq<octet>)
    ensures |s| == 8
  {
    [0, 0, 0, 0] + [Low(bitCount / 0x100_0000), Low(bitCount / 0x1_0000), Low(bitCount / 0x100), Low(bitCount)]
  }

  class SHA1 {
    const digest: array<Word32>
    const block: array<octet>
    var blockByteIndex: nat
    var byteCount: nat
    /** Everything fed since the last reset, and how many complete blocks that is. */
    ghost var fed: seq<octet>
    ghost var blocks: nat

    ghost predicate Shape() {
      digest.Length == 5 && block.Length == 64
    }

    function State(): (r: Hash)
      requires Shape()
      reads digest
    {
      Hash(digest[0], digest[1], digest[2], digest[3], digest[4])
    }

    ghost predicate Valid()
      reads this, digest, block
    {
      && Shape()
      && |fed| == 64 * blocks + blockByteIndex && blockByteIndex < 64
      && byteCount == Wrapped(|fed|)
      && State() == Chain(fed, blocks)
      && block[..blockByteIndex] == fed[64 * blocks..]
    }

    constructor ()
      ensures Valid() && fed == [] && fresh(digest) && fresh(block)
    {
      digest, block := new Word32[5], new octet[64];
      new;
      Reset();
    }

    method Reset()
      requires Shape()
      modifies this, digest
      ensures Valid() && fed == []
    {
      digest[0] := 0x67452301;
      digest[1] := 0xEFCDAB89;
      digest[2] := 0x98BADCFE;
      digest[3] := 0x10325476;
      digest[4] := 0xC3D2E1F0;
      blockByteIndex, byteCount := 0, 0;
      fed, blocks := [], 0;
    }

    method ProcessBlock()
      requires Shape()
      modifies digest
      ensures State() == Compress(old(State()), block[..])
    {
      hide Rounds, Added;
      ghost var m := block[..];
      var w := Schedule();
      assert block[..] == m;
      var v := Mix(w, m);
      AddIn(v);
      assert block[..] == m;
    }

    method AddIn(v: Hash)
      requires Shape()
      modifies digest
      ensures State() == Added(old(State()), v)
    {
      hide Plus;
      digest[0] := Plus(digest[0], v.h0);
      digest[1] := Plus(digest[1], v.h1);
      digest[2] := Plus(digest[2], v.h2);
      digest[3] := Plus(digest[3], v.h3);
      digest[4] := Plus(digest[4], v.h4);
    }

    /** The loop over the message schedule. */
    method Mix(w: array<Word32>, ghost m: seq<octet>) returns (v: Hash)
      requires Shape() && |m| == 64
      requires w.Length == 80 && forall t :: 0 <= t < 80 ==> w[t] == W(m, t)
      ensures v == Rounds(State(), m, 80)
    {
      hide Round, LeftRotate, Mixed, K, W, Total;
      var a, b, c, d, e := digest[0], digest[1], digest[2], digest[3], digest[4];
      for i := 0 to 80
        invariant Hash(a, b, c, d, e) == Rounds(State(), m, i)
      {
        RoundsAlike(Hash(a, b, c, d, e), i, w[i]);
        var f, k := Mixed(i, b, c, d), K(i);
        var temp := Total(LeftRotate(a, 5), f, e, k, w[i]);
        e := d;
        d := c;
        c := LeftRotate(b, 30);
        b := a;
        a := temp;
      }
      v := Hash(a, b, c, d, e);
    }

    method Schedule() returns (w: array<Word32>)
      requires Shape()
      ensures fresh(w) && w.Length == 80 && forall t :: 0 <= t < 80 ==> w[t] == W(block[..], t)
    {
      ghost var m := block[..];
      w := new Word32[80];
      LoadWords(w);
      assert block[..] == m;
      Extend(w, m);
      assert block[..] == m;
    }

    method Extend(w: array<Word32>, ghost m: seq<octet>)
      requires w.Length == 80 && |m| == 64 && forall t :: 0 <= t < 16 ==> w[t] == W(m, t)
      modifies w
      ensures forall t :: 0 <= t < 80 ==> w[t] == W(m, t)
    {
      hide LeftRotate, Xor4, W;
      for i := 16 to 80
        invariant forall t :: 0 <= t < i ==> w[t] == W(m, t)
      {
        NextWord(m, i);
        w[i] := LeftRotate(Xor4(w[i - 3], w[i - 8], w[i - 14], w[i - 16]), 1);
      }
    }

    method LoadWords(w: array<Word32>)
      requires Shape() && w.Length == 80
      modifies w
      ensures forall t :: 0 <= t < 16 ==> w[t] == W(block[..], t)
    {
      hide Or, Shl;
      ghost var m := block[..];
      for i := 0 to 16
        invariant block[..] == m
        invariant forall t :: 0 <= t < i ==> w[t] == W(m, t)
      {
        w[i] := Shl(block[i * 4], 24);
        w[i] := Or(w[i], Shl(block[i * 4 + 1], 16));
        w[i] := Or(w[i], Shl(block[i * 4 + 2], 8));
        w[i] := Or(w[i], Shl(block[i * 4 + 3], 0));
      }
    }

    method ProcessByte(o: octet)
      requires Valid()
      modifies this, digest, block
      ensures Valid() && fed == old(fed) + [o]
      ensures if old(blockByteIndex) == 63 then blocks == old(blocks) + 1 && blockByteIndex == 0
              else blocks == old(blocks) && blockByteIndex == old(blockByteIndex) + 1
      ensures |fed| == 64 * blocks + blockByteIndex && blockByteIndex < 64
    {
      hide Compress, Chain, State, Wrapped;
      ChainGrows(fed, o, blocks);
      FillGrows(fed, o, blocks, block[..], blockByteIndex);
      block[blockByteIndex] := o;
      blockByteIndex := blockByteIndex + 1;
      WrappedNext(|fed|);
      byteCount := Wrapped(byteCount + 1);
      fed := fed + [o];
      if blockByteIndex == 64 {
        blockByteIndex := 0;
        ProcessBlock();
        blocks := blocks + 1;
      }
    }

    /** Feeding a chunk is feeding its octets, wherever the block boundary falls. */
    method ProcessBytes(data: seq<octet>)
      requires Valid()
      modifies this, digest, block
      ensures Valid() && fed == old(fed) + data
    {
      hide Valid;
      for i := 0 to |data|
        invariant Valid() && fed == old(fed) + data[..i]
      {
        ProcessByte(data[i]);
      }
    }

    method GetDigest() returns (h: Hash)
      requires Valid()
      modifies this, digest, block
      ensures Valid() && fed == old(fed) + Tail(|old(fed)|)
      ensures |fed| == 64 * blocks && h == Chain(fed, blocks)
      ensures |old(fed)| < TWO_TO_29 ==> h == Sha1(old(fed))
    {
      assert byteCount == Wrapped(|fed|) && |fed| == 64 * blocks + blockByteIndex;
      hide Valid, Chain, Tail, Count, Zeros, ZeroCount, Sha1, BitCount;
      ghost var m := fed;
      var bitCount := BitCount(byteCount);
      Fill();
      ghost var last := blocks;
      PutCount(bitCount);
      assert |fed| == 64 * (last + 1) && blocks == last + 1;
      h := Current();
      DigestIs(m, fed, blocks);
    }

    /** The digest as octets, each word big-endian. */
    method GetDigestBytes() returns (bytes: array<octet>)
      requires Valid()
      modifies this, digest, block
      ensures Valid() && fed == old(fed) + Tail(|old(fed)|)
      ensures fresh(bytes) && bytes.Length == 20
      ensures |old(fed)| < TWO_TO_29 ==> bytes[..] == Octets(Sha1(old(fed)))
    {
      hide Valid, Chain, Tail, Sha1;
      var h := GetDigest();
      bytes := Spread(h);
    }

    /** The copy of the digest for the caller. */
    method Current() returns (h: Hash)
      requires Valid()
      ensures h == Chain(fed, blocks)
    {
      h := State();
    }

    /** Four zero octets, then the low 32 bits. */
    method PutCount(bitCount: nat)
      requires Valid()
      modifies this, digest, block
      ensures Valid() && fed == old(fed) + Count(bitCount)
      ensures |fed| == 64 * blocks + blockByteIndex && blockByteIndex < 64
      ensures |fed| == |old(fed)| + 8
    {
      hide Valid, Low;
      ProcessByte(0);
      ProcessByte(0);
      ProcessByte(0);
      ProcessByte(0);
      ProcessByte(Low(bitCount / 0x100_0000));
      ProcessByte(Low(bitCount / 0x1_0000));
      ProcessByte(Low(bitCount / 0x100));
      ProcessByte(Low(bitCount));
    }

    /** The marker octet and the zeros. */
    method Fill()
      requires Valid() && |fed| == 64 * blocks + blockByteIndex
      modifies this, digest, block
      ensures Valid() && blockByteIndex == 56 && |fed| == 64 * blocks + 56
      ensures fed == old(fed) + [0x80] + Zeros(ZeroCount(|old(fed)|))
    {
      hide Valid, Zeros, ZeroCount;
      ghost var m := fed;
      ProcessByte(0x80);
      ghost var start, first := blockByteIndex, blocks;
      ghost var zeros := 0;
      NoZeros(m);
      if blockByteIndex > 56 {
        while blockByteIndex != 0
          invariant Valid() && fed == m + [0x80] + Zeros(zeros)
          invariant |m| + 1 + zeros == 64 * blocks + blockByteIndex
          invariant if blockByteIndex == 0 then blocks == first + 1 else blocks == first && blockByteIndex > 56
          decreases 64 * first + 64 - |fed|
        {
          OneMoreZero(m, zeros);
          ProcessByte(0);
          zeros := zeros + 1;
        }
      }
      ghost var last := blocks;
      while blockByteIndex < 56
        invariant Valid() && fed == m + [0x80] + Zeros(zeros)
        invariant |m| + 1 + zeros == 64 * blocks + blockByteIndex
        invariant blockByteIndex <= 56 && blocks == last
        decreases 56 - blockByteIndex
      {
        OneMoreZero(m, zeros);
        ProcessByte(0);
        zeros := zeros + 1;
      }
      ZerosNeeded(|m|, zeros, blocks);
    }
  }

  lemma NoZeros(m: seq<octet>)
    ensures m + [0x80] == m + [0x80] + Zeros(0)
  {
  }

  lemma OneMoreZero(m: seq<octet>, k: nat)
    ensures m + [0x80] + Zeros(k) + [0] == m + [0x80] + Zeros(k + 1)
  {
  }

  lemma ZerosNeeded(length: nat, zeros: nat, q: nat)
    requires length + 1 + zeros == 64 * q + 56 && zeros < 64
    ensures zeros == ZeroCount(length)
  {
  }

  lemma {:induction false} DigestIs(m: seq<octet>, s: seq<octet>, n: nat)
    requires s == m + [0x80] + Zeros(ZeroCount(|m|)) + Count(BitCount(Wrapped(|m|))) && |s| == 64 * n
    ensures s == m + Tail(|m|)
    ensures |m| < TWO_TO_29 ==> Chain(s, n) == Sha1(m)
  {
    hide Chain, Count, Zeros, ZeroCount, BitCount, Padded;
    assert s == m + Tail(|m|);
    if |m| < TWO_TO_29 {
      PaddingExact(m);
    }
  }

  function Octets(h: Hash): (r: seq<octet>) {
    BigEndian(h.h0, 4) + BigEndian(h.h1, 4) + BigEndian(h.h2, 4) + BigEndian(h.h3, 4) + BigEndian(h.h4, 4)
  }

  /** The copy of the words into octets, most significant first. */
  method Spread(h: Hash) returns (bytes: array<octet>)
    ensures fresh(bytes) && bytes.Length == 20 && bytes[..] == Octets(h)
  {
    hide BigEndian;
    bytes := new octet[20];
    var di := PutWord(bytes, 0, h.h0);
    di := PutWord(bytes, di, h.h1);
    di := PutWord(bytes, di, h.h2);
    di := PutWord(bytes, di, h.h3);
    di := PutWord(bytes, di, h.h4);
    assert bytes[..] == bytes[..20];
  }

  method PutWord(bytes: array<octet>, di: nat, w: Word32) returns (di': nat)
    requires di + 4 <= bytes.Length
    modifies bytes
    ensures di' == di + 4 && bytes[..di'] == old(bytes[..di]) + BigEndian(w, 4)
  {
    hide BigEndian, Low;
    FourOctets(w, 0);
    NoOctets(w / 0x1_0000_0000);
    di' := di;
    bytes[di'] := Low(w / 0x100_0000);
    di' := di' + 1;
    bytes[di'] := Low(w / 0x1_0000);
    di' := di' + 1;
    bytes[di'] := Low(w / 0x100);
    di' := di' + 1;
    bytes[di'] := Low(w);
    di' := di' + 1;
  }

  lemma {:induction false} NoOctets(n: nat)
    ensures BigEndian(n, 0) == []
  {
  }

  function Flatten(chunks: seq<seq<octet>>): (r: seq<octet>) {
    if chunks == [] then [] else Flatten(chunks[..|chunks| - 1]) + chunks[|chunks| - 1]
  }

  /** However a message is cut into calls, the first digest after a reset is the standard's. */
  method HashOfChunks(sha: SHA1, chunks: seq<seq<octet>>) returns (h: Hash)
    requires sha.Shape() && |Flatten(chunks)| < TWO_TO_29
    modifies sha, sha.digest, sha.block
    ensures h == Sha1(Flatten(chunks))
  {
    hide SHA1.Valid, Sha1;
    sha.Reset();
    for i := 0 to |chunks|
      invariant sha.Valid() && sha.fed == Flatten(chunks[..i])
    {
      assert chunks[..i + 1][..i] == chunks[..i];
      sha.ProcessBytes(chunks[i]);
    }
    assert chunks[..|chunks|] == chunks;
    h := sha.GetDigest();
  }

  /** The padding is the standard's for exactly the messages whose bit count fits in 32 bits. */
  lemma PaddingExact(m: seq<octet>)
    requires |m| < TWO_TO_61
    ensures m + Tail(|m|) == Padded(m) <==> |m| < TWO_TO_29
  {
    hide ZeroCount, Count, BigEndian;
    var n, k := 8 * |m|, ZeroCount(|m|);
    var start := m + [0x80] + Zeros(k);
    assert m + Tail(|m|) == start + Count(n) && Padded(m) == start + BigEndian(n, 8);
    SameEnd(start, Count(n), BigEndian(n, 8));
    LowHalf(n);
  }

  /** The message of 2^29 zero octets gets the length octets of an empty one. */
  lemma HalfGigabyteMisread()
    ensures Count(BitCount(Wrapped(TWO_TO_29))) == Count(BitCount(Wrapped(0)))
    ensures var m := Zeros(TWO_TO_29);
            m + Tail(|m|) != Padded(m)
  {
    hide Zeros, ZeroCount, BigEndian, Tail, Padded;
    PaddingExact(Zeros(TWO_TO_29));
  }

  lemma SameEnd(start: seq<octet>, s: seq<octet>, t: seq<octet>)
    ensures start + s == start + t <==> s == t
  {
    assert (start + s)[|start|..] == s && (start + t)[|start|..] == t;
  }

  /** The eight octets of a number start with four zero octets for numbers below 2^32 only. */
  lemma {:induction false} LowHalf(n: nat)
    requires n < TWO_TO_64
    ensures BigEndian(n, 8) == Count(n) <==> n < 0x1_0000_0000
  {
    hide Low, BigEndian;
    FourOctets(n, 4);
    var high := n / 0x1_0000_0000;
    FourOctets(high, 0);
    var top := [Low(high / 0x100_0000), Low(high / 0x1_0000), Low(high / 0x100), Low(high)];
    assert BigEndian(high / 0x1_0000_0000, 0) == [];
    assert BigEndian(n, 8)[..4] == top;
    LowZero(high);
  }

  lemma LowZero(n: nat)
    requires n < 0x1_0000_0000
    ensures n == 0 <==> Low(n) == 0 && Low(n / 0x100) == 0 && Low(n / 0x1_0000) == 0 && Low(n / 0x100_0000) == 0
  {
  }

  lemma {:induction false} FourOctets(n: nat, k: nat)
    ensures BigEndian(n, k + 4) ==
            BigEndian(n / 0x1_0000_0000, k) + [Low(n / 0x100_0000), Low(n / 0x1_0000), Low(n / 0x100), Low(n)]
  {
    hide Low, BigEndian;
    var a, b, c := n / 0x100, n / 0x1_0000, n / 0x100_0000;
    assert a / 256 == b && b / 256 == c && c / 256 == n / 0x1_0000_0000;
    OctetStep(n, k + 3);
    OctetStep(a, k + 2);
    OctetStep(b, k + 1);
    OctetStep(c, k);
  }

  lemma {:induction false} OctetStep(n: nat, k: nat)
    ensures BigEndian(n, k + 1) == BigEndian(n / 256, k) + [Low(n)]
  {
  }
}
