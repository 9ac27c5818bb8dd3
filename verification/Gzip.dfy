/** The compressor around deflate: header, blocks, and the trailer of RFC 1952. */
module Gzip {
  import opened Bytes
  import opened Crc

  const IN_BLOCK := 128 * 1024
  const OUT_BLOCK := 129 * 1024
  const TWO_TO_32 := 0x1_0000_0000

  /** What zlib gives for a block after earlier input; true asks it to finish. */
  type Deflate = (Text, Text, bool) -> Text

  /** Section 2.3: magic, deflate, no flags, no time, best compression, unknown system. */
  const Header: Text := [0x1F, 0x8B, 0x08, 0x00, 0, 0, 0, 0, 2, 255]

  /** The input goes in by full blocks; the first block that is not full, perhaps
      empty, is the last. */
  function Body(deflate: Deflate, before: Text, rest: Text): (r: Text)
    decreases |rest|
  {
    if |rest| < IN_BLOCK then deflate(before, rest, true)
    else deflate(before, rest[..IN_BLOCK], false) + Body(deflate, before + rest[..IN_BLOCK], rest[IN_BLOCK..])
  }

  function Value(c: bv32): (n: nat)
    ensures n < TWO_TO_32
  {
    c as nat
  }

  /** An unsigned 32-bit sum wraps around. */
  function Wrapped(n: nat): (r: nat)
    ensures r < TWO_TO_32
  {
    n % TWO_TO_32
  }

  lemma WrappedNext(n: nat, more: nat)
    ensures Wrapped(Wrapped(n) + more) == Wrapped(n + more) && Wrapped(0) == 0
  {
  }

  lemma Regroup(a: Text, b: Text, c: Text)
    ensures a + (b + c) == a + b + c
  {
  }

  /** The memory of a 32-bit number, least significant byte first. */
  function Little(n: nat): (s: Text)
    ensures |s| == 4
  {
    [n % 0x100, n / 0x100 % 0x100, n / 0x1_0000 % 0x100, n / 0x100_0000 % 0x100]
  }

  function FromLittle(s: Text): (r: nat)
    requires |s| == 4
  {
    s[0] as nat + 0x100 * (s[1] as nat) + 0x1_0000 * (s[2] as nat) + 0x100_0000 * (s[3] as nat)
  }

  lemma LittleBack(n: nat)
    requires n < TWO_TO_32
    ensures FromLittle(Little(n)) == n
  {
    var a, b, c := n / 0x100, n / 0x1_0000, n / 0x100_0000;
    assert a / 0x100 == b && b / 0x100 == c && c < 0x100;
    assert n == 0x100 * a + n % 0x100 && a == 0x100 * b + a % 0x100 && b == 0x100 * c + b % 0x100;
  }

  /** A member: header, compressed blocks, CRC-32 and size of the whole input. */
  ghost predicate IsMember(dest: Text, src: Text, body: Text) {
    && |dest| == 10 + |body| + 8
    && dest[..10] == Header
    && dest[10..10 + |body|] == body
    && FromLittle(dest[|dest| - 8..|dest| - 4]) == Value(CrcOf(src))
    && FromLittle(dest[|dest| - 4..]) == Wrapped(|src|)
  }

  lemma MemberIs(src: Text, body: Text)
    ensures IsMember(Header + body + Little(Value(CrcOf(src))) + Little(Wrapped(|src|)), src, body)
  {
    hide CrcOf, Value, Little, FromLittle;
    var crc, size := Little(Value(CrcOf(src))), Little(Wrapped(|src|));
    var dest := Header + body + crc + size;
    assert dest[|dest| - 8..|dest| - 4] == crc && dest[|dest| - 4..] == size;
    LittleBack(Value(CrcOf(src)));
    LittleBack(Wrapped(|src|));
  }

  /** The member byte by byte: the fixed header, and at the end the CRC and the size modulo
      2^32, their lowest bytes first. */
  lemma MemberBytes(dest: Text, src: Text, body: Text)
    requires IsMember(dest, src, body)
    ensures |dest| == |body| + 18 && dest == [31, 139, 8, 0, 0, 0, 0, 0, 2, 255] + body + dest[|dest| - 8..]
    ensures var end := dest[|dest| - 8..];
            && end[0] as int + 256 * (end[1] as int) + 65536 * (end[2] as int) + 16777216 * (end[3] as int)
               == CrcOf(src) as int
            && end[4] as int + 256 * (end[5] as int) + 65536 * (end[6] as int) + 16777216 * (end[7] as int)
               == |src| % 4294967296
  {
    hide CrcOf, FromLittle;
    Sections(dest, |body|);
    TrailerBytes(dest[|dest| - 8..]);
    assert dest[|dest| - 8..][..4] == dest[|dest| - 8..|dest| - 4] && dest[|dest| - 8..][4..] == dest[|dest| - 4..];
  }

  lemma Sections(dest: Text, k: nat)
    requires |dest| == 10 + k + 8
    ensures dest == dest[..10] + dest[10..10 + k] + dest[|dest| - 8..]
  {
  }

  lemma TrailerBytes(end: Text)
    requires |end| == 8
    ensures FromLittle(end[..4]) ==
            end[0] as int + 256 * (end[1] as int) + 65536 * (end[2] as int) + 16777216 * (end[3] as int)
    ensures FromLittle(end[4..]) ==
            end[4] as int + 256 * (end[5] as int) + 65536 * (end[6] as int) + 16777216 * (end[7] as int)
  {
  }

  /** The inner loop: zlib is asked again until it leaves room in the output buffer. */
  method Drain(pending: Text, dest: Text) returns (dest': Text)
    ensures dest' == dest + pending
  {
    dest' := dest;
    var left := pending;
    var have := OUT_BLOCK;
    while have == OUT_BLOCK
      invariant dest' + left == dest + pending && (have != OUT_BLOCK ==> left == [])
      decreases |left|, have
    {
      have := if |left| < OUT_BLOCK then |left| else OUT_BLOCK;
      dest' := dest' + left[..have];
      left := left[have..];
    }
  }

  /** One turn of the outer loop on the specification's side. */
  lemma BodyOnce(deflate: Deflate, src: Text, pos: nat, count: nat)
    requires pos + count <= |src| && count == if |src| - pos < IN_BLOCK then |src| - pos else IN_BLOCK
    ensures src[..pos] + src[pos..pos + count] == src[..pos + count]
    ensures Body(deflate, src[..pos], src[pos..]) ==
            if count < IN_BLOCK then deflate(src[..pos], src[pos..pos + count], true)
            else
              deflate(src[..pos], src[pos..pos + count], false)
              + Body(deflate, src[..pos + count], src[pos + count..])
  {
    var before, rest, block := src[..pos], src[pos..], src[pos..pos + count];
    assert before + block == src[..pos + count];
    if count < IN_BLOCK {
      assert block == rest;
    } else {
      assert rest[..IN_BLOCK] == block && rest[IN_BLOCK..] == src[pos + count..];
    }
  }

  /** What deflate gives for the first n blocks of 128 KiB, none of them the last. */
  function FullBlocks(deflate: Deflate, src: Text, n: nat): (r: Text)
    requires 131072 * n <= |src|
  {
    if n == 0 then []
    else
      FullBlocks(deflate, src, n - 1)
      + deflate(src[..131072 * (n - 1)], src[131072 * (n - 1)..131072 * n], false)
  }

  lemma {:induction false} BodyFrom(deflate: Deflate, src: Text, n: nat)
    requires 131072 * n <= |src|
    ensures Body(deflate, [], src) ==
            FullBlocks(deflate, src, n) + Body(deflate, src[..131072 * n], src[131072 * n..])
  {
    hide Body;
    if n == 0 {
      assert src[..0] == [] && src[0..] == src;
    } else {
      BodyFrom(deflate, src, n - 1);
      BodyOnce(deflate, src, 131072 * (n - 1), 131072);
      Regroup(FullBlocks(deflate, src, n - 1),
              deflate(src[..131072 * (n - 1)], src[131072 * (n - 1)..131072 * n], false),
              Body(deflate, src[..131072 * n], src[131072 * n..]));
    }
  }

  /** All blocks but the last are full, and the last, which may be empty, is told to finish. */
  lemma {:induction false} BodyInBlocks(deflate: Deflate, src: Text, n: nat)
    requires 131072 * n <= |src| < 131072 * n + 131072
    ensures Body(deflate, [], src) ==
            FullBlocks(deflate, src, n) + deflate(src[..131072 * n], src[131072 * n..], true)
  {
    hide Body, FullBlocks;
    var pos: nat := 131072 * n;
    BodyFrom(deflate, src, n);
    assert src[pos..pos + (|src| - pos)] == src[pos..];
    BodyOnce(deflate, src, pos, |src| - pos);
  }

  method GzipCompress(src: Text, deflate: Deflate) returns (dest: Text)
    ensures IsMember(dest, src, Body(deflate, [], src))
  {
    hide Updated, CrcOf, Value, Little, Header, IsTable, IsMember, Body, Wrapped;
    dest := Header;
    ghost var goal := Header + Body(deflate, [], src);
    var table := BuildTable();
    var crc: bv32 := 0;
    var totalSize := 0;
    WrappedNext(0, 0);
    var pos: nat := 0;
    var finish := false;
    UpdatedNothing();
    assert src[..0] == [] && src[0..] == src;
    while !finish
      invariant pos <= |src| && (finish ==> pos == |src|) && IsTable(table[..])
      invariant crc == Updated(0, src[..pos]) && totalSize == Wrapped(pos)
      invariant goal == if finish then dest else dest + Body(deflate, src[..pos], src[pos..])
      decreases |src| - pos, !finish
    {
      var count := if |src| - pos < IN_BLOCK then |src| - pos else IN_BLOCK;
      var block := src[pos..pos + count];
      finish := count < IN_BLOCK;
      BodyOnce(deflate, src, pos, count);
      crc := NextCrc(table, crc, src[..pos], block);
      totalSize := Wrapped(totalSize + count);
      WrappedNext(pos, count);
      var out := deflate(src[..pos], block, finish);
      Regroup(dest, out, Body(deflate, src[..pos + count], src[pos + count..]));
      dest := Drain(out, dest);
      pos := pos + count;
    }
    assert src[..pos] == src;
    UpdatedFromZero(src);
    MemberIs(src, Body(deflate, [], src));
    dest := dest + Little(Value(crc));
    dest := dest + Little(totalSize);
  }

  /** The CRC over what has been read, with one more block. */
  method NextCrc(table: array<bv32>, crc: bv32, ghost before: Text, block: Text) returns (crc': bv32)
    requires IsTable(table[..]) && crc == Updated(0, before)
    ensures crc' == Updated(0, before + block)
  {
    hide Updated, IsTable;
    UpdatedAppend(0, before, block);
    crc' := UpdateCrc(table, crc, block);
  }

  lemma UpdatedNothing()
    ensures Updated(0, []) == 0
  {
  }
}
