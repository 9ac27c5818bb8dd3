/** The 512-byte UStar header: how it is filled in, checked and read back. */
module TarHeader {
  import opened Bytes

  const SIZE: nat := 512

  // Field offsets of the packed struct (each field ends where the next begins).
  const NAME: nat := 0
  const MODE: nat := 100
  const UID: nat := 108
  const GID: nat := 116
  const FILE_SIZE: nat := 124
  const MTIME: nat := 136
  const CHECKSUM: nat := 148
  const TYPEFLAG: nat := 156
  const LINKNAME: nat := 157
  const MAGIC: nat := 257
  const VERSION: nat := 263
  const UNAME: nat := 265
  const PREFIX: nat := 345
  const PAD: nat := 500

  const USTAR: Text := [117, 115, 116, 97, 114]
  const EIGHT_SPACES: Text := Repeat(SPACE, 8)
  const TWO_TO_32: nat := 0x1_0000_0000
  const MAX_SIZE: nat := 8589934591 // octal 77777777777

  datatype Kind = Regular | HardLink | SymLink | CharDevice | BlockDevice | Directory | Fifo | Reserved

  datatype Error =
    | FileTooLarge
    | NameTooLong
    | NoNameSplit
    | ChecksumOverflow
    | LinkTargetTooLong
    | StreamEnded
    | BadChecksum
    | SizeNotTerminated
    | OverlargeSize
    | ModeNotTerminated
    | NumberMissing

  /** What a header takes from its surroundings: the user, the group and the clock. */
  datatype Surroundings = Surroundings(uid: nat, gid: nat, time: nat)

  type Env = e: Surroundings | e.uid < TWO_TO_32 && e.gid < TWO_TO_32 && e.time < TWO_TO_32
    witness Surroundings(0, 0, 0)

  function TypeFlag(kind: Kind): (b: byte)
    ensures IsOctal(b)
  {
    DIGIT_0 + match kind
    case Regular => 0
    case HardLink => 1
    case SymLink => 2
    case CharDevice => 3
    case BlockDevice => 4
    case Directory => 5
    case Fifo => 6
    case Reserved => 7
  }

  function KindOfFlag(flag: byte): (r: Kind) {
    if flag == DIGIT_0 + 1 then HardLink
    else if flag == DIGIT_0 + 2 then SymLink
    else if flag == DIGIT_0 + 3 then CharDevice
    else if flag == DIGIT_0 + 4 then BlockDevice
    else if flag == DIGIT_0 + 5 then Directory
    else if flag == DIGIT_0 + 6 then Fifo
    else if flag == DIGIT_0 + 7 then Reserved
    else Regular
  }

  lemma KindRoundTrip(kind: Kind)
    ensures KindOfFlag(TypeFlag(kind)) == kind
  {
  }

  /* ---- splitting a long name ---- */

  /** First index in [from, end) holding a '/'. */
  function FirstSlash(path: Text, from: nat, end: nat): (r: Option<nat>)
    requires from <= end <= |path|
    ensures r.Some? ==> from <= r.value < end && path[r.value] == SLASH
    ensures r.Some? ==> forall i :: from <= i < r.value ==> path[i] != SLASH
    ensures r.None? ==> forall i :: from <= i < end ==> path[i] != SLASH
    decreases end - from
  {
    if from == end then None
    else if path[from] == SLASH then Some(from)
    else FirstSlash(path, from + 1, end)
  }

  /** Where the header constructor splits a path of 101 to 256 bytes. The loop's
      last index is 156; indices past the end of the path hold no '/'. */
  function SplitIndex(path: Text): (r: Option<nat>)
    requires 100 < |path| <= 256
  {
    FirstSlash(path, |path| - 101, if |path| < 157 then |path| else 157)
  }

  /** The bytes copied over the prefix and name fields. */
  datatype Name = Name(prefix: Text, name: Text)

  function SplitName(path: Text): (r: Result<Name, Error>)
    ensures r.Success? ==> |r.value.name| <= 100 && |r.value.prefix| <= 156
  {
    if |path| <= 100 then Success(Name([], path))
    else if |path| > 256 then Failure(NameTooLong)
    else match SplitIndex(path)
         case None => Failure(NoNameSplit)
         case Some(i) => Success(Name(path[..i], path[i + 1..]))
  }

  /* ---- the header's contents ---- */

  function WithName(h: Text, n: Name): (r: Text)
    requires |h| == SIZE && |n.name| <= 100 && |n.prefix| <= 156
    ensures |r| == SIZE
  {
    Put(Put(h, PREFIX, n.prefix), NAME, n.name)
  }

  /** The numeric fields, in the order in which they are printed. A user or group
      id of eight or more octal digits spills into the following field, which is
      printed later. */
  function WithNumbers(h: Text, size: nat, env: Env): (r: Text)
    requires |h| == SIZE
    ensures |r| == SIZE
  {
    NumberWidths(env.uid, env.gid, env.time);
    NumberWidth(size % TWO_TO_32);
    var h1 := Put(h, MODE, PrintOctal(7, 0x1A4));
    var h2 := Put(h1, UID, PrintOctal(7, env.uid));
    var h3 := Put(h2, GID, PrintOctal(7, env.gid));
    var h4 := Put(h3, FILE_SIZE, PrintOctal(11, size % TWO_TO_32));
    Put(h4, MTIME, PrintOctal(11, env.time))
  }

  function WithType(h: Text, kind: Kind): (r: Text)
    requires |h| == SIZE
    ensures |r| == SIZE
  {
    var h1 := Put(h, TYPEFLAG, [TypeFlag(kind)]);
    var h2 := Put(h1, MAGIC, USTAR + [NUL]);
    Put(h2, VERSION, [SPACE, NUL])
  }

  lemma NumberWidth(n: nat)
    requires n < TWO_TO_32
    ensures |PrintOctal(7, n)| <= 12 && |PrintOctal(11, n)| == 12
  {
    assert Pow8(11) == 0x2_0000_0000;
    OctalLength(n, 11);
  }

  lemma NumberWidths(a: nat, b: nat, c: nat)
    requires a < TWO_TO_32 && b < TWO_TO_32 && c < TWO_TO_32
    ensures |PrintOctal(7, a)| <= 12 && |PrintOctal(7, b)| <= 12 && |PrintOctal(11, c)| == 12
    ensures |PrintOctal(7, 0x1A4)| == 8
  {
    NumberWidth(a);
    NumberWidth(b);
    NumberWidth(c);
    assert Pow8(7) == 0x20_0000;
    PrintedLength(7, 0x1A4);
  }

  /** The sum that a checksum is computed from: its own field counts as spaces. */
  function Unsummed(h: Text): (r: Text)
    requires |h| == SIZE
    ensures |r| == SIZE
  {
    Put(h, CHECKSUM, EIGHT_SPACES)
  }

  /** The checksum field as setChecksum leaves it: "%6o", its NUL, and a space. */
  function ChecksumField(sum: nat): (r: Text) {
    PadLeft(SPACE, 6, OctalDigits(sum)) + [NUL, SPACE]
  }

  function Summed(h: Text): (r: Text)
    requires |h| == SIZE
    ensures |r| == SIZE
  {
    var sum := Sum(Unsummed(h));
    ChecksumFits(Unsummed(h));
    Put(h, CHECKSUM, ChecksumField(sum))
  }

  /** The byte sum of a header never needs more than six octal digits. */
  lemma {:induction false} ChecksumFits(h: Text)
    requires |h| == SIZE
    ensures Sum(h) <= 130560 <= 0x3FFFF
    ensures |OctalDigits(Sum(h))| <= 6 && |ChecksumField(Sum(h))| == 8
  {
    assert Pow8(6) == 0x40000;
    OctalLength(Sum(h), 6);
  }

  function FilledHeader(path: Text, size: nat, kind: Kind, env: Env): (r: Result<Text, Error>)
    ensures r.Success? ==> |r.value| == SIZE
  {
    if size > MAX_SIZE then Failure(FileTooLarge)
    else match SplitName(path)
         case Failure(e) => Failure(e)
         case Success(n) =>
           Success(Summed(WithType(WithNumbers(WithName(Zeros(SIZE), n), size, env), kind)))
  }

  /** The header of a symbolic link: the target is copied in, then summed again. */
  function LinkHeader(path: Text, target: Text, env: Env): (r: Result<Text, Error>)
    ensures r.Success? ==> |r.value| == SIZE
  {
    match FilledHeader(path, 0, SymLink, env)
    case Failure(e) => Failure(e)
    case Success(h) =>
      if |target| > 100 then Failure(LinkTargetTooLong) else Success(Summed(Put(h, LINKNAME, target)))
  }

  /* ---- reading fields back ---- */

  /** getName: the prefix field, a '/' and the name field. */
  function HeaderName(h: Text): (r: Text)
    requires |h| == SIZE
  {
    var prefix := CString(h[PREFIX..PAD]);
    (if prefix == [] then [] else prefix + [SLASH]) + CString(h[NAME..MODE])
  }

  predicate IsSpace(b: byte) {
    b == SPACE || 9 <= b <= 13
  }

  /** The number that checksumValid extracts from the field, or None when it
      meets a character it rejects. */
  function StoredSum(field: Text, found: bool, acc: nat): (r: Option<nat>)
    decreases field
  {
    if field == [] then Some(acc)
    else if !found && IsSpace(field[0]) then StoredSum(field[1..], found, acc)
    else if found && (field[0] == NUL || field[0] == SPACE) then Some(acc)
    else if IsOctal(field[0]) then StoredSum(field[1..], true, (if found then 8 * acc else 0) + (field[0] - DIGIT_0))
    else None
  }

  predicate ChecksumOk(h: Text)
    requires |h| == SIZE
  {
    StoredSum(h[CHECKSUM..TYPEFLAG], false, 0) == Some(Sum(Unsummed(h)))
  }

  /* ---- the struct and its member functions ---- */

  /** The three writes of setChecksum together. */
  lemma ChecksumWritten(h: Text, digits: Text)
    requires |h| == SIZE && |digits| == 6
    ensures Put(Put(h, CHECKSUM, EIGHT_SPACES), CHECKSUM, digits + [NUL])[CHECKSUM + 7 := SPACE]
            == Put(h, CHECKSUM, digits + [NUL, SPACE])
  {
  }

  class Header {
    const raw: array<byte>

    ghost predicate Valid() {
      raw.Length == SIZE
    }

    /** The default constructor: all NULs. */
    constructor ()
      ensures Valid() && fresh(raw) && raw[..] == Zeros(SIZE)
    {
      raw := new byte[SIZE](_ => NUL);
      new;
      assert raw[..] == Zeros(SIZE);
    }

    /** memcpy, std::copy or sprintf into the struct's memory. */
    method Write(at: nat, s: Text)
      requires Valid() && at + |s| <= SIZE
      modifies raw
      ensures raw[..] == Put(old(raw[..]), at, s)
    {
      for i := 0 to |s|
        invariant forall k :: 0 <= k < SIZE ==> raw[k] == if at <= k < at + i then s[k - at] else old(raw[k])
      {
        raw[at + i] := s[i];
      }
      assert raw[..] == Put(old(raw[..]), at, s);
    }

    /** Copies a short path, or the two parts of a long one. */
    method FillName(fileName: Text) returns (r: Result<(), Error>)
      requires Valid() && raw[..] == Zeros(SIZE)
      modifies raw
      ensures r.Success? <==> SplitName(fileName).Success?
      ensures r.Success? ==> raw[..] == WithName(Zeros(SIZE), SplitName(fileName).value)
      ensures r.Failure? ==> SplitName(fileName) == Failure(r.error)
    {
      if |fileName| > 100 {
        if |fileName| > 256 {
          return Failure(NameTooLong);
        }
        var splitIdx, validSplit := |fileName| - 101, false;
        while splitIdx <= 156 && splitIdx < |fileName|
          invariant |fileName| - 101 <= splitIdx <= |fileName| && splitIdx <= 157
          invariant !validSplit
          invariant SplitIndex(fileName) == FirstSlash(fileName, splitIdx, if |fileName| < 157 then |fileName| else 157)
        {
          if fileName[splitIdx] == SLASH {
            validSplit := true;
            break;
          }
          splitIdx := splitIdx + 1;
        }
        if !validSplit {
          return Failure(NoNameSplit);
        }
        Write(PREFIX, fileName[..splitIdx]);
        Write(NAME, fileName[splitIdx + 1..]);
      } else {
        Write(PREFIX, []);
        Write(NAME, fileName);
      }
      return Success(());
    }

    method FillNumbers(fileSize: nat, env: Env)
      requires Valid()
      modifies raw
      ensures raw[..] == WithNumbers(old(raw[..]), fileSize, env)
    {
      NumberWidths(env.uid, env.gid, env.time);
      NumberWidth(fileSize % TWO_TO_32);
      Write(MODE, PrintOctal(7, 0x1A4));
      Write(UID, PrintOctal(7, env.uid));
      Write(GID, PrintOctal(7, env.gid));
      Write(FILE_SIZE, PrintOctal(11, fileSize % TWO_TO_32));
      Write(MTIME, PrintOctal(11, env.time));
    }

    method FillType(kind: Kind)
      requires Valid()
      modifies raw
      ensures raw[..] == WithType(old(raw[..]), kind)
    {
      Write(TYPEFLAG, [TypeFlag(kind)]);
      Write(MAGIC, USTAR + [NUL]);
      Write(VERSION, [SPACE, NUL]);
    }

    /** The filling constructor; `raw` is unspecified after an exception. */
    method Fill(fileName: Text, fileSize: nat, kind: Kind, env: Env) returns (r: Result<(), Error>)
      requires Valid()
      modifies raw
      ensures r.Success? ==> FilledHeader(fileName, fileSize, kind, env) == Success(raw[..])
      ensures r.Failure? ==> FilledHeader(fileName, fileSize, kind, env) == Failure(r.error)
    {
      if fileSize > MAX_SIZE {
        return Failure(FileTooLarge);
      }
      Write(0, Zeros(SIZE));
      assert raw[..] == Zeros(SIZE);
      r := FillName(fileName);
      if r.Success? {
        FillNumbers(fileSize, env);
        FillType(kind);
        r := SetChecksum();
      }
    }

    /** Never overflows: the sum of 512 bytes is far below the limit. */
    method SetChecksum() returns (r: Result<(), Error>)
      requires Valid()
      modifies raw
      ensures r.Success? && raw[..] == Summed(old(raw[..]))
    {
      Write(CHECKSUM, EIGHT_SPACES);
      ghost var blank := raw[..];
      var sum: nat := 0;
      for i := 0 to SIZE
        invariant sum == Sum(blank[..i])
      {
        assert blank[..i + 1][..i] == blank[..i];
        sum := sum + raw[i];
      }
      assert blank[..SIZE] == blank;
      ChecksumFits(blank);
      if sum > 0x3FFFF {
        return Failure(ChecksumOverflow);
      }
      hide Put, PadLeft, OctalDigits, Sum;
      ghost var digits := PadLeft(SPACE, 6, OctalDigits(sum));
      Write(CHECKSUM, PadLeft(SPACE, 6, OctalDigits(sum)) + [NUL]);
      ghost var before := raw[..];
      raw[CHECKSUM + 7] := SPACE;
      assert raw[..] == before[CHECKSUM + 7 := SPACE];
      ChecksumWritten(old(raw[..]), digits);
      return Success(());
    }

    method ChecksumValid() returns (ok: bool)
      requires Valid()
      ensures ok <==> ChecksumOk(raw[..])
    {
      ghost var h := raw[..];
      var sum: nat := 0;
      for i := 0 to SIZE
        invariant sum == Sum(Unsummed(h)[..i])
      {
        assert Unsummed(h)[..i + 1][..i] == Unsummed(h)[..i];
        if CHECKSUM <= i < CHECKSUM + 8 {
          sum := sum + SPACE;
        } else {
          sum := sum + raw[i];
        }
      }
      assert Unsummed(h)[..SIZE] == Unsummed(h);
      ghost var field := h[CHECKSUM..TYPEFLAG];
      var storedSum: nat, foundDigits, i := 0, false, 0;
      while i < 8
        invariant 0 <= i <= 8
        invariant !foundDigits ==> storedSum == 0
        invariant StoredSum(field, false, 0) == StoredSum(field[i..], foundDigits, storedSum)
      {
        var c := raw[CHECKSUM + i];
        assert field[i..][0] == c && field[i..][1..] == field[i + 1..];
        if !foundDigits {
          if !IsSpace(c) {
            if IsOctal(c) {
              storedSum, foundDigits := c - DIGIT_0, true;
            } else {
              return false;
            }
          }
        } else {
          if c == NUL || c == SPACE {
            assert StoredSum(field, false, 0) == Some(storedSum);
            return sum == storedSum;
          }
          if IsOctal(c) {
            storedSum := 8 * storedSum + (c - DIGIT_0);
          } else {
            return false;
          }
        }
        i := i + 1;
      }
      assert field[8..] == [];
      return sum == storedSum;
    }

    method IsEmpty() returns (empty: bool)
      requires Valid()
      ensures empty <==> AllZero(raw[..])
    {
      for i := 0 to SIZE
        invariant forall k :: 0 <= k < i ==> raw[k] == NUL
      {
        if raw[i] != NUL {
          assert raw[..][i] != NUL;
          return false;
        }
      }
      return true;
    }

    method GetName() returns (result: Text)
      requires Valid()
      ensures result == HeaderName(raw[..])
    {
      result := [];
      ghost var h := raw[..];
      if raw[PREFIX] != NUL {
        var len := 1;
        while len < 155 && raw[PREFIX + len] != NUL
          invariant 1 <= len <= 155
          invariant NulFree(h[PREFIX..PREFIX + len])
        {
          len := len + 1;
        }
        result := raw[PREFIX..PREFIX + len];
        CStringIs(h[PREFIX..PAD], result);
        result := result + [SLASH];
      } else {
        CStringIs(h[PREFIX..PAD], []);
      }
      var len := 0;
      while len < 100 && raw[NAME + len] != NUL
        invariant 0 <= len <= 100
        invariant NulFree(h[NAME..NAME + len])
      {
        len := len + 1;
      }
      CStringIs(h[NAME..MODE], raw[NAME..NAME + len]);
      if len > 0 {
        result := result + raw[NAME..NAME + len];
      } else {
        assert raw[NAME..NAME + len] == [];
      }
    }
  }
}
