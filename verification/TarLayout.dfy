/** The header byte by byte, with the offsets of the ustar interchange format of POSIX.1
    as numbers: what the constructor leaves where, and what the reader makes of any
    header that it accepts. */
module TarLayout {
  import opened Bytes
  import opened TarHeader
  import opened TarHeaderProofs
  import opened TarStream

  /* ---- what is written ---- */

  /** The name, permissions, owner, size and time. */
  ghost predicate LaidFront(h: Text, name: Text, size: nat, env: Env) {
    && |h| == 512 && |name| <= 100
    && h[0..100] == name + Zeros(100 - |name|)
    && h[100..108] == [48, 48, 48, 48, 54, 52, 52, 0]
    && h[108..116] == IdField(env.uid)
    && h[116..124] == IdField(env.gid)
    && h[124..136] == PrintOctal(11, size % 0x1_0000_0000)
    && h[136..148] == PrintOctal(11, env.time)
  }

  /** The type, the link target, the magic, and what follows it up to the end. */
  ghost predicate LaidBack(h: Text, prefix: Text, flag: byte, target: Text) {
    && |h| == 512 && |prefix| <= 156 && |target| <= 100
    && h[156] == flag
    && h[157..257] == target + Zeros(100 - |target|)
    && h[257..263] == [117, 115, 116, 97, 114, 0] && h[263] == 32 && h[264] == 0
    && h[265..345] == Zeros(80)
    && h[345..345 + |prefix|] == prefix
    && h[345 + |prefix|..512] == Zeros(167 - |prefix|)
  }

  /** The sum of all bytes, with eight spaces in place of the field, in six places. */
  ghost predicate LaidSum(h: Text) {
    |h| == 512 && var sum := Sum(h[0..148]) + 8 * 32 + Sum(h[156..512]);
                  h[148..156] == PadLeft(32, 6, OctalDigits(sum)) + [0, 32]
  }

  /** Seven digits and a NUL; a number that needs more leaves its first eight digits,
      since the field behind it is printed later. */
  function IdField(id: nat): (r: Text)
    requires id < 0x1_0000_0000
  {
    if id < 0x20_0000 then PrintOctal(7, id)
    else
      var digits := OctalDigits(id);
      if |digits| < 8 then digits else digits[..8]
  }

  lemma {:induction false} AtLeastDigits(n: nat, k: nat)
    requires n >= Pow8(k)
    ensures |OctalDigits(n)| > k
    decreases k
  {
    if k > 0 {
      assert n / 8 >= Pow8(k - 1);
      AtLeastDigits(n / 8, k - 1);
    }
  }

  lemma IdPrinted(id: nat)
    requires id < 0x1_0000_0000
    ensures |IdField(id)| == 8 && 8 <= |PrintOctal(7, id)| <= 12 && PrintOctal(7, id)[..8] == IdField(id)
  {
    assert Pow8(7) == 0x20_0000;
    NumberWidth(id);
    if id < 0x20_0000 {
      PrintedLength(7, id);
      assert PrintOctal(7, id)[..8] == PrintOctal(7, id);
    } else {
      AtLeastDigits(id, 7);
      assert PrintOctal(7, id) == OctalDigits(id) + [NUL];
    }
  }

  lemma ModePrinted()
    ensures PrintOctal(7, 0x1A4) == [48, 48, 48, 48, 54, 52, 52, 0]
  {
    assert OctalDigits(6) == [54] && OctalDigits(52) == [54, 52] && OctalDigits(0x1A4) == [54, 52, 52];
    assert Repeat(48, 4) == [48, 48, 48, 48];
  }

  lemma NumbersLaid(h: Text, size: nat, env: Env)
    requires |h| == 512
    ensures var r := WithNumbers(h, size, env);
            && |r| == 512 && r[0..100] == h[0..100] && r[148..512] == h[148..512]
            && r[100..108] == [48, 48, 48, 48, 54, 52, 52, 0]
            && r[108..116] == IdField(env.uid) && r[116..124] == IdField(env.gid)
            && r[124..136] == PrintOctal(11, size % 0x1_0000_0000) && r[136..148] == PrintOctal(11, env.time)
  {
    hide PrintOctal, IdField;
    NumberWidths(env.uid, env.gid, env.time);
    NumberWidth(size % 0x1_0000_0000);
    IdPrinted(env.uid);
    IdPrinted(env.gid);
    ModePrinted();
    var mode, uid, gid := PrintOctal(7, 0x1A4), PrintOctal(7, env.uid), PrintOctal(7, env.gid);
    var length, time := PrintOctal(11, size % 0x1_0000_0000), PrintOctal(11, env.time);
    PutsInOrder(h, mode, uid, gid, length, time);
  }

  lemma PutsInOrder(h: Text, mode: Text, uid: Text, gid: Text, length: Text, time: Text)
    requires |h| == 512 && |mode| == 8 && 8 <= |uid| <= 12 && 8 <= |gid| <= 12 && |length| == |time| == 12
    ensures var r := Put(Put(Put(Put(Put(h, 100, mode), 108, uid), 116, gid), 124, length), 136, time);
            && r[0..100] == h[0..100] && r[148..512] == h[148..512]
            && r[100..108] == mode && r[108..116] == uid[..8] && r[116..124] == gid[..8]
            && r[124..136] == length && r[136..148] == time
  {
  }

  lemma TypeLaid(h: Text, kind: Kind)
    requires |h| == 512
    ensures var r := WithType(h, kind);
            && |r| == 512 && r[0..156] == h[0..156] && r[157..257] == h[157..257] && r[265..512] == h[265..512]
            && r[156] == TypeFlag(kind)
            && r[257..263] == [117, 115, 116, 97, 114, 0] && r[263] == 32 && r[264] == 0
  {
  }

  lemma SumLaid(h: Text)
    requires |h| == 512
    ensures var r := Summed(h);
            |r| == 512 && r[0..148] == h[0..148] && r[156..512] == h[156..512] && LaidSum(r)
  {
    hide OctalDigits, PadLeft;
    var r, blank := Summed(h), Unsummed(h);
    ChecksumFits(blank);
    assert blank == h[0..148] + EIGHT_SPACES + h[156..512];
    SumParts(h[0..148], EIGHT_SPACES, h[156..512]);
    SumOfRepeat(32, 8);
    assert r[0..148] == h[0..148] && r[156..512] == h[156..512];
  }

  lemma {:induction false} SumAppend(a: Text, b: Text)
    ensures Sum(a + b) == Sum(a) + Sum(b)
    decreases |b|
  {
    if b == [] {
      assert a + b == a;
    } else {
      assert (a + b)[..|a + b| - 1] == a + b[..|b| - 1];
      SumAppend(a, b[..|b| - 1]);
    }
  }

  lemma {:induction false} SumParts(a: Text, b: Text, c: Text)
    ensures Sum(a + b + c) == Sum(a) + Sum(b) + Sum(c)
  {
    SumAppend(a + b, c);
    SumAppend(a, b);
  }

  lemma {:induction false} SumOfRepeat(b: byte, n: nat)
    ensures Sum(Repeat(b, n)) == b * n
  {
    if n > 0 {
      assert Repeat(b, n)[..n - 1] == Repeat(b, n - 1);
      SumOfRepeat(b, n - 1);
    }
  }

  lemma NameLaid(n: Name)
    requires |n.name| <= 100 && |n.prefix| <= 156
    ensures var h := WithName(Zeros(512), n);
            && h[0..100] == n.name + Zeros(100 - |n.name|) && h[157..257] == Zeros(100) && h[265..345] == Zeros(80)
            && h[345..345 + |n.prefix|] == n.prefix && h[345 + |n.prefix|..512] == Zeros(167 - |n.prefix|)
  {
    var h := WithName(Zeros(512), n);
    assert h[0..100] == n.name + Zeros(100 - |n.name|);
  }

  /** Part of a part. */
  lemma Within(h: Text, r: Text, lo: nat, hi: nat, i: nat, j: nat)
    requires lo <= i <= j <= hi <= |h| == |r| && r[lo..hi] == h[lo..hi]
    ensures r[i..j] == h[i..j]
  {
    forall k | i <= k < j ensures r[k] == h[k] {
      assert r[k] == r[lo..hi][k - lo] && h[k] == h[lo..hi][k - lo];
    }
  }

  lemma FrontKept(h: Text, r: Text, name: Text, size: nat, env: Env)
    requires |h| == |r| == 512 && r[0..148] == h[0..148] && LaidFront(h, name, size, env)
    ensures LaidFront(r, name, size, env)
  {
    hide PrintOctal, IdField;
    Within(h, r, 0, 148, 0, 100);
    Within(h, r, 0, 148, 100, 108);
    Within(h, r, 0, 148, 108, 116);
    Within(h, r, 0, 148, 116, 124);
    Within(h, r, 0, 148, 124, 136);
    Within(h, r, 0, 148, 136, 148);
  }

  lemma BackKept(h: Text, r: Text, prefix: Text, flag: byte, target: Text)
    requires |h| == |r| == 512 && r[156..512] == h[156..512] && LaidBack(h, prefix, flag, target)
    ensures LaidBack(r, prefix, flag, target)
  {
    assert r[156] == r[156..512][0] && r[263] == r[156..512][107] && r[264] == r[156..512][108];
    assert h[156] == h[156..512][0] && h[263] == h[156..512][107] && h[264] == h[156..512][108];
    Within(h, r, 156, 512, 157, 257);
    Within(h, r, 156, 512, 257, 263);
    Within(h, r, 156, 512, 265, 345);
    Within(h, r, 156, 512, 345, 345 + |prefix|);
    Within(h, r, 156, 512, 345 + |prefix|, 512);
  }

  /** Every byte of a filled header. */
  lemma FilledLaid(path: Text, size: nat, kind: Kind, env: Env)
    requires FilledHeader(path, size, kind, env).Success?
    ensures var (h, n) := (FilledHeader(path, size, kind, env).value, SplitName(path).value);
            && LaidFront(h, n.name, size, env) && LaidBack(h, n.prefix, TypeFlag(kind), []) && LaidSum(h)
  {
    hide WithName, WithNumbers, WithType, Summed, PrintOctal, IdField, TypeFlag, LaidSum;
    var n := SplitName(path).value;
    var named := WithName(Zeros(512), n);
    var numbered := WithNumbers(named, size, env);
    var typed := WithType(numbered, kind);
    NameLaid(n);
    NumbersLaid(named, size, env);
    TypeLaid(numbered, kind);
    SumLaid(typed);
    assert LaidFront(numbered, n.name, size, env);
    Within(numbered, typed, 0, 156, 0, 148);
    FrontKept(numbered, typed, n.name, size, env);
    FrontKept(typed, Summed(typed), n.name, size, env);
    BackLaid(named, numbered, typed, n, kind);
    BackKept(typed, Summed(typed), n.prefix, TypeFlag(kind), []);
  }

  lemma BackLaid(named: Text, numbered: Text, typed: Text, n: Name, kind: Kind)
    requires |named| == |numbered| == |typed| == 512 && |n.prefix| <= 156
    requires named[157..257] == Zeros(100) && named[265..345] == Zeros(80)
    requires named[345..345 + |n.prefix|] == n.prefix && named[345 + |n.prefix|..512] == Zeros(167 - |n.prefix|)
    requires numbered[148..512] == named[148..512]
    requires typed[157..257] == numbered[157..257] && typed[265..512] == numbered[265..512]
    requires typed[156] == TypeFlag(kind)
    requires typed[257..263] == [117, 115, 116, 97, 114, 0] && typed[263] == 32 && typed[264] == 0
    ensures LaidBack(typed, n.prefix, TypeFlag(kind), [])
  {
    hide TypeFlag;
    Within(named, numbered, 148, 512, 157, 257);
    Within(named, numbered, 148, 512, 265, 512);
    assert typed[265..512] == named[265..512];
    Within(named, typed, 265, 512, 265, 345);
    Within(named, typed, 265, 512, 345, 345 + |n.prefix|);
    Within(named, typed, 265, 512, 345 + |n.prefix|, 512);
    assert [] + Zeros(100) == Zeros(100);
  }

  /** The flags are the digits 0, 2 and 5 for what the writer writes. */
  lemma FlagsWritten()
    ensures TypeFlag(Regular) == 48 && TypeFlag(SymLink) == 50 && TypeFlag(Directory) == 53
  {
  }

  /** Every byte of a link's header. */
  lemma LinkLaid(path: Text, target: Text, env: Env)
    requires LinkHeader(path, target, env).Success?
    ensures var (h, n) := (LinkHeader(path, target, env).value, SplitName(path).value);
            && LaidFront(h, n.name, 0, env) && LaidBack(h, n.prefix, 50, target) && LaidSum(h)
  {
    hide FilledHeader, Summed, PrintOctal, IdField, LaidSum;
    FilledMeansSplit(path, 0, SymLink, env);
    var filled, n := FilledHeader(path, 0, SymLink, env).value, SplitName(path).value;
    FilledLaid(path, 0, SymLink, env);
    FlagsWritten();
    var linked := Put(filled, 157, target);
    assert linked[0..148] == filled[0..148];
    FrontKept(filled, linked, n.name, 0, env);
    LinkedBack(filled, target, n.prefix);
    SumLaid(linked);
    FrontKept(linked, Summed(linked), n.name, 0, env);
    BackKept(linked, Summed(linked), n.prefix, 50, target);
  }

  lemma FilledMeansSplit(path: Text, size: nat, kind: Kind, env: Env)
    requires FilledHeader(path, size, kind, env).Success?
    ensures SplitName(path).Success?
  {
  }

  lemma LinkedBack(filled: Text, target: Text, prefix: Text)
    requires LaidBack(filled, prefix, 50, []) && |target| <= 100
    ensures LaidBack(Put(filled, 157, target), prefix, 50, target)
  {
    var linked := Put(filled, 157, target);
    assert filled[157..257] == [] + Zeros(100);
    forall i | |target| <= i < 100 ensures linked[157..257][i] == NUL {
      assert linked[157..257][i] == filled[157..257][i];
    }
    assert linked[157..257] == target + Zeros(100 - |target|);
    assert linked[257..263] == filled[257..263] && linked[265..345] == filled[265..345];
    assert linked[345..345 + |prefix|] == filled[345..345 + |prefix|];
    assert linked[345 + |prefix|..512] == filled[345 + |prefix|..512];
  }

  /* ---- what the numbers read as ---- */

  /** A field of a printed number scans to it, whatever follows. */
  lemma {:induction false} FieldScans(h: Text, at: nat, width: nat, n: nat)
    requires width > 0 && n < Pow8(width) && at + width + 1 <= |h|
    requires h[at..at + width + 1] == PrintOctal(width, n)
    ensures ScanNumber(h[at..]) == Some(n)
  {
    NumberReadsBack(h, at, width, n);
  }

  /** In every header the user is at 108 and the group at 116 when they fit seven octal
      digits, and the time is at 136. */
  lemma OwnerAndTimeRead(h: Text, name: Text, size: nat, env: Env)
    requires LaidFront(h, name, size, env)
    ensures ScanNumber(h[100..]) == Some(6 * 64 + 4 * 8 + 4)
    ensures env.uid < 8 * 8 * 8 * 8 * 8 * 8 * 8 ==> ScanNumber(h[108..]) == Some(env.uid)
    ensures env.gid < 8 * 8 * 8 * 8 * 8 * 8 * 8 ==> ScanNumber(h[116..]) == Some(env.gid)
    ensures env.uid >= 8 * 8 * 8 * 8 * 8 * 8 * 8 ==> h[108..116] == OctalDigits(env.uid)[..8]
    ensures env.gid >= 8 * 8 * 8 * 8 * 8 * 8 * 8 ==> h[116..124] == OctalDigits(env.gid)[..8]
    ensures ScanNumber(h[124..]) == Some(size % 0x1_0000_0000)
    ensures ScanNumber(h[136..]) == Some(env.time)
  {
    hide PrintOctal, ScanNumber;
    assert Pow8(7) == 0x20_0000 && Pow8(11) == 0x2_0000_0000;
    ModePrinted();
    FieldScans(h, 100, 7, 0x1A4);
    if env.uid < 0x20_0000 {
      FieldScans(h, 108, 7, env.uid);
    } else {
      AtLeastDigits(env.uid, 7);
    }
    if env.gid < 0x20_0000 {
      FieldScans(h, 116, 7, env.gid);
    } else {
      AtLeastDigits(env.gid, 7);
    }
    FieldScans(h, 124, 11, size % 0x1_0000_0000);
    FieldScans(h, 136, 11, env.time);
  }

  /* ---- what is around the headers ---- */

  /** An appended file is its header, its data, and NULs up to a multiple of 512. */
  lemma FileBytes(path: Text, data: Text, env: Env)
    requires EntryBytes(FileEntry(path, data), env).Success?
    ensures FilledHeader(path, |data|, Regular, env).Success?
    ensures var bytes := EntryBytes(FileEntry(path, data), env).value;
            && |bytes| % 512 == 0 && 512 + |data| <= |bytes| < 1024 + |data|
            && bytes[..512] == FilledHeader(path, |data|, Regular, env).value
            && bytes[512..512 + |data|] == data && AllZero(bytes[512 + |data|..])
  {
    hide FilledHeader;
  }

  /** The footer is 1024 NULs. */
  lemma FooterBytes()
    ensures |FOOTER| == 1024 && AllZero(FOOTER)
  {
  }

  /** What is refused, and why. */
  lemma WriterRefuses(path: Text, size: nat, kind: Kind, env: Env, target: Text)
    ensures FilledHeader(path, size, kind, env) == Failure(FileTooLarge) <==> size >= 0x2_0000_0000
    ensures FilledHeader(path, size, kind, env) == Failure(NameTooLong) <==> size < 0x2_0000_0000 && |path| > 256
    ensures FilledHeader(path, size, kind, env) == Failure(NoNameSplit) <==>
            size < 0x2_0000_0000 && 100 < |path| <= 256
            && forall i :: |path| - 101 <= i <= 156 && i < |path| ==> path[i] != 47
    ensures FilledHeader(path, 0, SymLink, env).Success? ==>
              (LinkHeader(path, target, env) == Failure(LinkTargetTooLong) <==> |target| > 100)
  {
    hide WithName, WithNumbers, WithType, Summed;
  }

  /* ---- what is read ---- */

  /** The kinds of records by their flags. */
  ghost predicate FlagMeans(flag: byte, kind: Kind) {
    match kind
    case HardLink => flag == 49
    case SymLink => flag == 50
    case CharDevice => flag == 51
    case BlockDevice => flag == 52
    case Directory => flag == 53
    case Fifo => flag == 54
    case Reserved => flag == 55
    case Regular => flag < 49 || flag > 55
  }

  lemma FlagRead(flag: byte, kind: Kind)
    ensures KindOfFlag(flag) == kind <==> FlagMeans(flag, kind)
  {
  }

  /** A C string in a field of a header. */
  ghost predicate IsText(field: Text, text: Text) {
    text <= field && NulFree(text) && (|text| < |field| ==> field[|text|] == 0)
  }

  /** What getName makes of the two fields. */
  ghost predicate IsNameOf(h: Text, name: Text)
    requires |h| == 512
  {
    exists first: Text, last: Text ::
      && IsText(h[0..100], last) && IsText(h[345..500], first)
      && name == if first == [] then last else first + [47] + last
  }

  lemma NameRead(h: Text, name: Text)
    requires |h| == 512 && IsNameOf(h, name)
    ensures HeaderName(h) == name
  {
    var first: Text, last: Text :|
      && IsText(h[0..100], last) && IsText(h[345..500], first)
      && name == if first == [] then last else first + [47] + last;
    CStringIs(h[0..100], last);
    CStringIs(h[345..500], first);
  }

  /** The header announces this record: a mode of at most seven octal digits, a size of at
      most eleven, any flag, and a sum over all bytes. */
  ghost predicate Announces(h: Text, name: Text, mode: nat, size: nat, kind: Kind, target: Text) {
    && |h| == 512 && LaidSum(h) && IsNameOf(h, name)
    && mode < 0x20_0000 && h[100..108] == PrintOctal(7, mode)
    && size < 0x2_0000_0000 && h[124..136] == PrintOctal(11, size)
    && FlagMeans(h[156], kind) && IsText(h[157..512], target)
  }

  lemma SumAccepted(h: Text)
    requires LaidSum(h)
    ensures ChecksumOk(h) && !AllZero(h)
  {
    hide OctalDigits, PadLeft, StoredSum;
    var sum := Sum(h[0..148]) + 8 * 32 + Sum(h[156..512]);
    assert Unsummed(h) == h[0..148] + EIGHT_SPACES + h[156..512];
    SumParts(h[0..148], EIGHT_SPACES, h[156..512]);
    SumOfRepeat(32, 8);
    StoredReadsBack(sum);
    assert h[148..156] == ChecksumField(sum);
    assert h[155] == h[148..156][7] == 32;
  }

  lemma AnnouncedParses(h: Text, name: Text, mode: nat, size: nat, kind: Kind, target: Text)
    requires Announces(h, name, mode, size, kind, target)
    ensures !AllZero(h) && ParseHeader(h) == Success(Parsed(size, mode, kind, name, target))
  {
    hide PrintOctal, ScanNumber, HeaderName, CString, ChecksumOk, LaidSum, IsNameOf, FlagMeans, KindOfFlag;
    assert Pow8(7) == 0x20_0000 && Pow8(11) == 0x2_0000_0000;
    SumAccepted(h);
    NumberReadsBack(h, 100, 7, mode);
    NumberReadsBack(h, 124, 11, size);
    NameRead(h, name);
    FlagRead(h[156], kind);
    CStringIs(h[157..512], target);
    assert h[157..] == h[157..512];
  }

  /** The record stored for such a header, with its data behind it. */
  ghost predicate StoredAs(record: Record, kind: Kind, mode: nat, body: Text, size: nat, target: Text)
    requires kind.Regular? ==> size <= |body|
  {
    && record.kind == kind && record.mode == mode
    && record.data == if kind.Regular? then body[..size] else if kind.SymLink? then target else []
  }

  /** Any accepted header, of any writer and any flag: one call of readFiles returns its name,
      stores the record with its mode under it, unless one is there, and moves past a regular
      file's data and, whatever the kind, past what its size leaves of a block of 512. */
  lemma AnyHeaderReads(h: Text, name: Text, mode: nat, size: nat, kind: Kind, target: Text, body: Text, more: Text,
                       files: map<Text, Record>, record: Record)
    requires Announces(h, name, mode, size, kind, target)
    requires kind.Regular? ==> size <= |body|
    requires |body| == (if kind.Regular? then size else 0) + (if size % 512 == 0 then 0 else 512 - size % 512)
    requires StoredAs(record, kind, mode, body, size, target)
    ensures ReadFrom(State(h + (body + more), false, files, false), [], 0) ==
            Outcome(Success(name),
                    State(more, false, if name in files then files else files[name := record], false))
  {
    hide Announces;
    AnnouncedParses(h, name, mode, size, kind, target);
    AnnouncedLength(h, name, mode, size, kind, target);
    hide ParseHeader, StoreRecord;
    var src := h + (body + more);
    assert src[..512] == h && src[512..] == body + more;
    StoresAnnounced(name, mode, size, kind, target, body, more, files, record);
  }

  lemma StoresAnnounced(name: Text, mode: nat, size: nat, kind: Kind, target: Text, body: Text, more: Text,
                        files: map<Text, Record>, record: Record)
    requires kind.Regular? ==> size <= |body|
    requires |body| == (if kind.Regular? then size else 0) + (if size % 512 == 0 then 0 else 512 - size % 512)
    requires StoredAs(record, kind, mode, body, size, target)
    ensures StoreRecord(Parsed(size, mode, kind, name, target), State(body + more, false, files, false)) ==
            State(more, false, if name in files then files else files[name := record], false)
  {
    assert (body + more)[|body|..] == more;
    if kind.Regular? {
      assert (body + more)[..size] == body[..size];
    }
  }

  lemma AnnouncedLength(h: Text, name: Text, mode: nat, size: nat, kind: Kind, target: Text)
    requires Announces(h, name, mode, size, kind, target)
    ensures |h| == 512
  {
  }

  /** A file cut off by the end of the stream is filled up with the byte 255. */
  lemma CutFileReads(h: Text, name: Text, mode: nat, size: nat, target: Text, body: Text, files: map<Text, Record>)
    requires Announces(h, name, mode, size, Regular, target) && |body| < size && name !in files
    ensures ReadFrom(State(h + body, false, files, false), [], 0) ==
            Outcome(Success(name),
                    State([], true, files[name := Record(Regular, body + Repeat(255, size - |body|), mode)], false))
  {
    hide Announces;
    AnnouncedParses(h, name, mode, size, Regular, target);
    AnnouncedLength(h, name, mode, size, Regular, target);
    hide ParseHeader, StoreRecord;
    var src := h + body;
    assert src[..512] == h && src[512..] == body;
    StoresCut(name, mode, size, target, body, files);
  }

  lemma StoresCut(name: Text, mode: nat, size: nat, target: Text, body: Text, files: map<Text, Record>)
    requires |body| < size && name !in files
    ensures StoreRecord(Parsed(size, mode, Regular, name, target), State(body, false, files, false)) ==
            State([], true, files[name := Record(Regular, body + Repeat(255, size - |body|), mode)], false)
  {
  }

  /** One empty block is passed over, two in a row end reading; so does less than a block. */
  lemma {:induction false} EmptyBlocksRead(rest: Text, files: map<Text, Record>, target: Text)
    ensures |rest| >= 512 && !AllZero(rest[..512]) ==>
              ReadFrom(State(Zeros(512) + rest, false, files, false), target, 0) ==
              ReadFrom(State(rest, false, files, false), target, 0)
    ensures ReadFrom(State(Zeros(1024) + rest, false, files, false), target, 0) ==
            Outcome(Success([]), State(rest, false, files, true))
    ensures |rest| < 512 ==>
              ReadFrom(State(rest, false, files, false), target, 0) ==
              Outcome(Success([]), State([], true, files, true))
  {
    hide ReadRecord;
    var one, two := Zeros(512) + rest, Zeros(1024) + rest;
    assert one[..512] == Zeros(512) && one[512..] == rest;
    assert two[..512] == Zeros(512) && two[512..] == one;
  }

  /** What the reader refuses, in the order of its tests. */
  lemma ReaderRefuses(h: Text)
    requires |h| == 512
    ensures ParseHeader(h) == Failure(BadChecksum) <==> !ChecksumOk(h)
    ensures ParseHeader(h) == Failure(SizeNotTerminated) <==>
            ChecksumOk(h) && forall i :: 124 <= i < 136 ==> h[i] != 0 && h[i] != 32
    ensures ParseHeader(h) == Failure(OverlargeSize) ==> ScanNumber(h[124..]).Some?
    ensures ParseHeader(h) == Failure(OverlargeSize) ==> ScanNumber(h[124..]).value >= 0x2_0000_0000
    ensures ParseHeader(h) == Failure(ModeNotTerminated) ==> forall i :: 100 <= i < 108 ==> h[i] != 0 && h[i] != 32
    ensures ParseHeader(h).Success? ==>
              && ScanNumber(h[124..]) == Some(ParseHeader(h).value.size) && ParseHeader(h).value.size < 0x2_0000_0000
              && ScanNumber(h[100..]) == Some(ParseHeader(h).value.mode)
  {
    hide ChecksumOk, ScanNumber, HeaderName, CString;
    Terminates(h, 124, 136);
    Terminates(h, 100, 108);
  }

  lemma Terminates(h: Text, from: nat, end: nat)
    requires from <= end <= |h|
    ensures Terminated(h[from..end]) <==> exists i :: from <= i < end && (h[i] == 0 || h[i] == 32)
  {
    if i :| from <= i < end && (h[i] == 0 || h[i] == 32) {
      assert h[from..end][i - from] == h[i];
    }
  }
}
