/** What survives a trip through the header: the name, the numbers, the type, the
    link target and the checksum. */
module TarHeaderProofs {
  import opened Bytes
  import opened TarHeader

  /* ---- which stage of filling touches which bytes ---- */

  ghost predicate SameOutside(h: Text, h': Text, lo: nat, hi: nat) {
    |h| == |h'| == SIZE && forall i :: 0 <= i < SIZE && !(lo <= i < hi) ==> h'[i] == h[i]
  }

  lemma NumbersFrame(h: Text, size: nat, env: Env)
    requires |h| == SIZE
    ensures SameOutside(h, WithNumbers(h, size, env), MODE, CHECKSUM)
    ensures Holds(WithNumbers(h, size, env), MODE, PrintOctal(7, 0x1A4))
    ensures Holds(WithNumbers(h, size, env), FILE_SIZE, PrintOctal(11, size % TWO_TO_32))
  {
    NumberWidths(env.uid, env.gid, env.time);
    NumberWidth(size % TWO_TO_32);
    var mode, fileSize := PrintOctal(7, 0x1A4), PrintOctal(11, size % TWO_TO_32);
    var h1 := Put(h, MODE, mode);
    PutHolds(h, MODE, mode);
    var h2 := Put(h1, UID, PrintOctal(7, env.uid));
    PutKeeps(h1, MODE, mode, UID, PrintOctal(7, env.uid));
    var h3 := Put(h2, GID, PrintOctal(7, env.gid));
    PutKeeps(h2, MODE, mode, GID, PrintOctal(7, env.gid));
    var h4 := Put(h3, FILE_SIZE, fileSize);
    PutKeeps(h3, MODE, mode, FILE_SIZE, fileSize);
    PutHolds(h3, FILE_SIZE, fileSize);
    PutKeeps(h4, MODE, mode, MTIME, PrintOctal(11, env.time));
    PutKeeps(h4, FILE_SIZE, fileSize, MTIME, PrintOctal(11, env.time));
  }

  lemma HoldsOutside(h: Text, h': Text, lo: nat, hi: nat, at: nat, s: Text)
    requires SameOutside(h, h', lo, hi) && Holds(h, at, s)
    requires at + |s| <= lo || hi <= at
    ensures Holds(h', at, s)
  {
    forall i | 0 <= i < |s| ensures h'[at + i] == s[i] {
      assert h[at..at + |s|][i] == s[i];
    }
    assert h'[at..at + |s|] == s;
  }

  /** Everything the reader looks at, apart from the checksum. */
  ghost predicate Describes(h: Text, n: Name, size: nat, kind: Kind) {
    && |h| == SIZE && |n.name| <= 100 && |n.prefix| <= 156
    && Holds(h, NAME, n.name + Zeros(100 - |n.name|))
    && Holds(h, PREFIX, if |n.prefix| <= 155 then n.prefix + Zeros(155 - |n.prefix|) else n.prefix[..155])
    && Holds(h, MODE, PrintOctal(7, 0x1A4))
    && Holds(h, FILE_SIZE, PrintOctal(11, size % TWO_TO_32))
    && h[TYPEFLAG] == TypeFlag(kind)
    && Holds(h, MAGIC, USTAR + [NUL])
  }

  lemma NameFields(n: Name)
    requires |n.name| <= 100 && |n.prefix| <= 156
    ensures Holds(WithName(Zeros(SIZE), n), NAME, n.name + Zeros(100 - |n.name|))
    ensures Holds(WithName(Zeros(SIZE), n), PREFIX,
                  if |n.prefix| <= 155 then n.prefix + Zeros(155 - |n.prefix|) else n.prefix[..155])
    ensures forall i :: LINKNAME <= i < MAGIC ==> WithName(Zeros(SIZE), n)[i] == NUL
  {
    var h := WithName(Zeros(SIZE), n);
    assert h[NAME..MODE] == n.name + Zeros(100 - |n.name|);
    assert h[PREFIX..PAD] == if |n.prefix| <= 155 then n.prefix + Zeros(155 - |n.prefix|) else n.prefix[..155];
  }

  lemma TypeFrame(h: Text, kind: Kind)
    requires |h| == SIZE
    ensures SameOutside(h, WithType(h, kind), TYPEFLAG, UNAME)
    ensures WithType(h, kind)[LINKNAME..MAGIC] == h[LINKNAME..MAGIC]
    ensures WithType(h, kind)[TYPEFLAG] == TypeFlag(kind)
    ensures Holds(WithType(h, kind), MAGIC, USTAR + [NUL])
  {
    var h1 := Put(h, TYPEFLAG, [TypeFlag(kind)]);
    PutHolds(h1, MAGIC, USTAR + [NUL]);
    PutKeeps(Put(h1, MAGIC, USTAR + [NUL]), MAGIC, USTAR + [NUL], VERSION, [SPACE, NUL]);
  }

  lemma SummedFrame(h: Text)
    requires |h| == SIZE
    ensures SameOutside(h, Summed(h), CHECKSUM, TYPEFLAG)
  {
    ChecksumFits(Unsummed(h));
  }

  /** A field outside the numbers, the type and the magic is as the name stage left it. */
  lemma NameSurvives(h: Text, size: nat, kind: Kind, env: Env, at: nat, s: Text)
    requires |h| == SIZE && Holds(h, at, s)
    requires at + |s| <= MODE || UNAME <= at || (LINKNAME == at && |s| == 100)
    ensures Holds(Summed(WithType(WithNumbers(h, size, env), kind)), at, s)
  {
    var numbered := WithNumbers(h, size, env);
    var typed := WithType(numbered, kind);
    NumbersFrame(h, size, env);
    HoldsOutside(h, numbered, MODE, CHECKSUM, at, s);
    TypeFrame(numbered, kind);
    if at != LINKNAME {
      HoldsOutside(numbered, typed, TYPEFLAG, UNAME, at, s);
    }
    SummedFrame(typed);
    HoldsOutside(typed, Summed(typed), CHECKSUM, TYPEFLAG, at, s);
  }

  lemma NumberSurvives(h: Text, kind: Kind, at: nat, s: Text)
    requires |h| == SIZE && at + |s| <= CHECKSUM && Holds(h, at, s)
    ensures Holds(Summed(WithType(h, kind)), at, s)
  {
    var typed := WithType(h, kind);
    TypeFrame(h, kind);
    HoldsOutside(h, typed, TYPEFLAG, UNAME, at, s);
    SummedFrame(typed);
    HoldsOutside(typed, Summed(typed), CHECKSUM, TYPEFLAG, at, s);
  }

  lemma FilledNames(n: Name, size: nat, kind: Kind, env: Env)
    requires |n.name| <= 100 && |n.prefix| <= 156
    ensures var h := Summed(WithType(WithNumbers(WithName(Zeros(SIZE), n), size, env), kind));
            && Holds(h, NAME, n.name + Zeros(100 - |n.name|))
            && Holds(h, PREFIX, if |n.prefix| <= 155 then n.prefix + Zeros(155 - |n.prefix|) else n.prefix[..155])
            && Holds(h, LINKNAME, Zeros(100))
  {
    var named := WithName(Zeros(SIZE), n);
    NameFields(n);
    NameSurvives(named, size, kind, env, NAME, n.name + Zeros(100 - |n.name|));
    NameSurvives(named, size, kind, env, PREFIX,
                 if |n.prefix| <= 155 then n.prefix + Zeros(155 - |n.prefix|) else n.prefix[..155]);
    assert named[LINKNAME..LINKNAME + 100] == Zeros(100);
    NameSurvives(named, size, kind, env, LINKNAME, Zeros(100));
  }

  lemma FilledNumbers(named: Text, size: nat, kind: Kind, env: Env)
    requires |named| == SIZE
    ensures var h := Summed(WithType(WithNumbers(named, size, env), kind));
            && Holds(h, MODE, PrintOctal(7, 0x1A4))
            && Holds(h, FILE_SIZE, PrintOctal(11, size % TWO_TO_32))
            && h[TYPEFLAG] == TypeFlag(kind)
            && Holds(h, MAGIC, USTAR + [NUL])
  {
    var numbered := WithNumbers(named, size, env);
    NumbersFrame(named, size, env);
    NumberSurvives(numbered, kind, MODE, PrintOctal(7, 0x1A4)) by { NumberWidths(0, 0, 0); }
    NumberSurvives(numbered, kind, FILE_SIZE, PrintOctal(11, size % TWO_TO_32)) by { NumberWidth(size % TWO_TO_32); }
    TypeFrame(numbered, kind);
    SummedFrame(WithType(numbered, kind));
    HoldsOutside(WithType(numbered, kind), Summed(WithType(numbered, kind)), CHECKSUM, TYPEFLAG, MAGIC, USTAR + [NUL]);
  }

  lemma FilledDescribes(path: Text, size: nat, kind: Kind, env: Env)
    requires FilledHeader(path, size, kind, env).Success?
    ensures Describes(FilledHeader(path, size, kind, env).value, SplitName(path).value, size, kind)
    ensures Holds(FilledHeader(path, size, kind, env).value, LINKNAME, Zeros(100))
  {
    var n := SplitName(path).value;
    FilledNames(n, size, kind, env);
    FilledNumbers(WithName(Zeros(SIZE), n), size, kind, env);
  }

  lemma LinkSurvives(h: Text, target: Text, at: nat, s: Text)
    requires |h| == SIZE && |target| <= 100 && Holds(h, at, s)
    requires at + |s| <= CHECKSUM || MAGIC <= at || (at == TYPEFLAG && |s| == 1)
    ensures Holds(Summed(Put(h, LINKNAME, target)), at, s)
  {
    var linked := Put(h, LINKNAME, target);
    PutKeeps(h, at, s, LINKNAME, target);
    SummedFrame(linked);
    HoldsOutside(linked, Summed(linked), CHECKSUM, TYPEFLAG, at, s);
  }

  lemma LinkHolds(h: Text, target: Text)
    requires |h| == SIZE && |target| <= 100 && Holds(h, LINKNAME, Zeros(100))
    ensures Holds(Summed(Put(h, LINKNAME, target)), LINKNAME, target + Zeros(100 - |target|))
  {
    var linked := Put(h, LINKNAME, target);
    forall i | |target| <= i < 100 ensures linked[LINKNAME..MAGIC][i] == NUL {
      assert h[LINKNAME..LINKNAME + 100][i] == NUL;
    }
    assert linked[LINKNAME..LINKNAME + 100] == target + Zeros(100 - |target|);
    SummedFrame(linked);
    HoldsOutside(linked, Summed(linked), CHECKSUM, TYPEFLAG, LINKNAME, target + Zeros(100 - |target|));
  }

  lemma LinkDescribes(path: Text, target: Text, env: Env)
    requires LinkHeader(path, target, env).Success?
    ensures Describes(LinkHeader(path, target, env).value, SplitName(path).value, 0, SymLink)
    ensures |target| <= 100 && Holds(LinkHeader(path, target, env).value, LINKNAME, target + Zeros(100 - |target|))
  {
    hide Summed, WithName, WithNumbers, WithType, PrintOctal, TypeFlag;
    var n := SplitName(path).value;
    var filled := FilledHeader(path, 0, SymLink, env).value;
    FilledDescribes(path, 0, SymLink, env);
    LinkHolds(filled, target);
    LinkSurvives(filled, target, NAME, n.name + Zeros(100 - |n.name|));
    LinkSurvives(filled, target, PREFIX,
                 if |n.prefix| <= 155 then n.prefix + Zeros(155 - |n.prefix|) else n.prefix[..155]);
    LinkSurvives(filled, target, MODE, PrintOctal(7, 0x1A4)) by { NumberWidths(0, 0, 0); }
    LinkSurvives(filled, target, FILE_SIZE, PrintOctal(11, 0)) by { NumberWidth(0); }
    LinkSurvives(filled, target, MAGIC, USTAR + [NUL]);
    assert Holds(filled, TYPEFLAG, [TypeFlag(SymLink)]);
    LinkSurvives(filled, target, TYPEFLAG, [TypeFlag(SymLink)]);
    assert Summed(Put(filled, LINKNAME, target))[TYPEFLAG..TYPEFLAG + 1][0] == TypeFlag(SymLink);
  }

  /* ---- the name ---- */

  /** The paths whose header gives the same path back. */
  predicate SplitsWell(path: Text) {
    || |path| <= 100
    || (|path| <= 256 && SplitIndex(path).Some? && 1 <= SplitIndex(path).value <= 155)
  }

  lemma {:induction false} PaddedCString(s: Text, n: nat)
    requires NulFree(s)
    ensures CString(s + Zeros(n)) == s
  {
    CStringIs(s + Zeros(n), s);
  }

  /** What getName makes of the bytes the constructor stored. */
  function NameReadBack(n: Name): (r: Text) {
    (if n.prefix == [] then [] else (if |n.prefix| <= 155 then n.prefix else n.prefix[..155]) + [SLASH]) + n.name
  }

  lemma FieldsReadBack(h: Text, n: Name, size: nat, kind: Kind)
    requires Describes(h, n, size, kind) && NulFree(n.name) && NulFree(n.prefix)
    ensures HeaderName(h) == NameReadBack(n)
  {
    hide CString, Repeat, PrintOctal;
    PaddedCString(n.name, 100 - |n.name|);
    assert CString(h[NAME..NAME + 100]) == n.name;
    PrefixReadsBack(h, n, size, kind);
  }

  lemma PrefixReadsBack(h: Text, n: Name, size: nat, kind: Kind)
    requires Describes(h, n, size, kind) && NulFree(n.prefix)
    ensures CString(h[PREFIX..PREFIX + 155]) == if |n.prefix| <= 155 then n.prefix else n.prefix[..155]
    ensures h[PREFIX] == NUL <==> n.prefix == []
  {
    hide CString, PrintOctal;
    var field := h[PREFIX..PREFIX + 155];
    assert h[PREFIX] == field[0];
    if |n.prefix| <= 155 {
      PaddedCString(n.prefix, 155 - |n.prefix|);
    } else {
      CStringIs(n.prefix[..155], n.prefix[..155]);
    }
  }

  lemma SplitReadsBack(path: Text)
    requires 100 < |path| <= 256 && SplitIndex(path).Some?
    ensures NameReadBack(SplitName(path).value) == path <==> 1 <= SplitIndex(path).value <= 155
  {
    var i := SplitIndex(path).value;
    assert path == path[..i] + [SLASH] + path[i + 1..];
    if i == 0 || i > 155 {
      assert |NameReadBack(SplitName(path).value)| == |path| - 1;
    }
  }

  /** getName undoes the constructor's split exactly when the chosen index is
      1 to 155: index 0 loses the leading '/', and index 156 loses the byte that
      does not fit the 155-byte prefix. */
  lemma NameRoundTrip(path: Text, h: Text, size: nat, kind: Kind)
    requires NulFree(path) && SplitName(path).Success?
    requires Describes(h, SplitName(path).value, size, kind)
    ensures HeaderName(h) == path <==> SplitsWell(path)
  {
    FieldsReadBack(h, SplitName(path).value, size, kind);
    if |path| > 100 {
      SplitReadsBack(path);
    }
  }

  /** Index 0: a path of 101 bytes that begins with '/' comes back without it. */
  lemma LeadingSlashLost(name: Text, size: nat, kind: Kind, env: Env)
    requires |name| == 100 && NulFree(name) && size <= MAX_SIZE
    ensures var h := FilledHeader([SLASH] + name, size, kind, env);
            h.Success? && HeaderName(h.value) == name != [SLASH] + name
  {
    hide CString, Repeat, PrintOctal, HeaderName, WithName, WithNumbers, WithType, Summed;
    var path := [SLASH] + name;
    assert path[0] == SLASH;
    FilledDescribes(path, size, kind, env);
    assert SplitName(path).value == Name([], name);
    FieldsReadBack(FilledHeader(path, size, kind, env).value, Name([], name), size, kind);
  }

  /** Index 156: the last byte before the slash does not fit the prefix. */
  lemma LastPrefixByteLost(dir: Text, last: byte, name: Text, size: nat, kind: Kind, env: Env)
    requires |dir| == 155 && last != NUL && last != SLASH && |name| == 99
    requires NulFree(dir) && NulFree(name) && size <= MAX_SIZE
    ensures var h := FilledHeader(dir + [last, SLASH] + name, size, kind, env);
            h.Success? && HeaderName(h.value) == dir + [SLASH] + name
  {
    hide CString, Repeat, PrintOctal, HeaderName, WithName, WithNumbers, WithType, Summed;
    var path := dir + [last, SLASH] + name;
    assert path[155] == last && path[156] == SLASH;
    assert path[..156] == dir + [last] && path[157..] == name;
    FilledDescribes(path, size, kind, env);
    assert SplitName(path).value == Name(dir + [last], name);
    FieldsReadBack(FilledHeader(path, size, kind, env).value, Name(dir + [last], name), size, kind);
    assert (dir + [last])[..155] == dir;
  }

  /** The constructor refuses a NUL-free path exactly when it is over 256 bytes
      or has no '/' from |path| - 101 on, up to index 156. */
  lemma SplitFails(path: Text)
    ensures SplitName(path).Failure? <==>
            || |path| > 256
            || (|path| > 100 && forall i :: |path| - 101 <= i <= 156 && i < |path| ==> path[i] != SLASH)
  {
  }

  /* ---- numbers ---- */

  /** sscanf with "%o" or "%llo": leading white space, then octal digits. None when
      no digit is met, in which case the C variable keeps whatever it held. */
  function ScanNumber(s: Text): (r: Option<nat>) {
    if s == [] then None
    else if IsSpace(s[0]) then ScanNumber(s[1..])
    else if IsOctal(s[0]) then Some(ScanDigits(0, s))
    else None
  }

  predicate Terminated(field: Text) {
    NUL in field || SPACE in field
  }

  lemma {:induction false} NumberReadsBack(h: Text, at: nat, width: nat, n: nat)
    requires width > 0 && n < Pow8(width)
    requires at + width + 1 <= |h| && Holds(h, at, PrintOctal(width, n))
    ensures Terminated(h[at..at + width + 1])
    ensures ScanNumber(h[at..]) == Some(n)
  {
    PrintedLength(width, n);
    var field, rest := PrintOctal(width, n), h[at + width + 1..];
    assert h[at..] == field + rest;
    ScanPrinted(width, n, rest);
    assert field[width] == NUL;
  }

  /** The size field holds the size modulo 2^32: the cast to unsigned int. */
  lemma SizeReadsBack(h: Text, n: Name, size: nat, kind: Kind)
    requires Describes(h, n, size, kind)
    ensures Terminated(h[FILE_SIZE..MTIME]) && ScanNumber(h[FILE_SIZE..]) == Some(size % TWO_TO_32)
    ensures Terminated(h[MODE..UID]) && ScanNumber(h[MODE..]) == Some(0x1A4)
  {
    assert Pow8(11) == 0x2_0000_0000;
    assert Pow8(7) == 0x20_0000;
    NumberReadsBack(h, FILE_SIZE, 11, size % TWO_TO_32);
    NumberReadsBack(h, MODE, 7, 0x1A4);
  }

  /** A file of exactly 2^32 bytes is announced as an empty one. */
  lemma FourGigabytesLost(path: Text, env: Env)
    requires SplitName(path).Success?
    ensures ScanNumber(FilledHeader(path, TWO_TO_32, Regular, env).value[FILE_SIZE..]) == Some(0)
  {
    hide CString, Repeat, PrintOctal, WithName, WithNumbers, WithType, Summed, ScanNumber;
    FilledDescribes(path, TWO_TO_32, Regular, env);
    SizeReadsBack(FilledHeader(path, TWO_TO_32, Regular, env).value, SplitName(path).value, TWO_TO_32, Regular);
  }

  /* ---- the link target ---- */

  /** A target of exactly 100 bytes fills linkname, so the C string read back runs
      on into the magic field. */
  function TargetReadBack(target: Text): (r: Text) {
    if |target| < 100 then target else target + USTAR
  }

  lemma LinkReadsBack(h: Text, target: Text)
    requires |h| == SIZE && NulFree(target) && |target| <= 100
    requires Holds(h, LINKNAME, target + Zeros(100 - |target|)) && Holds(h, MAGIC, USTAR + [NUL])
    ensures CString(h[LINKNAME..]) == TargetReadBack(target)
    ensures CString(h[LINKNAME..]) == target <==> |target| <= 99
  {
    var s := h[LINKNAME..];
    assert s == h[LINKNAME..MAGIC] + (h[MAGIC..MAGIC + 6] + h[MAGIC + 6..]);
    CStringIs(s, TargetReadBack(target));
  }

  /** The target of 100 bytes that a writer accepts comes back five bytes longer. */
  lemma LongTargetGrows(path: Text, target: Text, env: Env)
    requires SplitName(path).Success? && |target| == 100 && NulFree(target)
    ensures var h := LinkHeader(path, target, env);
            h.Success? && CString(h.value[LINKNAME..]) == target + USTAR
  {
    hide CString, Repeat, PrintOctal, WithName, WithNumbers, WithType, Summed;
    LinkDescribes(path, target, env);
    LinkReadsBack(LinkHeader(path, target, env).value, target);
  }

  /* ---- the checksum ---- */

  lemma {:induction false} StoredSkipsSpaces(k: nat, t: Text)
    ensures StoredSum(Repeat(SPACE, k) + t, false, 0) == StoredSum(t, false, 0)
  {
    if k == 0 {
      assert Repeat(SPACE, 0) + t == t;
    } else {
      assert (Repeat(SPACE, k) + t)[1..] == Repeat(SPACE, k - 1) + t;
      StoredSkipsSpaces(k - 1, t);
    }
  }

  lemma {:induction false} StoredDigits(digits: Text, t: Text, acc: nat)
    requires AllOctal(digits) && t != [] && t[0] == NUL
    ensures StoredSum(digits + t, true, acc) == Some(ScanDigits(acc, digits))
    decreases digits
  {
    if digits == [] {
      assert digits + t == t;
    } else {
      assert (digits + t)[1..] == digits[1..] + t;
      StoredDigits(digits[1..], t, 8 * acc + (digits[0] - DIGIT_0));
    }
  }

  lemma {:induction false} StoredFirstDigit(digits: Text, t: Text)
    requires digits != [] && AllOctal(digits) && t != [] && t[0] == NUL
    ensures StoredSum(digits + t, false, 0) == Some(ScanDigits(0, digits))
  {
    var d: nat := digits[0] - DIGIT_0;
    assert (digits + t)[0] == digits[0] && (digits + t)[1..] == digits[1..] + t;
    assert StoredSum(digits + t, false, 0) == StoredSum(digits[1..] + t, true, d);
    StoredDigits(digits[1..], t, d);
  }

  lemma StoredReadsBack(sum: nat)
    ensures StoredSum(ChecksumField(sum), false, 0) == Some(sum)
  {
    var digits, t := OctalDigits(sum), [NUL, SPACE];
    ScanOfDigits(sum);
    StoredFirstDigit(digits, t);
    if |digits| < 6 {
      StoredSkipsSpaces(6 - |digits|, digits + t);
      assert ChecksumField(sum) == Repeat(SPACE, 6 - |digits|) + (digits + t);
    }
  }

  /** Whatever the other fields hold, a header on which setChecksum ran last is
      accepted by checksumValid and is not mistaken for an empty block. */
  lemma SummedIsAccepted(h: Text)
    requires |h| == SIZE
    ensures ChecksumOk(Summed(h))
    ensures !AllZero(Summed(h))
  {
    var sum := Sum(Unsummed(h));
    ChecksumFits(Unsummed(h));
    StoredReadsBack(sum);
    assert Summed(h)[CHECKSUM..TYPEFLAG] == ChecksumField(sum);
    assert Unsummed(Summed(h)) == Unsummed(h);
    assert Summed(h)[CHECKSUM + 7] == SPACE;
  }
}
