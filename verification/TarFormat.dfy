/**
 * The deterministic ustar writer (scripts/release/deterministic-tar.ts:4-46) with
 * a reader for the ustar interchange format of the POSIX.1 pax utility. Paths and
 * contents are bytes; a path is its UTF-8 encoding, in which "/" is the single
 * byte 0x2F.
 */
module TarFormat {
  import opened Common

  type byte = b: int | 0 <= b < 256
  type Bytes = seq<byte>

  const BLOCK: nat := 512
  const NUL: byte := 0
  const SPACE: byte := 0x20
  const SLASH: byte := 0x2F
  const DIGIT0: byte := 0x30
  const FILE_TYPE: byte := 0x30
  const DIRECTORY_TYPE: byte := 0x35
  const MAGIC: Bytes := [0x75, 0x73, 0x74, 0x61, 0x72, 0]
  const VERSION: Bytes := [0x30, 0x30]

  function Repeat(b: byte, n: nat): (r: Bytes)
    ensures |r| == n && forall i :: 0 <= i < n ==> r[i] == b
  {
    seq(n, _ => b)
  }

  // ----- octal fields

  function Pow8(k: nat): nat {
    if k == 0 then 1 else 8 * Pow8(k - 1)
  }

  function OctalDigits(n: nat): (s: Bytes)
    ensures s != [] && forall i :: 0 <= i < |s| ==> DIGIT0 <= s[i] < DIGIT0 + 8
  {
    if n < 8 then [DIGIT0 + n] else OctalDigits(n / 8) + [DIGIT0 + n % 8]
  }

  function PadStart(s: Bytes, width: nat): Bytes {
    if |s| >= width then s else Repeat(DIGIT0, width - |s|) + s
  }

  /** writeOctal: None when it throws. */
  function OctalField(value: nat, length: nat): Option<Bytes>
    requires length > 0
  {
    var encoded := PadStart(OctalDigits(value), length - 1);
    if |encoded| >= length then None else Some(encoded + [NUL])
  }

  predicate IsOctal(s: Bytes) {
    forall i :: 0 <= i < |s| ==> DIGIT0 <= s[i] < DIGIT0 + 8
  }

  function FromOctal(s: Bytes): nat
    requires IsOctal(s)
  {
    if s == [] then 0 else FromOctal(s[..|s| - 1]) * 8 + (s[|s| - 1] - DIGIT0)
  }

  function ParseOctal(field: Bytes): Option<nat> {
    if field != [] && field[|field| - 1] == NUL && IsOctal(field[..|field| - 1])
    then Some(FromOctal(field[..|field| - 1])) else None
  }

  lemma {:induction false} DigitsDecode(n: nat)
    ensures FromOctal(OctalDigits(n)) == n
  {
    var s := OctalDigits(n);
    if n >= 8 {
      DigitsDecode(n / 8);
      assert s[..|s| - 1] == OctalDigits(n / 8);
    } else {
      assert s[..0] == [] && FromOctal([]) == 0;
    }
  }

  lemma {:induction false} PaddingDecodes(k: nat, s: Bytes)
    requires IsOctal(s)
    ensures IsOctal(Repeat(DIGIT0, k) + s) && FromOctal(Repeat(DIGIT0, k) + s) == FromOctal(s)
    decreases k + |s|
  {
    var all := Repeat(DIGIT0, k) + s;
    if s != [] {
      assert all[..|all| - 1] == Repeat(DIGIT0, k) + s[..|s| - 1];
      PaddingDecodes(k, s[..|s| - 1]);
    } else if k > 0 {
      assert all[..|all| - 1] == Repeat(DIGIT0, k - 1) + s;
      PaddingDecodes(k - 1, s);
    }
  }

  lemma PadStartDecodes(s: Bytes, width: nat)
    requires IsOctal(s)
    ensures var padded := PadStart(s, width);
      IsOctal(padded) && FromOctal(padded) == FromOctal(s) && |padded| == if |s| >= width then |s| else width
  {
    if |s| < width {
      PaddingDecodes(width - |s|, s);
    }
  }

  lemma TerminatedDecodes(digits: Bytes)
    requires IsOctal(digits)
    ensures ParseOctal(digits + [NUL]) == Some(FromOctal(digits))
  {
    assert (digits + [NUL])[..|digits|] == digits;
  }

  /** A field that was written has its full width and decodes to its value. */
  lemma OctalFieldDecodes(value: nat, length: nat)
    requires length > 0 && OctalField(value, length).Some?
    ensures var field := OctalField(value, length).value;
      |field| == length && ParseOctal(field) == Some(value)
  {
    DigitsDecode(value);
    PadStartDecodes(OctalDigits(value), length - 1);
    TerminatedDecodes(PadStart(OctalDigits(value), length - 1));
  }

  lemma {:induction false} DigitCount(n: nat, k: nat)
    requires k > 0
    ensures |OctalDigits(n)| <= k <==> n < Pow8(k)
  {
    if k == 1 {
      assert Pow8(1) == 8;
    } else if n >= 8 {
      DigitCount(n / 8, k - 1);
    } else {
      Pow8AtLeast(k);
    }
  }

  lemma {:induction false} Pow8AtLeast(k: nat)
    requires k > 0
    ensures Pow8(k) >= 8
  {
    if k > 1 {
      Pow8AtLeast(k - 1);
    }
  }

  /** writeOctal accepts a value exactly when it fits the digits. */
  lemma OctalFieldAccepts(value: nat, length: nat)
    requires length > 1
    ensures OctalField(value, length).Some? <==> value < Pow8(length - 1)
  {
    DigitCount(value, length - 1);
  }

  // ----- splitting a path into name and prefix

  datatype Split = Split(name: Bytes, prefix: Bytes)

  predicate CanSplitAt(path: Bytes, k: nat) {
    k < |path| && path[k] == SLASH && k <= 155 && |path| - k - 1 <= 100
  }

  /** The last slash below `hi` where both halves fit. */
  function LastSplit(path: Bytes, hi: nat): (r: Option<nat>)
    requires hi <= |path|
    ensures r.Some? ==> r.value < hi && CanSplitAt(path, r.value)
    ensures r.Some? ==> forall k :: r.value < k < hi ==> !CanSplitAt(path, k)
    ensures r.None? ==> forall k :: 0 <= k < hi ==> !CanSplitAt(path, k)
  {
    if hi == 0 then None
    else if CanSplitAt(path, hi - 1) then Some(hi - 1)
    else LastSplit(path, hi - 1)
  }

  function SplitPath(path: Bytes): (r: Option<Split>)
    ensures r.Some? ==> |r.value.name| <= 100 && |r.value.prefix| <= 155
  {
    if |path| <= 100 then Some(Split(path, []))
    else
      match LastSplit(path, |path|)
      case None => None
      case Some(k) => Some(Split(path[k + 1..], path[..k]))
  }

  method SplitTarPath(path: Bytes) returns (r: Option<Split>)
    ensures r == SplitPath(path)
  {
    if |path| <= 100 { return Some(Split(path, [])); }
    var k := |path|;
    while k > 0
      invariant 0 <= k <= |path|
      invariant LastSplit(path, |path|) == LastSplit(path, k)
    {
      k := k - 1;
      if path[k] == SLASH {
        var prefix, name := path[..k], path[k + 1..];
        if |prefix| <= 155 && |name| <= 100 { return Some(Split(name, prefix)); }
      }
    }
    return None;
  }

  /** How a ustar reader joins the two fields. */
  function Rejoin(s: Split): Bytes {
    if s.prefix == [] then s.name else s.prefix + [SLASH] + s.name
  }

  /** 101 bytes whose only slash is the first: the one shape whose slash the split drops. */
  predicate DropsSlash(path: Bytes) {
    |path| == 101 && path[0] == SLASH && SLASH !in path[1..]
  }

  /** The writer accepts exactly the short paths and those with a usable slash. */
  lemma SplitAcceptsExactly(path: Bytes)
    ensures SplitPath(path).Some? <==> |path| <= 100 || exists k :: 0 <= k < |path| && CanSplitAt(path, k)
  {
  }

  /** Splitting and rejoining gives the path back, except in the one dropped-slash shape. */
  lemma RejoinsExactly(path: Bytes)
    requires SplitPath(path).Some?
    ensures var s := SplitPath(path).value;
      && |s.name| <= 100 && |s.prefix| <= 155
      && (Rejoin(s) == path <==> !DropsSlash(path))
      && (DropsSlash(path) ==> Rejoin(s) == path[1..])
  {
    var s := SplitPath(path).value;
    if |path| > 100 {
      var k := LastSplit(path, |path|).value;
      if k == 0 {
        assert |path| == 101;
        forall j | 1 <= j < |path| ensures path[j] != SLASH {
          assert !CanSplitAt(path, j);
        }
      } else {
        assert path == path[..k] + [SLASH] + path[k + 1..];
        assert path[1..][k - 1] == SLASH;
      }
    }
  }

  /** A slash and a hundred letters: the slash is gone after splitting and rejoining. */
  lemma LeadingSlashIsDropped()
    ensures var path: Bytes := [SLASH] + Repeat(0x61, 100);
      SplitPath(path).Some? && Rejoin(SplitPath(path).value) == Repeat(0x61, 100) != path
  {
    var path: Bytes := [SLASH] + Repeat(0x61, 100);
    assert CanSplitAt(path, 0);
    SplitAcceptsExactly(path);
    assert path[1..] == Repeat(0x61, 100);
    RejoinsExactly(path);
  }

  // ----- header blocks

  datatype Fields = Fields(name: Bytes, mode: Bytes, size: Bytes, kind: byte, prefix: Bytes, check: Bytes)

  predicate Sized(f: Fields) {
    |f.name| <= 100 && |f.mode| == 8 && |f.size| == 12 && |f.prefix| <= 155 && |f.check| == 8
  }

  const ZERO8: Bytes := Repeat(DIGIT0, 7) + [NUL]
  const ZERO12: Bytes := Repeat(DIGIT0, 11) + [NUL]
  const SPACES8: Bytes := Repeat(SPACE, 8)

  function ByteAt(f: Fields, i: nat): byte
    requires Sized(f)
  {
    if i < 100 then (if i < |f.name| then f.name[i] else NUL)
    else if i < 108 then f.mode[i - 100]
    else if i < 116 then ZERO8[i - 108]
    else if i < 124 then ZERO8[i - 116]
    else if i < 136 then f.size[i - 124]
    else if i < 148 then ZERO12[i - 136]
    else if i < 156 then f.check[i - 148]
    else if i == 156 then f.kind
    else if 257 <= i < 263 then MAGIC[i - 257]
    else if 263 <= i < 265 then VERSION[i - 263]
    else if 345 <= i < 345 + |f.prefix| then f.prefix[i - 345]
    else NUL
  }

  function Layout(f: Fields): (block: Bytes)
    requires Sized(f)
    ensures |block| == BLOCK && forall i :: 0 <= i < BLOCK ==> block[i] == ByteAt(f, i)
  {
    seq(BLOCK, i requires 0 <= i < BLOCK => ByteAt(f, i))
  }

  function Sum(s: Bytes): (t: nat)
    ensures t <= 255 * |s|
  {
    if s == [] then 0 else Sum(s[..|s| - 1]) + s[|s| - 1]
  }

  function ChecksumField(sum: nat): Bytes {
    PadStart(OctalDigits(sum), 6) + [NUL, SPACE]
  }

  /** Every header's checksum fits its six octal digits. */
  lemma ChecksumFits(block: Bytes)
    requires |block| == BLOCK
    ensures |ChecksumField(Sum(block))| == 8
    ensures var field := ChecksumField(Sum(block));
      IsOctal(field[..6]) && FromOctal(field[..6]) == Sum(block)
  {
    var sum := Sum(block);
    assert Pow8(6) == 262144 by { assert Pow8(2) == 64 && Pow8(4) == 4096; }
    DigitCount(sum, 6);
    DigitsDecode(sum);
    PadStartDecodes(OctalDigits(sum), 6);
    assert ChecksumField(sum)[..6] == PadStart(OctalDigits(sum), 6);
  }

  function HeaderFields(path: Bytes, size: nat, mode: nat, kind: byte): Option<Fields> {
    var split := SplitPath(path);
    var modeField := OctalField(mode, 8);
    var sizeField := OctalField(size, 12);
    if split.None? || modeField.None? || sizeField.None? then None
    else Some(Fields(split.value.name, modeField.value, sizeField.value, kind, split.value.prefix, SPACES8))
  }

  lemma HeaderFieldsSized(path: Bytes, size: nat, mode: nat, kind: byte)
    requires HeaderFields(path, size, mode, kind).Some?
    ensures Sized(HeaderFields(path, size, mode, kind).value)
  {
    RejoinsExactly(path);
    OctalFieldDecodes(mode, 8);
    OctalFieldDecodes(size, 12);
  }

  function Header(path: Bytes, size: nat, mode: nat, kind: byte): (r: Option<Bytes>)
    ensures r.Some? ==> |r.value| == BLOCK
  {
    match HeaderFields(path, size, mode, kind)
    case None => None
    case Some(f) =>
      HeaderFieldsSized(path, size, mode, kind);
      ChecksumFits(Layout(f));
      Some(Layout(f.(check := ChecksumField(Sum(Layout(f))))))
  }

  // ----- building a header in place

  method WriteString(buffer: array<byte>, offset: nat, length: nat, value: Bytes) returns (ok: bool)
    requires offset + length <= buffer.Length
    modifies buffer
    ensures ok <==> |value| <= length
    ensures ok ==> forall i :: 0 <= i < buffer.Length ==>
      buffer[i] == if offset <= i < offset + |value| then value[i - offset] else old(buffer[i])
    ensures !ok ==> buffer[..] == old(buffer[..])
  {
    if |value| > length { return false; }
    for k := 0 to |value|
      invariant forall i :: 0 <= i < buffer.Length ==>
        buffer[i] == if offset <= i < offset + k then value[i - offset] else old(buffer[i])
    {
      buffer[offset + k] := value[k];
    }
    return true;
  }

  method SumBytes(buffer: array<byte>) returns (total: nat)
    ensures total == Sum(buffer[..])
  {
    total := 0;
    for i := 0 to buffer.Length
      invariant total == Sum(buffer[..i])
    {
      assert buffer[..i + 1][..i] == buffer[..i];
      total := total + buffer[i];
    }
    assert buffer[..buffer.Length] == buffer[..];
  }

  /** The fields that precede the checksum, written one after another into a zeroed block. */
  method WriteFields(f: Fields) returns (buffer: array<byte>)
    requires Sized(f)
    ensures fresh(buffer) && buffer[..] == Layout(f)
  {
    buffer := new byte[BLOCK](_ => NUL);
    var ok := WriteString(buffer, 0, 100, f.name);
    ok := WriteString(buffer, 100, 8, f.mode);
    ok := WriteString(buffer, 108, 8, ZERO8);
    ok := WriteString(buffer, 116, 8, ZERO8);
    ok := WriteString(buffer, 124, 12, f.size);
    ok := WriteString(buffer, 136, 12, ZERO12);
    ok := WriteString(buffer, 148, 8, f.check);
    ok := WriteString(buffer, 156, 1, [f.kind]);
    ok := WriteString(buffer, 257, 6, MAGIC);
    ok := WriteString(buffer, 263, 2, VERSION);
    ok := WriteString(buffer, 345, 155, f.prefix);
    forall i | 0 <= i < BLOCK ensures buffer[i] == ByteAt(f, i) {
    }
  }

  method BuildHeader(path: Bytes, size: nat, mode: nat, kind: byte) returns (r: Option<array<byte>>)
    ensures r.None? <==> Header(path, size, mode, kind).None?
    ensures r.Some? ==> fresh(r.value) && r.value[..] == Header(path, size, mode, kind).value
  {
    var split := SplitTarPath(path);
    if split.None? { return None; }
    var modeField, sizeField := OctalField(mode, 8), OctalField(size, 12);
    if modeField.None? || sizeField.None? { return None; }
    var f := Fields(split.value.name, modeField.value, sizeField.value, kind, split.value.prefix, SPACES8);
    HeaderFieldsSized(path, size, mode, kind);
    var buffer := WriteFields(f);
    var checksum := SumBytes(buffer);
    ChecksumFits(Layout(f));
    var _ := WriteString(buffer, 148, 8, ChecksumField(checksum));
    assert buffer[..] == Layout(f.(check := ChecksumField(checksum)));
    return Some(buffer);
  }

  // ----- reading a header

  function UpToNul(s: Bytes): Bytes {
    if s == [] || s[0] == NUL then [] else [s[0]] + UpToNul(s[1..])
  }

  datatype Meta = Meta(path: Bytes, size: nat, mode: nat, kind: byte)

  function Respaced(block: Bytes): Bytes
    requires |block| == BLOCK
  {
    block[..148] + SPACES8 + block[156..]
  }

  predicate ChecksumVerifies(block: Bytes)
    requires |block| == BLOCK
  {
    && IsOctal(block[148..154]) && block[154..156] == [NUL, SPACE]
    && FromOctal(block[148..154]) == Sum(Respaced(block))
  }

  function ParseHeader(block: Bytes): Option<Meta>
    requires |block| == BLOCK
  {
    if block[257..263] != MAGIC || block[263..265] != VERSION || !ChecksumVerifies(block) then None
    else
      var mode, size := ParseOctal(block[100..108]), ParseOctal(block[124..136]);
      if mode.None? || size.None? then None
      else Some(Meta(Rejoin(Split(UpToNul(block[..100]), UpToNul(block[345..500]))),
                     size.value, mode.value, block[156]))
  }

  lemma {:induction false} NameReadsBack(s: Bytes, pad: nat)
    ensures NUL !in s ==> UpToNul(s + Repeat(NUL, pad)) == s
    ensures |UpToNul(s + Repeat(NUL, pad))| <= |s|
    ensures NUL in s ==> |UpToNul(s + Repeat(NUL, pad))| < |s|
  {
    var all := s + Repeat(NUL, pad);
    if s != [] {
      assert all[1..] == s[1..] + Repeat(NUL, pad);
      assert s == [s[0]] + s[1..];
      NameReadsBack(s[1..], pad);
    }
  }

  lemma LayoutFields(f: Fields)
    requires Sized(f)
    ensures var b := Layout(f);
      && b[..100] == f.name + Repeat(NUL, 100 - |f.name|)
      && b[345..500] == f.prefix + Repeat(NUL, 155 - |f.prefix|)
      && b[100..108] == f.mode && b[124..136] == f.size
      && b[148..154] == f.check[..6] && b[154..156] == f.check[6..]
      && b[156] == f.kind && b[257..263] == MAGIC && b[263..265] == VERSION
  {
  }

  lemma RespacedLayout(f: Fields)
    requires Sized(f)
    ensures Respaced(Layout(f)) == Layout(f.(check := SPACES8))
  {
  }

  /** The path a reader finds in the header written for this path. */
  function PathAsRead(path: Bytes): Bytes
    requires SplitPath(path).Some?
  {
    Rejoin(Recovered(SplitPath(path).value))
  }

  /**
   * Every header that is written parses: its checksum verifies, its numbers
   * decode, and its path is the one written exactly when that path has no NUL
   * and is not the dropped-slash shape.
   */
  lemma HeaderParses(path: Bytes, size: nat, mode: nat, kind: byte)
    requires Header(path, size, mode, kind).Some?
    ensures var block := Header(path, size, mode, kind).value;
      && ChecksumVerifies(block)
      && SplitPath(path).Some?
      && ParseHeader(block) == Some(Meta(PathAsRead(path), size, mode, kind))
      && (PathAsRead(path) == path <==> NUL !in path && !DropsSlash(path))
  {
    var f := HeaderFields(path, size, mode, kind).value;
    HeaderFieldsSized(path, size, mode, kind);
    ChecksumFits(Layout(f));
    var g := f.(check := ChecksumField(Sum(Layout(f))));
    WrittenChecksumVerifies(f);
    OctalFieldDecodes(mode, 8);
    OctalFieldDecodes(size, 12);
    LayoutParses(g, size, mode);
    PathReadsBack(path);
  }

  lemma WrittenChecksumVerifies(f: Fields)
    requires Sized(f) && f.check == SPACES8 && |ChecksumField(Sum(Layout(f)))| == 8
    ensures ChecksumVerifies(Layout(f.(check := ChecksumField(Sum(Layout(f))))))
  {
    var g := f.(check := ChecksumField(Sum(Layout(f))));
    ChecksumFits(Layout(f));
    LayoutFields(g);
    RespacedLayout(g);
    assert g.(check := SPACES8) == f;
  }

  lemma LayoutParses(g: Fields, size: nat, mode: nat)
    requires Sized(g) && ChecksumVerifies(Layout(g))
    requires ParseOctal(g.mode) == Some(mode) && ParseOctal(g.size) == Some(size)
    ensures ParseHeader(Layout(g)) == Some(Meta(Rejoin(Recovered(Split(g.name, g.prefix))), size, mode, g.kind))
  {
    LayoutFields(g);
  }

  /** The split a reader recovers from the two fields. */
  function Recovered(s: Split): Split
    requires |s.name| <= 100 && |s.prefix| <= 155
  {
    Split(UpToNul(s.name + Repeat(NUL, 100 - |s.name|)), UpToNul(s.prefix + Repeat(NUL, 155 - |s.prefix|)))
  }

  lemma RecoveredExactly(s: Split)
    requires |s.name| <= 100 && |s.prefix| <= 155
    ensures NUL !in s.name && NUL !in s.prefix ==> Recovered(s) == s
    ensures NUL in s.name || NUL in s.prefix ==> |Rejoin(Recovered(s))| < |s.name| + |s.prefix| + 1
    ensures NUL in s.name && s.prefix == [] ==> |Rejoin(Recovered(s))| < |s.name|
  {
    NameReadsBack(s.name, 100 - |s.name|);
    NameReadsBack(s.prefix, 155 - |s.prefix|);
  }

  lemma SplitParts(path: Bytes)
    requires SplitPath(path).Some?
    ensures var s := SplitPath(path).value;
      && (NUL in path <==> NUL in s.name || NUL in s.prefix)
      && (if |path| <= 100 then s == Split(path, []) else |path| == |s.prefix| + 1 + |s.name|)
  {
    if |path| > 100 {
      var k := LastSplit(path, |path|).value;
      assert path == path[..k] + [SLASH] + path[k + 1..];
    }
  }

  lemma PathReadsBack(path: Bytes)
    requires SplitPath(path).Some?
    ensures var s := SplitPath(path).value;
      |s.name| <= 100 && |s.prefix| <= 155 &&
      (Rejoin(Recovered(s)) == path <==> NUL !in path && !DropsSlash(path))
  {
    RejoinsExactly(path);
    RecoveredExactly(SplitPath(path).value);
    SplitParts(path);
  }

  /** A header is never mistaken for the end-of-archive marker. */
  lemma HeaderIsNotZero(path: Bytes, size: nat, mode: nat, kind: byte)
    requires Header(path, size, mode, kind).Some?
    ensures Header(path, size, mode, kind).value != Repeat(NUL, BLOCK)
  {
    var block := Header(path, size, mode, kind).value;
    HeaderParses(path, size, mode, kind);
    assert block[257] == block[257..263][0] == 0x75;
  }

  predicate Zeros(block: Bytes, lo: nat, hi: nat)
    requires hi <= |block|
  {
    forall i :: lo <= i < hi ==> block[i] == 0
  }

  /**
   * The rest of every header: owner, group and time are zero, the magic is
   * "ustar" with version "00", and link name, names, device numbers and padding
   * are empty, so nothing in it depends on where or when it was written.
   */
  lemma HeaderRest(path: Bytes, size: nat, mode: nat, kind: byte)
    requires Header(path, size, mode, kind).Some?
    ensures var block := Header(path, size, mode, kind).value;
      && ParseOctal(block[108..116]) == Some(0) && ParseOctal(block[116..124]) == Some(0)
      && ParseOctal(block[136..148]) == Some(0)
      && block[257..265] == [0x75, 0x73, 0x74, 0x61, 0x72, 0, 0x30, 0x30]
      && Zeros(block, 157, 257) && Zeros(block, 265, 345) && Zeros(block, 500, 512)
  {
    var f := HeaderFields(path, size, mode, kind).value;
    HeaderFieldsSized(path, size, mode, kind);
    ChecksumFits(Layout(f));
    LayoutRest(f.(check := ChecksumField(Sum(Layout(f)))));
    ZerosParse();
  }

  lemma LayoutRest(f: Fields)
    requires Sized(f)
    ensures var b := Layout(f);
      && b[108..116] == ZERO8 && b[116..124] == ZERO8 && b[136..148] == ZERO12
      && b[257..265] == [0x75, 0x73, 0x74, 0x61, 0x72, 0, 0x30, 0x30]
      && Zeros(b, 157, 257) && Zeros(b, 265, 345) && Zeros(b, 500, 512)
  {
  }

  lemma ZerosParse()
    ensures ParseOctal(ZERO8) == Some(0) && ParseOctal(ZERO12) == Some(0)
  {
    TerminatedDecodes(Repeat(DIGIT0, 7));
    TerminatedDecodes(Repeat(DIGIT0, 11));
    AllZeros(7);
    AllZeros(11);
  }

  lemma {:induction false} AllZeros(n: nat)
    ensures IsOctal(Repeat(DIGIT0, n)) && FromOctal(Repeat(DIGIT0, n)) == 0
  {
    if n > 0 {
      AllZeros(n - 1);
      assert Repeat(DIGIT0, n)[..n - 1] == Repeat(DIGIT0, n - 1);
    }
  }
}
