/** Byte-level layout of a Git pack file (pkg/pack/packfile.go): the 12-byte
    pack header, the per-object type/size header, the two delta base locators,
    and the ofs-delta bounds check. The decoders DecodePackHeader,
    DecodeTypeSize, DecodeOfsOffset and DecodeObjectHeader are the
    specifications the cursor-driven methods of PackReader are proved against;
    DecodeWideOfs is Git's unbounded rule for the ofs-delta offset, kept as a
    reference. Next to the decoders are Git's encoders, which the decoders are
    proved to invert, with one exception: DecodeOfsOffset inverts Git's offset
    writer only for distances below 256 (OfsAsWrittenRoundTripBelow256) and
    misreads 261 (OfsAsWrittenMisreads). */
module PackFormat {

  /** Go's `byte`. The bit operations of the source are written arithmetically:
      `b & 15` is `b % 16`, `(b >> 4) & 7` is `(b / 16) % 8`, `b & 0x7f` is
      `b % 128` and `b & 0x80 != 0` is `b >= 128` (see TypeBitsAgree and
      LowBitsAgree). */
  type byte = x: int | 0 <= x < 256
  /** Go's `uint32` and `uint64`. */
  type u32 = x: int | 0 <= x < 0x1_0000_0000
  type u64 = x: int | 0 <= x < 0x1_0000_0000_0000_0000

  const Two32: int := 0x1_0000_0000
  const Two64: int := 0x1_0000_0000_0000_0000

  const HeaderSize: nat := 12
  const Signature: u32 := 0x5041434b
  /** GitSha1Rawsz: the length of the base object id that follows a ref-delta header. */
  const HashSize: nat := 20

  datatype Option<T> = None | Some(value: T)

  /** The errors the decoder returns; every one aborts the parse. */
  datatype Error =
    | Truncated                      // fill could not provide the bytes asked for
    | BadSignature(signature: u32)
    | BadVersion(version: u32)
    | BadType(tag: nat)
    | OffsetOverflow                 // "bad delta base object offset value"
    | DeltaBaseOutOfBound            // "delta base offset is out out of bound"
    | InflateFailed(code: int)       // the inflater itself returned an error
    | InflateReturned(status: int)   // loop ended without Z_STREAM_END or with the wrong output size

  datatype Result<T> = Ok(value: T) | Err(error: Error)

  /** The object kinds, with Git's numeric tags. */
  datatype ObjectType = Commit | Tree | Blob | Tag | OfsDelta | RefDelta

  function TagOf(t: ObjectType): nat
  {
    match t
    case Commit => 1
    case Tree => 2
    case Blob => 3
    case Tag => 4
    case OfsDelta => 6
    case RefDelta => 7
  }

  /** The switch of ParseObjects: tags 0 and 5 are not object types. */
  function TypeOfTag(tag: nat): (r: Option<ObjectType>)
    ensures r.Some? ==> TagOf(r.value) == tag
    ensures r.None? <==> tag !in {1, 2, 3, 4, 6, 7}
  {
    if tag == 1 then Some(Commit)
    else if tag == 2 then Some(Tree)
    else if tag == 3 then Some(Blob)
    else if tag == 4 then Some(Tag)
    else if tag == 6 then Some(OfsDelta)
    else if tag == 7 then Some(RefDelta)
    else None
  }

  lemma TagRoundTrip(t: ObjectType)
    ensures TagOf(t) < 8 && TypeOfTag(TagOf(t)) == Some(t)
  {
  }

  // ---------------------------------------------------------------------------
  // Bit helpers

  function TypeBits(b: byte): nat { (b / 16) % 8 }
  function Low4(b: byte): nat { b % 16 }
  function Low7(b: byte): nat { b % 128 }
  predicate HasMore(b: byte) { b >= 128 }

  /** The arithmetic helpers are the source's bit operations on an 8-bit value. */
  lemma TypeBitsAgree(x: bv8)
    ensures TypeBits(x as int) == ((x >> 4) & 7) as int
  {
    ShiftRight4Agrees(x);
    MaskAgrees(x >> 4);
  }

  lemma LowBitsAgree(x: bv8)
    ensures Low4(x as int) == (x & 15) as int
    ensures Low7(x as int) == (x & 127) as int
    ensures HasMore(x as int) <==> x & 128 != 0
  {
    MaskAgrees(x);
  }

  lemma ShiftRight4Agrees(x: bv8)
    ensures (x >> 4) as int == x as int / 16
  {
  }

  /** Masking with 2^k - 1 keeps the remainder modulo 2^k. */
  lemma MaskAgrees(x: bv8)
    ensures (x & 7) as int == x as int % 8
    ensures (x & 15) as int == x as int % 16
    ensures (x & 127) as int == x as int % 128
  {
    Mask7Agrees(x);
    Mask15Agrees(x);
    Mask127Agrees(x);
  }

  lemma Mask7Agrees(x: bv8) ensures (x & 7) as int == x as int % 8 {}
  lemma Mask15Agrees(x: bv8) ensures (x & 15) as int == x as int % 16 {}
  lemma Mask127Agrees(x: bv8) ensures (x & 127) as int == x as int % 128 {}

  function Pow2(n: nat): (r: nat)
    ensures r >= 1
  {
    if n == 0 then 1 else 2 * Pow2(n - 1)
  }

  lemma {:induction false} Pow2Add(a: nat, b: nat)
    ensures Pow2(a + b) == Pow2(a) * Pow2(b)
  {
    if a > 0 {
      Pow2Add(a - 1, b);
      assert Pow2(a + b) == 2 * Pow2(a - 1 + b);
    }
  }

  // ---------------------------------------------------------------------------
  // Pack header (packfile.go:50-73)

  function BigEndian32(s: seq<byte>, i: nat): u32
    requires i + 4 <= |s|
  {
    s[i] as int * 0x100_0000 + s[i + 1] as int * 0x1_0000 + s[i + 2] as int * 0x100 + s[i + 3] as int
  }

  function BigEndianBytes(x: u32): seq<byte>
  {
    [x / 0x100_0000, (x / 0x1_0000) % 0x100, (x / 0x100) % 0x100, x % 0x100]
  }

  /** binary.BigEndian.Uint32 inverts the big-endian layout of a 32-bit value... */
  lemma BigEndianDecodesBytes(x: u32)
    ensures BigEndian32(BigEndianBytes(x), 0) == x
  {
    var b0, r0 := x / 0x100_0000, x % 0x100_0000;
    var b1, r1 := r0 / 0x1_0000, r0 % 0x1_0000;
    var b2, b3 := r1 / 0x100, r1 % 0x100;
    DivModUnique(x, b0 * 0x100 + b1, r1, 0x1_0000);
    DivModUnique(b0 * 0x100 + b1, b0, b1, 0x100);
    DivModUnique(x, b0 * 0x1_0000 + b1 * 0x100 + b2, b3, 0x100);
    DivModUnique(b0 * 0x1_0000 + b1 * 0x100 + b2, b0 * 0x100 + b1, b2, 0x100);
    assert BigEndianBytes(x) == [b0, b1, b2, b3];
  }

  /** Division with remainder has one answer. */
  lemma DivModUnique(x: int, q: int, r: int, d: int)
    requires 0 <= r < d && x == q * d + r
    ensures x / d == q && x % d == r
  {
    var e := q - x / d;
    assert e * d == x % d - r;
    if e > 0 {
      assert false;
    } else if e < 0 {
      assert false;
    }
  }

  /** ... and the four bytes are determined by the value they encode. */
  lemma BigEndianEncodesValue(s: seq<byte>, i: nat)
    requires i + 4 <= |s|
    ensures BigEndianBytes(BigEndian32(s, i)) == s[i..i + 4]
  {
    var b0, b1, b2, b3 := s[i] as int, s[i + 1] as int, s[i + 2] as int, s[i + 3] as int;
    var x := BigEndian32(s, i);
    DivModUnique(x, b0, b1 * 0x1_0000 + b2 * 0x100 + b3, 0x100_0000);
    DivModUnique(x, b0 * 0x100 + b1, b2 * 0x100 + b3, 0x1_0000);
    DivModUnique(b0 * 0x100 + b1, b0, b1, 0x100);
    DivModUnique(x, b0 * 0x1_0000 + b1 * 0x100 + b2, b3, 0x100);
    DivModUnique(b0 * 0x1_0000 + b1 * 0x100 + b2, b0 * 0x100 + b1, b2, 0x100);
    assert BigEndianBytes(x) == [b0, b1, b2, b3];
  }

  datatype PackHeader = PackHeader(version: u32, count: u32)

  /** The checks of ParseHeader over the 12 filled bytes, in the source's order. */
  function DecodePackHeader(h: seq<byte>): (r: Result<PackHeader>)
    requires |h| >= HeaderSize
    ensures r.Ok? <==> BigEndian32(h, 0) == Signature && BigEndian32(h, 4) in {2, 3}
    ensures r.Ok? ==> r.value == PackHeader(BigEndian32(h, 4), BigEndian32(h, 8))
    ensures r.Err? ==> r.error.BadSignature? || r.error.BadVersion?
  {
    var signature := BigEndian32(h, 0);
    if signature != Signature then Err(BadSignature(signature))
    else
      var version := BigEndian32(h, 4);
      if version != 2 && version != 3 then Err(BadVersion(version))
      else Ok(PackHeader(version, BigEndian32(h, 8)))
  }

  function EncodePackHeader(hd: PackHeader): (r: seq<byte>)
  {
    BigEndianBytes(Signature) + BigEndianBytes(hd.version) + BigEndianBytes(hd.count)
  }

  /** "PACK" in ASCII. */
  const SignatureBytes: seq<byte> := [0x50, 0x41, 0x43, 0x4b]

  /** A header is accepted exactly when its first four bytes spell "PACK" and its
      next four are the big-endian version 2 or 3; the version and the object
      count are then the big-endian words at bytes 4-7 and 8-11. */
  lemma PackHeaderAcceptedIff(h: seq<byte>)
    requires |h| >= HeaderSize
    ensures DecodePackHeader(h).Ok? <==>
      h[..4] == SignatureBytes && (h[4..8] == [0, 0, 0, 2] || h[4..8] == [0, 0, 0, 3])
    ensures DecodePackHeader(h).Ok? ==>
      DecodePackHeader(h).value == PackHeader(h[7], BigEndian32(h, 8))
    ensures h[..4] != SignatureBytes ==> DecodePackHeader(h) == Err(BadSignature(BigEndian32(h, 0)))
  {
    WordMatches(h, 0, Signature);
    assert BigEndianBytes(Signature) == SignatureBytes;
    assert h[..4] == h[0..4];
    WordMatches(h, 4, 2);
    WordMatches(h, 4, 3);
    assert BigEndianBytes(2) == [0, 0, 0, 2] && BigEndianBytes(3) == [0, 0, 0, 3];
  }

  /** A big-endian word equals `x` exactly when its bytes are those of `x`. */
  lemma WordMatches(h: seq<byte>, i: nat, x: u32)
    requires i + 4 <= |h|
    ensures BigEndian32(h, i) == x <==> h[i..i + 4] == BigEndianBytes(x)
    ensures BigEndian32(h, i) == x ==> x % 0x100 == h[i + 3]
  {
    BigEndianEncodesValue(h, i);
    BigEndianDecodesBytes(x);
    if h[i..i + 4] == BigEndianBytes(x) {
      assert BigEndian32(h, i) == BigEndian32(BigEndianBytes(x), 0);
    }
  }

  /** Encoding a header and decoding it gives back the version and count, or
      BadVersion for a version outside {2, 3}. */
  lemma PackHeaderRoundTrip(hd: PackHeader, rest: seq<byte>)
    ensures |EncodePackHeader(hd) + rest| >= HeaderSize
    ensures DecodePackHeader(EncodePackHeader(hd) + rest) ==
      if hd.version == 2 || hd.version == 3 then Ok(hd) else Err(BadVersion(hd.version))
  {
    var s := EncodePackHeader(hd) + rest;
    BigEndianDecodesBytes(Signature);
    BigEndianDecodesBytes(hd.version);
    BigEndianDecodesBytes(hd.count);
    assert s[0..4] == BigEndianBytes(Signature);
    assert s[4..8] == BigEndianBytes(hd.version);
    assert s[8..12] == BigEndianBytes(hd.count);
  }

  // ---------------------------------------------------------------------------
  // Object type and size (packfile.go:84-96)

  /** `size += (uint64(b) & 0x7f) << shift` on a uint64: a shift of 64 or more
      gives 0, and the sum wraps. */
  function ShiftIn(size: u64, b: byte, shift: nat): (r: u64)
    ensures shift >= 64 ==> r == size
  {
    ShiftedOut(Low7(b), shift);
    (size + (Low7(b) * Pow2(shift)) % Two64) % Two64
  }

  /** A uint64 shifted left by 64 or more bits is 0. */
  lemma ShiftedOut(x: nat, shift: nat)
    ensures shift >= 64 ==> (x * Pow2(shift)) % Two64 == 0
  {
    if shift >= 64 {
      Pow2Is2To64();
      Pow2Add(64, shift - 64);
      var q := x * Pow2(shift - 64);
      MulRegroup(x, Pow2(64), Pow2(shift - 64));
      DivModUnique(q * Two64, q, 0, Two64);
    }
  }

  lemma MulRegroup(x: int, a: int, b: int)
    ensures x * (a * b) == (x * b) * a
  {
  }

  lemma Pow2Is2To64()
    ensures Pow2(64) == Two64
  {
    assert Pow2(2) == 4;
    assert Pow2(4) == 16;
    Pow2Add(4, 4);
    assert Pow2(8) == 0x100;
    Pow2Add(8, 8);
    assert Pow2(16) == 0x1_0000;
    Pow2Add(16, 16);
    assert Pow2(32) == 0x1_0000_0000;
    Pow2Add(32, 32);
  }

  /** The continuation loop: `prev` is the byte read last, `i` the index of the
      next unread byte. Gives the final size and the index after the header, or
      Truncated when the input ends while the continuation bit is still set. */
  function SizeTail(s: seq<byte>, i: nat, size: u64, shift: nat, prev: byte): (r: Result<(u64, nat)>)
    requires i <= |s|
    ensures r.Ok? ==> i <= r.value.1 <= |s|
    ensures r.Err? ==> r.error == Truncated
    decreases |s| - i
  {
    if !HasMore(prev) then Ok((size, i))
    else if i == |s| then Err(Truncated)
    else SizeTail(s, i + 1, ShiftIn(size, s[i], shift), shift + 7, s[i])
  }

  datatype TypeSize = TypeSize(tag: nat, size: u64, next: nat)

  /** The type tag and size of the object header starting at index `at`. */
  function DecodeTypeSize(s: seq<byte>, at: nat): (r: Result<TypeSize>)
    ensures r.Ok? ==> at < r.value.next <= |s| && r.value.tag < 8
    ensures r.Err? ==> r.error == Truncated
  {
    if at >= |s| then Err(Truncated)
    else
      var b := s[at];
      match SizeTail(s, at + 1, Low4(b), 4, b)
      case Err(e) => Err(e)
      case Ok((size, next)) => Ok(TypeSize(TypeBits(b), size, next))
  }

  /** The continuation loop stops at the first byte whose high bit is clear:
      every byte it consumed before that one has the high bit set. */
  lemma {:induction false} SizeTailStops(s: seq<byte>, i: nat, size: u64, shift: nat, prev: byte)
    requires i <= |s| && HasMore(prev)
    requires SizeTail(s, i, size, shift, prev).Ok?
    ensures var next := SizeTail(s, i, size, shift, prev).value.1;
      i < next && !HasMore(s[next - 1]) && forall j :: i <= j < next - 1 ==> HasMore(s[j])
    decreases |s| - i
  {
    if HasMore(s[i]) {
      SizeTailStops(s, i + 1, ShiftIn(size, s[i], shift), shift + 7, s[i]);
    }
  }

  /** The header is exactly the bytes up to and including the first byte with
      bit 7 clear, and the type is bits 4-6 of the first byte. */
  lemma TypeSizeConsumesHeader(s: seq<byte>, at: nat)
    requires DecodeTypeSize(s, at).Ok?
    ensures var r := DecodeTypeSize(s, at).value;
      r.tag == TypeBits(s[at]) && !HasMore(s[r.next - 1]) &&
      forall j :: at <= j < r.next - 1 ==> HasMore(s[j])
  {
    if HasMore(s[at]) {
      SizeTailStops(s, at + 1, Low4(s[at]), 4, s[at]);
    }
  }

  /** The base-128 groups of a size, least significant first, the continuation
      bit set on every group but the last. */
  function SizeGroups(v: nat): (r: seq<byte>)
    ensures |r| > 0
  {
    if v < 128 then [v] else [128 + v % 128] + SizeGroups(v / 128)
  }

  /** The object header as Git writes it: type in bits 4-6 of the first byte,
      the low four bits of the size below it, then the rest of the size in
      base-128 groups. */
  function EncodeTypeSize(tag: nat, size: nat): seq<byte>
    requires tag < 8
  {
    if size < 16 then [tag * 16 + size]
    else [128 + tag * 16 + size % 16] + SizeGroups(size / 16)
  }

  /** The fields of a first header byte built from a tag, four size bits and
      the continuation flag. */
  lemma FirstByteFields(tag: nat, low: nat, more: bool)
    requires tag < 8 && low < 16
    ensures var b := (if more then 128 else 0) + tag * 16 + low;
      0 <= b < 256 && TypeBits(b) == tag && Low4(b) == low && HasMore(b) == more
  {
    var b := (if more then 128 else 0) + tag * 16 + low;
    assert b / 16 == (if more then 8 else 0) + tag;
  }

  lemma SplitGroup(v: nat, p: nat)
    ensures v * p == (v % 128) * p + (v / 128) * (p * 128)
  {
    assert v == (v / 128) * 128 + v % 128;
    calc {
      v * p;
      ((v / 128) * 128 + v % 128) * p;
      (v / 128) * 128 * p + (v % 128) * p;
    }
  }

  /** Without overflow, ShiftIn is plain addition. */
  lemma ShiftInExact(size: u64, b: byte, shift: nat)
    requires size + Low7(b) * Pow2(shift) < Two64
    ensures ShiftIn(size, b, shift) == size + Low7(b) * Pow2(shift)
  {
    var t := Low7(b) * Pow2(shift);
    DivModUnique(t, 0, t, Two64);
    DivModUnique(size + t, 0, size + t, Two64);
  }

  lemma {:induction false} SizeGroupsDecode(s: seq<byte>, i: nat, v: nat, size: u64, shift: nat, prev: byte)
    requires HasMore(prev)
    requires i + |SizeGroups(v)| <= |s| && s[i..i + |SizeGroups(v)|] == SizeGroups(v)
    requires size + v * Pow2(shift) < Two64
    ensures SizeTail(s, i, size, shift, prev) == Ok((size + v * Pow2(shift), i + |SizeGroups(v)|))
    decreases v
  {
    var g := SizeGroups(v);
    assert s[i] == g[0];
    var p := Pow2(shift);
    assert Low7(s[i]) == v % 128;
    SplitGroup(v, p);
    assert (v % 128) * p <= v * p;
    ShiftInExact(size, s[i], shift);
    var size' := size + (v % 128) * p;
    if v >= 128 {
      Pow2Add(shift, 7);
      assert Pow2(7) == 128;
      var tail := SizeGroups(v / 128);
      assert s[i + 1..i + 1 + |tail|] == g[1..];
      assert size' + (v / 128) * Pow2(shift + 7) == size + v * p;
      SizeGroupsDecode(s, i + 1, v / 128, size', shift + 7, s[i]);
    }
  }

  /** Round trip: every 64-bit size, with any type tag, is recovered from Git's
      encoding, and decoding consumes exactly the encoded bytes. */
  lemma TypeSizeRoundTrip(s: seq<byte>, at: nat, tag: nat, size: u64)
    requires tag < 8
    requires at + |EncodeTypeSize(tag, size)| <= |s|
    requires s[at..at + |EncodeTypeSize(tag, size)|] == EncodeTypeSize(tag, size)
    ensures DecodeTypeSize(s, at) == Ok(TypeSize(tag, size, at + |EncodeTypeSize(tag, size)|))
  {
    var e := EncodeTypeSize(tag, size);
    assert s[at] == e[0];
    if size < 16 {
      FirstByteFields(tag, size, false);
    } else {
      var g := SizeGroups(size / 16);
      assert e == [128 + tag * 16 + size % 16] + g;
      assert s[at + 1..at + 1 + |g|] == s[at..at + |e|][1..] == g;
      LongSizeDecode(s, at, tag, size);
    }
  }

  lemma LongSizeDecode(s: seq<byte>, at: nat, tag: nat, size: u64)
    requires tag < 8 && size >= 16
    requires at + 1 + |SizeGroups(size / 16)| <= |s|
    requires s[at] == 128 + tag * 16 + size % 16
    requires s[at + 1..at + 1 + |SizeGroups(size / 16)|] == SizeGroups(size / 16)
    ensures DecodeTypeSize(s, at) == Ok(TypeSize(tag, size, at + 1 + |SizeGroups(size / 16)|))
  {
    FirstByteFields(tag, size % 16, true);
    assert Pow2(4) == 16;
    assert size % 16 + (size / 16) * Pow2(4) == size;
    SizeGroupsDecode(s, at + 1, size / 16, size % 16, 4, s[at]);
  }

  // ---------------------------------------------------------------------------
  // Ofs-delta base offset (packfile.go:108-130)

  /** The loop of packfile.go:115-126 as written: `baseOffset` is a Go `byte`,
      so the increment and `(baseOffset << 7) + (b & 127)` wrap modulo 256.
      The increment and its wrap check come before the next byte is read. */
  function OfsTail(s: seq<byte>, i: nat, baseOffset: byte, prev: byte): (r: Result<(byte, nat)>)
    requires i <= |s|
    ensures r.Ok? ==> i <= r.value.1 <= |s|
    ensures r.Err? ==> r.error in {Truncated, OffsetOverflow}
    decreases |s| - i
  {
    if !HasMore(prev) then Ok((baseOffset, i))
    else
      var bumped := (baseOffset + 1) % 256;
      if bumped == 0 then Err(OffsetOverflow)
      else if i == |s| then Err(Truncated)
      else OfsTail(s, i + 1, OfsShift(bumped, s[i]), s[i])
  }

  /** `(baseOffset << 7) + (b & 127)` on bytes: of the old value only its
      lowest bit survives, as bit 7. */
  function OfsShift(baseOffset: byte, b: byte): (r: byte)
    ensures r == (baseOffset % 2) * 128 + Low7(b)
  {
    HalfByteShift(baseOffset, 0);
    HalfByteShift(baseOffset, Low7(b));
    ((baseOffset * 128) % 256 + Low7(b)) % 256
  }

  /** The relative base offset of an ofs-delta whose locator starts at `at`,
      with the index after it. */
  function DecodeOfsOffset(s: seq<byte>, at: nat): (r: Result<(byte, nat)>)
    ensures r.Ok? ==> at < r.value.1 <= |s|
    ensures r.Err? ==> r.error in {Truncated, OffsetOverflow}
  {
    if at >= |s| then Err(Truncated) else OfsTail(s, at + 1, Low7(s[at]), s[at])
  }

  /** The ofs-delta loop, when it succeeds, stops at the first byte whose
      high bit is clear: every byte it consumed before that one has the high
      bit set. */
  lemma {:induction false} OfsTailStops(s: seq<byte>, i: nat, baseOffset: byte, prev: byte)
    requires i <= |s| && HasMore(prev)
    requires OfsTail(s, i, baseOffset, prev).Ok?
    ensures var next := OfsTail(s, i, baseOffset, prev).value.1;
      i < next && !HasMore(s[next - 1]) && forall j :: i <= j < next - 1 ==> HasMore(s[j])
    decreases |s| - i
  {
    if HasMore(s[i]) {
      OfsTailStops(s, i + 1, OfsShift((baseOffset + 1) % 256, s[i]), s[i]);
    }
  }

  /** The locator is exactly the bytes up to and including the first byte
      with bit 7 clear. */
  lemma OfsOffsetConsumesLocator(s: seq<byte>, at: nat)
    requires DecodeOfsOffset(s, at).Ok?
    ensures var next := DecodeOfsOffset(s, at).value.1;
      !HasMore(s[next - 1]) && forall j :: at <= j < next - 1 ==> HasMore(s[j])
  {
    if HasMore(s[at]) {
      OfsTailStops(s, at + 1, Low7(s[at]), s[at]);
    }
  }

  /** A continuation bit seen while the accumulator is 255 is rejected as an
      overflow before the next byte is read, even where the input ends. */
  lemma OverflowAt255(s: seq<byte>, i: nat, prev: byte)
    requires i <= |s| && HasMore(prev)
    ensures OfsTail(s, i, 255, prev) == Err(OffsetOverflow)
  {
  }

  /** The accumulator reaches 255 after a first byte with an even low part
      and a second byte 0xff: [0x80, 0xff] is rejected as an overflow, where
      Git's reader asks for a third byte. */
  lemma OverflowBeforeTruncation()
    ensures DecodeOfsOffset([0x80, 0xff], 0) == Err(OffsetOverflow)
    ensures DecodeWideOfs([0x80, 0xff], 0) == Err(Truncated)
  {
    assert OfsShift(1, 0xff) == 255;
  }

  /** Git's rule on an unbounded accumulator: the reference the byte-wide
      decoder is compared with. */
  function WideOfsTail(s: seq<byte>, i: nat, acc: nat, prev: byte): (r: Result<(nat, nat)>)
    requires i <= |s|
    ensures r.Ok? ==> i <= r.value.1 <= |s|
    ensures r.Err? ==> r.error == Truncated
    decreases |s| - i
  {
    if !HasMore(prev) then Ok((acc, i))
    else if i == |s| then Err(Truncated)
    else WideOfsTail(s, i + 1, (acc + 1) * 128 + Low7(s[i]), s[i])
  }

  function DecodeWideOfs(s: seq<byte>, at: nat): (r: Result<(nat, nat)>)
    ensures r.Ok? ==> at < r.value.1 <= |s|
  {
    if at >= |s| then Err(Truncated) else WideOfsTail(s, at + 1, Low7(s[at]), s[at])
  }

  /** Git's writer of the relative offset: the last byte holds the low seven
      bits; each earlier byte holds the next seven bits of the quotient minus
      one, with the continuation bit set. `more` sets it on the last byte too. */
  function EncodeOfs(n: nat, more: bool): (r: seq<byte>)
    ensures |r| > 0
    decreases n
  {
    var last := n % 128 + (if more then 128 else 0);
    if n < 128 then [last] else EncodeOfs(n / 128 - 1, true) + [last]
  }

  /** The value that increment-then-shift gives a run of locator bytes, read
      from its last byte backwards. */
  function OfsValue(bs: seq<byte>): nat
    requires |bs| > 0
  {
    if |bs| == 1 then Low7(bs[0])
    else (OfsValue(bs[..|bs| - 1]) + 1) * 128 + Low7(bs[|bs| - 1])
  }

  lemma EncodeOfsShape(n: nat, more: bool)
    ensures var e := EncodeOfs(n, more);
      OfsValue(e) == n && HasMore(e[|e| - 1]) == more &&
      forall j :: 0 <= j < |e| - 1 ==> HasMore(e[j])
  {
    EncodeOfsValue(n, more);
    EncodeOfsFlags(n, more);
  }

  lemma {:induction false} EncodeOfsValue(n: nat, more: bool)
    ensures OfsValue(EncodeOfs(n, more)) == n
    decreases n
  {
    if n >= 128 {
      var e := EncodeOfs(n, more);
      var front := EncodeOfs(n / 128 - 1, true);
      EncodeOfsValue(n / 128 - 1, true);
      assert e == front + [n % 128 + (if more then 128 else 0)];
      assert e[..|e| - 1] == front;
    }
  }

  lemma {:induction false} EncodeOfsFlags(n: nat, more: bool)
    ensures var e := EncodeOfs(n, more);
      HasMore(e[|e| - 1]) == more && forall j :: 0 <= j < |e| - 1 ==> HasMore(e[j])
    decreases n
  {
    if n >= 128 {
      var e := EncodeOfs(n, more);
      var front := EncodeOfs(n / 128 - 1, true);
      EncodeOfsFlags(n / 128 - 1, true);
      assert e == front + [n % 128 + (if more then 128 else 0)];
      assert forall j :: 0 <= j < |e| - 1 ==> e[j] == front[j];
    }
  }

  /** After the first `k - i` locator bytes, all with the continuation bit
      set but possibly the last, the unbounded decoder holds their OfsValue. */
  lemma {:induction false} WideOfsPrefix(s: seq<byte>, i: nat, k: nat)
    requires i < k <= |s|
    requires forall j :: i <= j < k - 1 ==> HasMore(s[j])
    ensures DecodeWideOfs(s, i) == WideOfsTail(s, k, OfsValue(s[i..k]), s[k - 1])
    decreases k
  {
    if k > i + 1 {
      WideOfsPrefix(s, i, k - 1);
      assert s[i..k][..k - 1 - i] == s[i..k - 1];
    }
  }

  /** Round trip of the unbounded decoder against Git's writer, for every
      relative offset. */
  lemma WideOfsRoundTrip(s: seq<byte>, at: nat, n: nat)
    requires at + |EncodeOfs(n, false)| <= |s|
    requires s[at..at + |EncodeOfs(n, false)|] == EncodeOfs(n, false)
    ensures DecodeWideOfs(s, at) == Ok((n, at + |EncodeOfs(n, false)|))
  {
    var e := EncodeOfs(n, false);
    var k := at + |e|;
    EncodeOfsShape(n, false);
    assert forall j :: at <= j < k - 1 ==> s[j] == e[j - at];
    WideOfsPrefix(s, at, k);
    assert s[at..k] == e;
  }

  /** One continuation step of the byte-wide loop is Git's step modulo 256. */
  lemma OfsShiftIsWideMod256(v: byte, w: nat, b: byte)
    requires v == w % 256 && (v + 1) % 256 != 0
    ensures OfsShift((v + 1) % 256, b) == ((w + 1) * 128 + Low7(b)) % 256
  {
    var bumped := (v + 1) % 256;
    assert bumped == (w + 1) % 256;
    SameParity(w + 1);
    HalfByteShift(bumped, 0);
    HalfByteShift(w + 1, Low7(b));
  }

  lemma SameParity(x: nat)
    ensures (x % 256) % 2 == x % 2
  {
    assert x == (x / 256) * 256 + x % 256;
  }

  /** Shifting left by seven in a byte keeps only the lowest bit. */
  lemma HalfByteShift(x: nat, low: nat)
    requires low < 128
    ensures (x * 128 + low) % 256 == (x % 2) * 128 + low
  {
    assert x * 128 + low == (x / 2) * 256 + ((x % 2) * 128 + low);
  }

  /** The byte-wide loop computes Git's value modulo 256 and consumes the same
      bytes; where Git's loop runs out of input, so does it. */
  lemma {:induction false} OfsTailIsWideMod256(s: seq<byte>, i: nat, v: byte, w: nat, prev: byte)
    requires i <= |s| && v == w % 256
    ensures OfsTail(s, i, v, prev).Ok? ==>
      WideOfsTail(s, i, w, prev).Ok? &&
      OfsTail(s, i, v, prev).value.1 == WideOfsTail(s, i, w, prev).value.1 &&
      OfsTail(s, i, v, prev).value.0 == WideOfsTail(s, i, w, prev).value.0 % 256
    ensures OfsTail(s, i, v, prev) == Err(Truncated) ==> WideOfsTail(s, i, w, prev) == Err(Truncated)
    decreases |s| - i
  {
    if HasMore(prev) && (v + 1) % 256 != 0 && i < |s| {
      OfsShiftIsWideMod256(v, w, s[i]);
      OfsTailIsWideMod256(s, i + 1, OfsShift((v + 1) % 256, s[i]), (w + 1) * 128 + Low7(s[i]), s[i]);
    }
  }

  lemma OfsAsWrittenIsWideMod256(s: seq<byte>, at: nat)
    requires DecodeOfsOffset(s, at).Ok?
    ensures DecodeWideOfs(s, at).Ok?
    ensures DecodeWideOfs(s, at).value.1 == DecodeOfsOffset(s, at).value.1
    ensures DecodeOfsOffset(s, at).value.0 == DecodeWideOfs(s, at).value.0 % 256
  {
    OfsTailIsWideMod256(s, at + 1, Low7(s[at]), Low7(s[at]), s[at]);
  }

  /** Below 256 the byte-wide loop agrees with Git's writer. */
  lemma OfsAsWrittenRoundTripBelow256(s: seq<byte>, at: nat, n: nat)
    requires n < 256
    requires at + |EncodeOfs(n, false)| <= |s|
    requires s[at..at + |EncodeOfs(n, false)|] == EncodeOfs(n, false)
    ensures DecodeOfsOffset(s, at) == Ok((n, at + |EncodeOfs(n, false)|))
  {
    var e := EncodeOfs(n, false);
    assert s[at] == e[0];
    if n >= 128 {
      assert EncodeOfs(0, true) == [128];
      assert e == [128, n % 128];
      assert s[at + 1] == e[1];
      assert OfsShift(1, s[at + 1]) == n;
      assert OfsTail(s, at + 2, n, s[at + 1]) == Ok((n, at + 2));
      assert OfsTail(s, at + 1, 0, s[at]) == OfsTail(s, at + 2, n, s[at + 1]);
    }
  }

  /** The byte-wide loop misreads Git's encoding of 261, [0x81, 0x05], as 5. */
  lemma OfsAsWrittenMisreads()
    ensures EncodeOfs(261, false) == [0x81, 0x05]
    ensures DecodeWideOfs([0x81, 0x05], 0) == Ok((261, 2))
    ensures DecodeOfsOffset([0x81, 0x05], 0) == Ok((5, 2))
  {
    assert EncodeOfs(1, true) == [0x81];
  }

  /** packfile.go:127-128: `ofsOffset := curOffset - uint32(baseOffset)` in
      uint32 arithmetic, rejected when `ofsOffset <= 0 || ofsOffset >= curOffset`.
      The wrapping check rejects exactly the offsets that do not point
      strictly between the start of the file and the current object. */
  predicate OutOfBound(curOffset: u32, baseOffset: u32): (r: bool)
    ensures r <==> !(0 < baseOffset < curOffset)
  {
    var target := (curOffset - baseOffset) % Two32;
    assert baseOffset > curOffset ==> target == Two32 + curOffset - baseOffset;
    assert baseOffset <= curOffset ==> target == curOffset - baseOffset;
    target <= 0 || target >= curOffset
  }

  // ---------------------------------------------------------------------------
  // The whole object header (packfile.go:77-150)

  datatype ObjectHeader = ObjectHeader(kind: ObjectType, size: u64, next: nat)

  /** The header of the object starting at index `at` of the file: type and
      size, then the 20-byte base id of a ref-delta or the checked relative
      offset of an ofs-delta. `next` is the index of its compressed data. The
      current offset is the uint32 `curOffset`, i.e. `at` modulo 2^32. */
  function DecodeObjectHeader(s: seq<byte>, at: nat): (r: Result<ObjectHeader>)
    ensures r.Ok? ==> at < r.value.next <= |s|
  {
    match DecodeTypeSize(s, at)
    case Err(e) => Err(e)
    case Ok(ts) =>
      match TypeOfTag(ts.tag)
      case None => Err(BadType(ts.tag))
      case Some(kind) =>
        if kind == RefDelta then
          if |s| - ts.next < HashSize then Err(Truncated)
          else Ok(ObjectHeader(kind, ts.size, ts.next + HashSize))
        else if kind == OfsDelta then
          match DecodeOfsOffset(s, ts.next)
          case Err(e) => Err(e)
          case Ok((baseOffset, next)) =>
            if OutOfBound(at % Two32, baseOffset) then Err(DeltaBaseOutOfBound)
            else Ok(ObjectHeader(kind, ts.size, next))
        else Ok(ObjectHeader(kind, ts.size, ts.next))
  }

  /** What follows the type/size bytes: nothing, a base id, or a backwards
      distance to the base object. */
  datatype BaseLocator = NoBase | RefBase(id: seq<byte>) | OfsBase(distance: nat)

  predicate LocatorFits(kind: ObjectType, base: BaseLocator)
  {
    match kind
    case RefDelta => base.RefBase? && |base.id| == HashSize
    case OfsDelta => base.OfsBase?
    case _ => base.NoBase?
  }

  function EncodeObjectHeader(kind: ObjectType, size: u64, base: BaseLocator): seq<byte>
    requires LocatorFits(kind, base)
  {
    EncodeTypeSize(TagOf(kind), size) +
    match base
    case NoBase => []
    case RefBase(id) => id
    case OfsBase(distance) => EncodeOfs(distance, false)
  }

  /** What follows a well-formed type/size header, for a known kind. */
  lemma HeaderAfterTypeSize(s: seq<byte>, at: nat, kind: ObjectType, size: u64, mid: nat)
    requires DecodeTypeSize(s, at) == Ok(TypeSize(TagOf(kind), size, mid))
    ensures kind == RefDelta && mid + HashSize <= |s| ==>
      DecodeObjectHeader(s, at) == Ok(ObjectHeader(kind, size, mid + HashSize))
    ensures kind == OfsDelta && DecodeOfsOffset(s, mid).Ok? &&
            0 < DecodeOfsOffset(s, mid).value.0 < at % Two32 ==>
      DecodeObjectHeader(s, at) == Ok(ObjectHeader(kind, size, DecodeOfsOffset(s, mid).value.1))
    ensures kind != RefDelta && kind != OfsDelta ==>
      DecodeObjectHeader(s, at) == Ok(ObjectHeader(kind, size, mid))
    ensures kind == RefDelta && mid + HashSize > |s| ==>
      DecodeObjectHeader(s, at) == Err(Truncated)
    ensures kind == OfsDelta && DecodeOfsOffset(s, mid).Err? ==>
      DecodeObjectHeader(s, at) == Err(DecodeOfsOffset(s, mid).error)
    ensures kind == OfsDelta && DecodeOfsOffset(s, mid).Ok? &&
            !(0 < DecodeOfsOffset(s, mid).value.0 < at % Two32) ==>
      DecodeObjectHeader(s, at) == Err(DeltaBaseOutOfBound)
  {
    TagRoundTrip(kind);
    if kind == OfsDelta && DecodeOfsOffset(s, mid).Ok? {
    }
  }

  /** Round trip of a whole object header: kind and size are recovered and
      decoding stops exactly at the end of the header. For an ofs-delta this
      needs the distance to point strictly inside the file before the object,
      and, because the accumulator is a byte, to be below 256. */
  lemma ObjectHeaderRoundTrip(s: seq<byte>, at: nat, kind: ObjectType, size: u64, base: BaseLocator)
    requires LocatorFits(kind, base)
    requires at + |EncodeObjectHeader(kind, size, base)| <= |s|
    requires s[at..at + |EncodeObjectHeader(kind, size, base)|] == EncodeObjectHeader(kind, size, base)
    requires base.OfsBase? ==> 0 < base.distance < at % Two32 && base.distance < 256
    ensures DecodeObjectHeader(s, at) == Ok(ObjectHeader(kind, size, at + |EncodeObjectHeader(kind, size, base)|))
  {
    match base
    case NoBase => PlainHeaderRoundTrip(s, at, kind, size, base);
    case RefBase(_) => RefHeaderRoundTrip(s, at, kind, size, base);
    case OfsBase(_) => OfsHeaderRoundTrip(s, at, kind, size, base);
  }

  lemma PlainHeaderRoundTrip(s: seq<byte>, at: nat, kind: ObjectType, size: u64, base: BaseLocator)
    requires kind != RefDelta && kind != OfsDelta && base == NoBase
    requires at + |EncodeObjectHeader(kind, size, base)| <= |s|
    requires s[at..at + |EncodeObjectHeader(kind, size, base)|] == EncodeObjectHeader(kind, size, base)
    ensures DecodeObjectHeader(s, at) == Ok(ObjectHeader(kind, size, at + |EncodeObjectHeader(kind, size, base)|))
  {
    var ts := EncodeTypeSize(TagOf(kind), size);
    assert EncodeObjectHeader(kind, size, base) == ts;
    TypeSizeRoundTrip(s, at, TagOf(kind), size);
    HeaderAfterTypeSize(s, at, kind, size, at + |ts|);
  }

  lemma RefHeaderRoundTrip(s: seq<byte>, at: nat, kind: ObjectType, size: u64, base: BaseLocator)
    requires kind == RefDelta && base.RefBase? && |base.id| == HashSize
    requires at + |EncodeObjectHeader(kind, size, base)| <= |s|
    requires s[at..at + |EncodeObjectHeader(kind, size, base)|] == EncodeObjectHeader(kind, size, base)
    ensures DecodeObjectHeader(s, at) == Ok(ObjectHeader(kind, size, at + |EncodeObjectHeader(kind, size, base)|))
  {
    var ts := EncodeTypeSize(TagOf(kind), size);
    assert EncodeObjectHeader(kind, size, base) == ts + base.id;
    ConcatAt(s, at, ts, base.id);
    TypeSizeRoundTrip(s, at, TagOf(kind), size);
    HeaderAfterTypeSize(s, at, kind, size, at + |ts|);
  }

  lemma OfsHeaderRoundTrip(s: seq<byte>, at: nat, kind: ObjectType, size: u64, base: BaseLocator)
    requires kind == OfsDelta && base.OfsBase? && 0 < base.distance < at % Two32 && base.distance < 256
    requires at + |EncodeObjectHeader(kind, size, base)| <= |s|
    requires s[at..at + |EncodeObjectHeader(kind, size, base)|] == EncodeObjectHeader(kind, size, base)
    ensures DecodeObjectHeader(s, at) == Ok(ObjectHeader(kind, size, at + |EncodeObjectHeader(kind, size, base)|))
  {
    var ts := EncodeTypeSize(TagOf(kind), size);
    var o := EncodeOfs(base.distance, false);
    assert EncodeObjectHeader(kind, size, base) == ts + o;
    OfsPartsDecode(s, at, size, base.distance, ts, o);
    OfsHeaderFromParts(s, at, size, at + |ts|, base.distance, at + |ts| + |o|);
  }

  /** The type/size bytes and the offset bytes of an ofs-delta header each
      decode on their own. */
  lemma OfsPartsDecode(s: seq<byte>, at: nat, size: u64, distance: nat, ts: seq<byte>, o: seq<byte>)
    requires distance < 256
    requires ts == EncodeTypeSize(TagOf(OfsDelta), size) && o == EncodeOfs(distance, false)
    requires at + |ts| + |o| <= |s| && s[at..at + |ts + o|] == ts + o
    ensures DecodeTypeSize(s, at) == Ok(TypeSize(TagOf(OfsDelta), size, at + |ts|))
    ensures DecodeOfsOffset(s, at + |ts|) == Ok((distance, at + |ts| + |o|))
  {
    var mid := at + |ts|;
    ConcatAt(s, at, ts, o);
    TypeSizeRoundTrip(s, at, TagOf(OfsDelta), size);
    OfsAsWrittenRoundTripBelow256(s, mid, distance);
  }

  /** An ofs-delta header whose two parts decode, with the base in range. */
  lemma OfsHeaderFromParts(s: seq<byte>, at: nat, size: u64, mid: nat, distance: byte, next: nat)
    requires DecodeTypeSize(s, at) == Ok(TypeSize(TagOf(OfsDelta), size, mid))
    requires DecodeOfsOffset(s, mid) == Ok((distance, next))
    requires 0 < distance < at % Two32
    ensures DecodeObjectHeader(s, at) == Ok(ObjectHeader(OfsDelta, size, next))
  {
    HeaderAfterTypeSize(s, at, OfsDelta, size, mid);
  }

  /** Slicing a concatenation that sits at index `at`. */
  lemma ConcatAt(s: seq<byte>, at: nat, a: seq<byte>, b: seq<byte>)
    requires at + |a| + |b| <= |s| && s[at..at + |a + b|] == a + b
    ensures s[at..at + |a|] == a && s[at + |a|..at + |a| + |b|] == b
  {
    assert s[at..at + |a|] == (a + b)[..|a|];
    assert s[at + |a|..at + |a| + |b|] == (a + b)[|a|..];
  }

  /** What an accepted header consumed after its type/size bytes: 20 bytes for
      a ref-delta, the locator for an ofs-delta, which then points strictly
      between the start of the file and the object, and nothing otherwise. */
  lemma ObjectHeaderLayout(s: seq<byte>, at: nat)
    requires DecodeObjectHeader(s, at).Ok?
    ensures var h := DecodeObjectHeader(s, at).value;
      var ts := DecodeTypeSize(s, at);
      ts.Ok? && TypeOfTag(ts.value.tag) == Some(h.kind) && h.size == ts.value.size &&
      (h.kind == RefDelta ==> h.next == ts.value.next + HashSize) &&
      (h.kind == OfsDelta ==>
         var o := DecodeOfsOffset(s, ts.value.next);
         o.Ok? && h.next == o.value.1 && 0 < o.value.0 < at % Two32) &&
      (h.kind !in {RefDelta, OfsDelta} ==> h.next == ts.value.next)
  {
    if DecodeObjectHeader(s, at).value.kind == OfsDelta {
      var o := DecodeOfsOffset(s, DecodeTypeSize(s, at).value.next);
    }
  }

  /** Tags 0 and 5 are rejected once the type/size bytes are read, whatever follows. */
  lemma UnknownTypeRejected(s: seq<byte>, at: nat)
    requires DecodeTypeSize(s, at).Ok?
    requires DecodeTypeSize(s, at).value.tag in {0, 5}
    ensures DecodeObjectHeader(s, at) == Err(BadType(DecodeTypeSize(s, at).value.tag))
  {
  }
}
