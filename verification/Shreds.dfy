/**
 The shred parser and the 64-bit deduplication key (pkg/solana/shred.go).

 Bytes and the fields read from them are integers of the width the source uses; a mask that keeps
 the high bits of a byte is written as a division.
 */
module Shreds {
  import opened Wrappers
  import opened Bits

  const UDP_SHRED_SIZE: nat := 1228
  const SIZE_OF_SIGNATURE: nat := 64
  const SIZE_OF_COMMON_HEADER: nat := 83
  const SIZE_OF_PARENT: nat := 85
  const SIZE_OF_MERKLE_CODE_HEADERS: nat := 89
  const MIN_MERKLE_SIZE: nat := UDP_SHRED_SIZE - SIZE_OF_MERKLE_CODE_HEADERS + SIZE_OF_SIGNATURE

  const SLOT_AT: nat := 65
  const INDEX_AT: nat := 73
  const VERSION_AT: nat := 77
  const FEC_SET_AT: nat := 79

  const MAX_DATA_SHREDS_PER_SLOT: U32 := 32768

  const LEGACY_CODE: U8 := 0x50
  const LEGACY_DATA: U8 := 0xA0
  const MERKLE_CODE: U8 := 0x40
  const MERKLE_CODE_CHAINED: U8 := 0x60
  const MERKLE_CODE_RESIGNED: U8 := 0x70
  const MERKLE_DATA: U8 := 0x80
  const MERKLE_DATA_CHAINED: U8 := 0x90
  const MERKLE_DATA_RESIGNED: U8 := 0xB0

  datatype ParseError =
    | TooSmall
    | TooBig
    | UnknownVariant
    | IllegalSize
    | UnknownSizeVariant
    | IndexTooBig
    | SlotBelowParentOffset
    | SlotBelowParent

  /** What a Go call that may index out of range does. */
  datatype Outcome<+T> = Parsed(value: T) | Rejected(error: ParseError) | Panics

  datatype Variant = Variant(code: U8, proofSize: U8, chained: bool, resigned: bool) {
    predicate IsCode() { code / 64 == 1 }

    predicate IsData() { code / 64 == 2 }

    predicate IsLegacy() { code == LEGACY_CODE || code == LEGACY_DATA }
  }

  function ParseVariant(b: U8): Result<Variant, ParseError> {
    var kind := b / 16 * 16;
    var proofSize := b % 16;
    if kind == LEGACY_CODE then Ok(Variant(kind, 0, false, false))
    else if kind == LEGACY_DATA then Ok(Variant(kind, 0, false, false))
    else if kind == MERKLE_CODE then Ok(Variant(kind, proofSize, false, false))
    else if kind == MERKLE_CODE_CHAINED then Ok(Variant(kind, proofSize, true, false))
    else if kind == MERKLE_CODE_RESIGNED then Ok(Variant(kind, proofSize, true, true))
    else if kind == MERKLE_DATA then Ok(Variant(kind, proofSize, false, false))
    else if kind == MERKLE_DATA_CHAINED then Ok(Variant(kind, proofSize, true, false))
    else if kind == MERKLE_DATA_RESIGNED then Ok(Variant(kind, proofSize, true, true))
    else Err(UnknownVariant)
  }

  /** The error of validateShredSize, if any. */
  function ValidateSize(size: int, v: Variant): Option<ParseError> {
    if v.IsLegacy() then
      if size != UDP_SHRED_SIZE then Some(IllegalSize) else None
    else if v.code in {MERKLE_CODE, MERKLE_DATA, MERKLE_DATA_CHAINED, MERKLE_DATA_RESIGNED,
                       MERKLE_CODE_RESIGNED, MERKLE_CODE_CHAINED} then
      if size < MIN_MERKLE_SIZE || size > UDP_SHRED_SIZE then Some(IllegalSize) else None
    else Some(UnknownSizeVariant)
  }

  function ValidateSizeSimple(size: int): Option<ParseError> {
    if size > UDP_SHRED_SIZE then Some(TooBig)
    else if size < MIN_MERKLE_SIZE then Some(TooSmall)
    else None
  }

  // Little-endian reads

  function U16Of(b: seq<U8>): U16
    requires |b| == 2
  {
    b[0] + b[1] * TWO8
  }

  function U32Of(b: seq<U8>): U32
    requires |b| == 4
  {
    U16Of(b[..2]) + U16Of(b[2..]) * TWO16
  }

  function U64Of(b: seq<U8>): U64
    requires |b| == 8
  {
    U32Of(b[..4]) + U32Of(b[4..]) * TWO32
  }

  // The slices the parsers read

  function SlotOf(s: seq<U8>): U64
    requires |s| >= INDEX_AT
  {
    U64Of(s[SLOT_AT..INDEX_AT])
  }

  function IndexOf(s: seq<U8>): U32
    requires |s| >= VERSION_AT
  {
    U32Of(s[INDEX_AT..VERSION_AT])
  }

  function FecSetOf(s: seq<U8>): U32
    requires |s| >= SIZE_OF_COMMON_HEADER
  {
    U32Of(s[FEC_SET_AT..SIZE_OF_COMMON_HEADER])
  }

  function ParentOffsetOf(s: seq<U8>): U16
    requires |s| >= SIZE_OF_PARENT
  {
    U16Of(s[SIZE_OF_COMMON_HEADER..SIZE_OF_PARENT])
  }

  function CodingOf(s: seq<U8>): CodingHeader
    requires |s| >= SIZE_OF_MERKLE_CODE_HEADERS
  {
    CodingHeader(U16Of(s[83..85]), U16Of(s[85..87]), U16Of(s[87..89]))
  }

  /** The counts and position that only coding shreds carry. */
  datatype CodingHeader = CodingHeader(numData: U16, numCode: U16, position: U16)

  datatype Shred = Shred(
    raw: seq<U8>,
    signature: seq<U8>,
    variant: Variant,
    slot: U64,
    index: U32,
    fecSet: U32,
    coding: CodingHeader)

  datatype PartialShred = PartialShred(
    raw: seq<U8>,
    dataSize: int,
    variant: Variant,
    slot: U64,
    index: U32)

  /** A [1228]byte array. */
  type Payload = s: seq<U8> | |s| == UDP_SHRED_SIZE witness seq(UDP_SHRED_SIZE, _ => 0)

  /** Go's s[i]: nothing when i is out of range, where the program panics. */
  function ByteAt(s: seq<U8>, i: nat): Option<U8> {
    if i < |s| then Some(s[i]) else None
  }

  function ParseShred(s: seq<U8>): Outcome<Shred> {
    if |s| < SIZE_OF_SIGNATURE then Rejected(TooSmall)
    else if ByteAt(s, SIZE_OF_SIGNATURE) == None then Panics
    else
      match ParseVariant(ByteAt(s, SIZE_OF_SIGNATURE).value)
      case Err(e) => Rejected(e)
      case Ok(v) =>
        match ValidateSize(|s|, v)
        case Some(e) => Rejected(e)
        case None =>
          var coding := if v.IsCode() then CodingOf(s) else CodingHeader(0, 0, 0);
          Parsed(Shred(s, s[..SIZE_OF_SIGNATURE], v, SlotOf(s), IndexOf(s), FecSetOf(s), coding))
  }

  function ParsePartial(s: Payload, size: int): Result<PartialShred, ParseError> {
    if size < SIZE_OF_PARENT then Err(TooSmall)
    else
      match ParseVariant(s[SIZE_OF_SIGNATURE])
      case Err(e) => Err(e)
      case Ok(v) =>
        match ValidateSize(size, v)
        case Some(e) => Err(e)
        case None =>
          var index := IndexOf(s);
          var slot := SlotOf(s);
          var parentOffset := ParentOffsetOf(s);
          if index > MAX_DATA_SHREDS_PER_SLOT then Err(IndexTooBig)
          else if v.IsData() && slot < parentOffset then Err(SlotBelowParentOffset)
          else if v.IsData() && slot < (slot - parentOffset) % TWO64 then Err(SlotBelowParent)
          else Ok(PartialShred(s, size, v, slot, index))
  }

  /** (slot << 28) | (index << 8) | variant, in 64 bits. */
  function Key(slot: U64, index: U32, code: U8): nat {
    Or(Or(slot * TWO28 % TWO64, index * TWO8), code)
  }

  // Variants

  /** A known variant byte splits into kind and proof size without loss, unless it is a legacy byte
      whose low nibble is set; a legacy byte always loses its low nibble. */
  lemma VariantByte(b: U8)
    ensures ParseVariant(b).Ok? ==>
              var v := ParseVariant(b).value;
              && v.IsCode() != v.IsData()
              && (v.code + v.proofSize == b <==> !v.IsLegacy() || b % 16 == 0)
              && ValidateSize(UDP_SHRED_SIZE, v).None?
    ensures ParseVariant(b).Ok? <==> 0x40 <= b < 0xC0
  {
  }

  /** The chained and resigned flags of a Merkle shred are bits 5 and 4 of a code byte, and bits 4 and 5
      of a data byte; legacy shreds have neither flag and no proof. */
  lemma VariantFlags(b: U8)
    requires ParseVariant(b).Ok?
    ensures var v := ParseVariant(b).value;
            (v.IsCode() <==> b < 0x80) && (v.IsData() <==> b >= 0x80)
            && (v.IsLegacy() <==> b / 16 == 5 || b / 16 == 10)
    ensures var v := ParseVariant(b).value;
            var bit4, bit5 := b / 16 % 2 == 1, b / 32 % 2 == 1;
            if v.IsLegacy() then v == Variant(b / 16 * 16, 0, false, false)
            else v == Variant(b / 16 * 16, b % 16, if v.IsCode() then bit5 else bit4, if v.IsCode() then bit4 else bit5)
  {
  }

  // Parsing

  lemma PanicsExactlyAtSignatureLength(s: seq<U8>)
    ensures ParseShred(s).Panics? <==> |s| == SIZE_OF_SIGNATURE
  {
  }

  /** The two checks the partial parser adds to the full one. */
  predicate ExtraChecks(s: Payload, v: Variant) {
    && IndexOf(s) <= MAX_DATA_SHREDS_PER_SLOT
    && (v.IsData() ==> ParentOffsetOf(s) <= SlotOf(s))
  }

  /** For every buffer and every length, the partial parser succeeds exactly when the full parser
      succeeds on the prefix and the two extra checks hold, and then both read the same fields.  */
  lemma ParserAgreement(s: Payload, size: int)
    ensures ParsePartial(s, size).Ok? <==>
              && 0 <= size <= UDP_SHRED_SIZE
              && ParseShred(s[..size]).Parsed?
              && ExtraChecks(s, ParseShred(s[..size]).value.variant)
    ensures ParsePartial(s, size).Ok? ==>
              var p := ParsePartial(s, size).value;
              var f := ParseShred(s[..size]).value;
              && (p.slot, p.index, p.variant) == (f.slot, f.index, f.variant)
              && p.raw == s && p.dataSize == size == |f.raw|
              && p.index <= MAX_DATA_SHREDS_PER_SLOT
  {
    if MIN_MERKLE_SIZE <= size <= UDP_SHRED_SIZE {
      var f := s[..size];
      assert f[SLOT_AT..INDEX_AT] == s[SLOT_AT..INDEX_AT];
      assert f[INDEX_AT..VERSION_AT] == s[INDEX_AT..VERSION_AT];
    }
  }

  /** Two error branches of the partial parser are dead, and what it accepts has passed the coarse
      size filter of the sniffer. */
  lemma DeadBranches(s: Payload, size: int)
    ensures ParsePartial(s, size) != Err(SlotBelowParent)
    ensures ParsePartial(s, size) != Err(UnknownSizeVariant)
    ensures ParsePartial(s, size).Ok? ==> ValidateSizeSimple(size).None?
  {
  }

  // What is accepted, and where its fields are

  lemma BytesOf16(b: seq<U8>)
    requires |b| == 2
    ensures U16Of(b) == b[0] + b[1] * TWO8
  {
  }

  lemma BytesOf32(b: seq<U8>)
    requires |b| == 4
    ensures U32Of(b) == b[0] + b[1] * TWO8 + b[2] * TWO16 + b[3] * TWO24
  {
    BytesOf16(b[..2]);
    BytesOf16(b[2..]);
  }

  lemma BytesOf64(b: seq<U8>)
    requires |b| == 8
    ensures U64Of(b) == b[0] + b[1] * TWO8 + b[2] * TWO16 + b[3] * TWO24
                        + (b[4] + b[5] * TWO8 + b[6] * TWO16 + b[7] * TWO24) * TWO32
  {
    BytesOf32(b[..4]);
    BytesOf32(b[4..]);
  }

  /** Of the inputs the full parser can read, it accepts exactly those with a known variant byte and a legal size:
      1228 for a legacy shred, 1203 to 1228 for a Merkle shred. */
  lemma AcceptedShreds(s: seq<U8>)
    ensures |s| < 64 ==> ParseShred(s) == Rejected(TooSmall)
    ensures |s| > 64 ==>
              var known := 0x40 <= s[64] < 0xC0;
              var sized := if s[64] / 16 == 5 || s[64] / 16 == 10 then |s| == 1228 else 1203 <= |s| <= 1228;
              && (ParseShred(s).Parsed? <==> known && sized)
              && (!known ==> ParseShred(s) == Rejected(UnknownVariant))
              && (known && !sized ==> ParseShred(s) == Rejected(IllegalSize))
  {
  }

  /** The signature comes first, then variant, slot, index, version and FEC set; a coding shred goes on with two
      counts and a position. All numbers are little-endian. */
  lemma ParsedFields(s: seq<U8>)
    requires ParseShred(s).Parsed?
    ensures |s| >= 1203
    ensures var p := ParseShred(s).value;
            && p.raw == s && p.signature == s[..64] && ParseVariant(s[64]) == Ok(p.variant)
            && p.slot == s[65] + s[66] * TWO8 + s[67] * TWO16 + s[68] * TWO24
                         + (s[69] + s[70] * TWO8 + s[71] * TWO16 + s[72] * TWO24) * TWO32
            && p.index == s[73] + s[74] * TWO8 + s[75] * TWO16 + s[76] * TWO24
            && p.fecSet == s[79] + s[80] * TWO8 + s[81] * TWO16 + s[82] * TWO24
            && p.coding == if s[64] < 0x80
                           then CodingHeader(s[83] + s[84] * TWO8, s[85] + s[86] * TWO8, s[87] + s[88] * TWO8)
                           else CodingHeader(0, 0, 0)
  {
    BytesOf64(s[65..73]);
    BytesOf32(s[73..77]);
    BytesOf32(s[79..83]);
  }

  /** What the partial parser makes of every buffer and length: the checks in their order, and the fields read. */
  lemma AcceptedDatagrams(s: Payload, size: int)
    ensures var known := 0x40 <= s[64] < 0xC0;
            var sized := if s[64] / 16 == 5 || s[64] / 16 == 10 then size == 1228 else 1203 <= size <= 1228;
            var slot := s[65] + s[66] * TWO8 + s[67] * TWO16 + s[68] * TWO24
                        + (s[69] + s[70] * TWO8 + s[71] * TWO16 + s[72] * TWO24) * TWO32;
            var index := s[73] + s[74] * TWO8 + s[75] * TWO16 + s[76] * TWO24;
            ParsePartial(s, size) ==
            if size < 85 then Err(TooSmall)
            else if !known then Err(UnknownVariant)
            else if !sized then Err(IllegalSize)
            else if index > 32768 then Err(IndexTooBig)
            else if s[64] >= 0x80 && s[83] + s[84] * TWO8 > slot then Err(SlotBelowParentOffset)
            else Ok(PartialShred(s, size, ParseVariant(s[64]).value, slot, index))
  {
    BytesOf64(s[65..73]);
    BytesOf32(s[73..77]);
    BytesOf16(s[83..85]);
  }

  /** The sniffers' filter lets through the sizes a Merkle shred can have. */
  lemma FilteredSizes(size: int)
    ensures ValidateSizeSimple(size) ==
            if size > 1228 then Some(TooBig) else if size >= 1203 then None else Some(TooSmall)
  {
  }

  // Writing the layout

  function LE16(x: U16): (b: seq<U8>)
    ensures |b| == 2 && U16Of(b) == x
  {
    [x % TWO8, x / TWO8]
  }

  function LE32(x: U32): (b: seq<U8>)
    ensures |b| == 4 && U32Of(b) == x
  {
    var b := LE16(x % TWO16) + LE16(x / TWO16);
    assert b[..2] == LE16(x % TWO16) && b[2..] == LE16(x / TWO16);
    b
  }

  function LE64(x: U64): (b: seq<U8>)
    ensures |b| == 8 && U64Of(b) == x
  {
    var b := LE32(x % TWO32) + LE32(x / TWO32);
    assert b[..4] == LE32(x % TWO32) && b[4..] == LE32(x / TWO32);
    b
  }

  lemma LE16OfU16(b: seq<U8>)
    requires |b| == 2
    ensures LE16(U16Of(b)) == b
  {
  }

  lemma LE32OfU32(b: seq<U8>)
    requires |b| == 4
    ensures LE32(U32Of(b)) == b
  {
    Halves16(U16Of(b[..2]), U16Of(b[2..]));
    LE16OfU16(b[..2]);
    LE16OfU16(b[2..]);
    assert b == b[..2] + b[2..];
  }

  lemma LE64OfU64(b: seq<U8>)
    requires |b| == 8
    ensures LE64(U64Of(b)) == b
  {
    Halves32(U32Of(b[..4]), U32Of(b[4..]));
    LE32OfU32(b[..4]);
    LE32OfU32(b[4..]);
    assert b == b[..4] + b[4..];
  }

  lemma Halves16(lo: U16, hi: U16)
    ensures (lo + hi * TWO16) % TWO16 == lo && (lo + hi * TWO16) / TWO16 == hi
  {
  }

  lemma Halves32(lo: U32, hi: U32)
    ensures (lo + hi * TWO32) % TWO32 == lo && (lo + hi * TWO32) / TWO32 == hi
  {
  }

  datatype Header = Header(variantByte: U8, slot: U64, index: U32, fecSet: U32, coding: CodingHeader)

  /** A shred with this header, and everything else from s; the coding fields only for a coding
      shred. */
  function WriteHeader(s: seq<U8>, h: Header): (r: seq<U8>)
    requires |s| >= SIZE_OF_MERKLE_CODE_HEADERS
    ensures |r| == |s|
  {
    s[..SIZE_OF_SIGNATURE] + [h.variantByte] + LE64(h.slot) + LE32(h.index) + s[VERSION_AT..FEC_SET_AT]
    + LE32(h.fecSet)
    + (if h.variantByte / 64 == 1
       then LE16(h.coding.numData) + LE16(h.coding.numCode) + LE16(h.coding.position)
       else s[SIZE_OF_COMMON_HEADER..SIZE_OF_MERKLE_CODE_HEADERS])
    + s[SIZE_OF_MERKLE_CODE_HEADERS..]
  }

  lemma WrittenSlices(s: seq<U8>, h: Header)
    requires |s| >= SIZE_OF_MERKLE_CODE_HEADERS
    ensures var r := WriteHeader(s, h);
            && r[..SIZE_OF_SIGNATURE] == s[..SIZE_OF_SIGNATURE]
            && r[SIZE_OF_SIGNATURE] == h.variantByte
            && r[SLOT_AT..INDEX_AT] == LE64(h.slot)
            && r[INDEX_AT..VERSION_AT] == LE32(h.index)
            && r[FEC_SET_AT..SIZE_OF_COMMON_HEADER] == LE32(h.fecSet)
            && r[SIZE_OF_MERKLE_CODE_HEADERS..] == s[SIZE_OF_MERKLE_CODE_HEADERS..]
    ensures h.variantByte / 64 == 1 ==>
              var r := WriteHeader(s, h);
              && r[83..85] == LE16(h.coding.numData)
              && r[85..87] == LE16(h.coding.numCode)
              && r[87..89] == LE16(h.coding.position)
  {
  }

  /** Whatever header is written into a buffer of legal size, parsing recovers it: every field, the
      variant byte up to the low nibble of a legacy variant, and nothing outside the header moves. */
  lemma LayoutRoundTrip(s: seq<U8>, h: Header)
    requires ParseVariant(h.variantByte).Ok?
    requires ValidateSize(|s|, ParseVariant(h.variantByte).value).None?
    ensures var r := ParseShred(WriteHeader(s, h));
            && r.Parsed?
            && r.value.slot == h.slot && r.value.index == h.index && r.value.fecSet == h.fecSet
            && r.value.variant == ParseVariant(h.variantByte).value
            && r.value.coding == (if r.value.variant.IsCode() then h.coding else CodingHeader(0, 0, 0))
            && r.value.signature == s[..SIZE_OF_SIGNATURE]
            && r.value.raw[SIZE_OF_MERKLE_CODE_HEADERS..] == s[SIZE_OF_MERKLE_CODE_HEADERS..]
  {
    WrittenSlices(s, h);
  }

  /** The header a parsed shred carries. */
  function HeaderOf(p: Shred): Header
    requires p.variant.code + p.variant.proofSize < TWO8
  {
    Header(p.variant.code + p.variant.proofSize, p.slot, p.index, p.fecSet, p.coding)
  }

  lemma WriteOwnFields(s: seq<U8>, variantByte: U8, coding: CodingHeader)
    requires |s| >= SIZE_OF_MERKLE_CODE_HEADERS
    requires variantByte / 64 == 1 ==> coding == CodingOf(s)
    ensures WriteHeader(s, Header(variantByte, SlotOf(s), IndexOf(s), FecSetOf(s), coding))
            == s[SIZE_OF_SIGNATURE := variantByte]
  {
    LE64OfU64(s[SLOT_AT..INDEX_AT]);
    LE32OfU32(s[INDEX_AT..VERSION_AT]);
    LE32OfU32(s[FEC_SET_AT..SIZE_OF_COMMON_HEADER]);
    LE16OfU16(s[83..85]);
    LE16OfU16(s[85..87]);
    LE16OfU16(s[87..89]);
  }

  /** Parsing loses nothing of the header but the low nibble of a legacy variant: writing back the
      parsed header reproduces the buffer exactly when the variant is not legacy or that nibble is 0. */
  lemma WriteBack(s: seq<U8>)
    requires ParseShred(s).Parsed?
    ensures var v := ParseShred(s).value.variant;
            && v.code + v.proofSize < TWO8
            && (WriteHeader(s, HeaderOf(ParseShred(s).value)) == s
                <==> !v.IsLegacy() || s[SIZE_OF_SIGNATURE] % 16 == 0)
  {
    var b := s[SIZE_OF_SIGNATURE];
    VariantByte(b);
    var p := ParseShred(s).value;
    var vb := p.variant.code + p.variant.proofSize;
    assert vb / 64 == b / 64;
    WriteOwnFields(s, vb, p.coding);
    assert s[SIZE_OF_SIGNATURE := vb] == s <==> vb == b;
  }

  // The key

  lemma SlotShift(slot: U64)
    ensures slot * TWO28 % TWO64 == slot % TWO36 * TWO28
  {
  }

  lemma IndexShift(index: U32)
    ensures index * TWO8 == index / TWO20 * TWO28 + index % TWO20 * TWO8
  {
  }

  lemma OrAbove28(h: nat, i: nat, low: nat)
    requires low < TWO28
    ensures Or(h * TWO28, i * TWO28 + low) == Or(h, i) * TWO28 + low
  {
    Pow2Values();
    OrSplit(28, h, 0, i, low);
    OrZero(low);
  }

  lemma OrByte(x: nat, code: U8)
    ensures Or(x * TWO8, code) == x * TWO8 + code
  {
    Pow2Values();
    OrSplit(8, x, 0, 0, code);
    OrZero(x);
    OrZero(code);
  }

  lemma FieldsOf(hi: nat, mid: nat, lo: nat)
    requires mid < TWO20 && lo < TWO8
    ensures var k := hi * TWO28 + mid * TWO8 + lo;
            k % TWO8 == lo && k / TWO8 % TWO20 == mid && k / TWO28 == hi
  {
    var k := hi * TWO28 + mid * TWO8 + lo;
    assert k / TWO8 == hi * TWO20 + mid;
  }

  /** The key is three fields side by side: 36 bits that mix the slot with the part of the index above
      20 bits, 20 bits of index, 8 bits of variant. */
  lemma KeyForm(slot: U64, index: U32, code: U8)
    ensures Key(slot, index, code) ==
            Or(slot % TWO36, index / TWO20) * TWO28 + index % TWO20 * TWO8 + code
  {
    SlotShift(slot);
    IndexShift(index);
    OrAbove28(slot % TWO36, index / TWO20, index % TWO20 * TWO8);
    OrByte(Or(slot % TWO36, index / TWO20) * TWO20 + index % TWO20, code);
  }

  /** Exactly which shreds share a key, for any 32-bit index. */
  lemma KeyCollisions(slot1: U64, index1: U32, code1: U8, slot2: U64, index2: U32, code2: U8)
    ensures Key(slot1, index1, code1) == Key(slot2, index2, code2) <==>
              && Or(slot1 % TWO36, index1 / TWO20) == Or(slot2 % TWO36, index2 / TWO20)
              && index1 % TWO20 == index2 % TWO20
              && code1 == code2
  {
    KeyForm(slot1, index1, code1);
    KeyForm(slot2, index2, code2);
    FieldsOf(Or(slot1 % TWO36, index1 / TWO20), index1 % TWO20, code1);
    FieldsOf(Or(slot2 % TWO36, index2 / TWO20), index2 % TWO20, code2);
  }

  /** With indices below 2^20, keys agree exactly when slots agree modulo 2^36 and the rest is equal. */
  lemma KeyPacking(slot1: U64, index1: U32, code1: U8, slot2: U64, index2: U32, code2: U8)
    requires index1 < TWO20 && index2 < TWO20
    ensures Key(slot1, index1, code1) == Key(slot2, index2, code2) <==>
              slot1 % TWO36 == slot2 % TWO36 && index1 == index2 && code1 == code2
  {
    KeyCollisions(slot1, index1, code1, slot2, index2, code2);
    OrZero(slot1 % TWO36);
    OrZero(slot2 % TWO36);
  }

  lemma SlotFieldBound(slot: nat, overflow: nat)
    requires slot < TWO36 && overflow < TWO36
    ensures Or(slot, overflow) < TWO36
  {
    Pow2Values();
    OrBound(36, slot, overflow);
  }

  /** Shifts and masks take the key apart again; they give back the slot modulo 2^36 and the index exactly
      when the index is below 2^20. */
  lemma KeyDecode(slot: U64, index: U32, code: U8)
    ensures var k := Key(slot, index, code);
            && k < TWO64
            && k % TWO8 == code
            && k / TWO8 % TWO20 == index % TWO20
            && k / TWO28 == Or(slot % TWO36, index / TWO20)
            && (k / TWO28 == slot % TWO36 && k / TWO8 % TWO20 == index <==> index < TWO20)
  {
    KeyForm(slot, index, code);
    FieldsOf(Or(slot % TWO36, index / TWO20), index % TWO20, code);
    SlotFieldBound(slot % TWO36, index / TWO20);
    OrZero(slot % TWO36);
  }

  /** The bound on the index is needed: the Firedancer path does not check it, and this index spills
      into the slot field. */
  lemma WideIndexCollides(code: U8)
    ensures Key(0, TWO20, code) == Key(1, 0, code)
  {
    KeyCollisions(0, TWO20, code, 1, 0, code);
    OrZero(1);
  }
}
