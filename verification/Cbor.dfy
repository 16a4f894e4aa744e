/** The binary form of individuals: a writer and a reader for a CBOR-like format. The
    bytes after a header are little-endian and a negative integer is stored as its
    opposite. Type and length bits never overlap, so that `|` and `&` on header bytes are
    sums and remainders. */
module Cbor {
  import opened Wrappers

  type Byte = x: int | 0 <= x < 256

  // Major types, the high three bits of a header.
  const UNSIGNED_INTEGER: int := 0
  const NEGATIVE_INTEGER: int := 32
  const BYTE_STRING: int := 64
  const TEXT_STRING: int := 96
  const ARRAY: int := 128
  const MAP: int := 160
  const TAG: int := 192
  const FLOAT_SIMPLE: int := 224

  // Tags.
  const NONE: int := 255
  const EPOCH_DATE_TIME: int := 1
  const DECIMAL_FRACTION: int := 4
  const URI: int := 32
  const TEXT_RU: int := 42
  const TEXT_EN: int := 43

  const FALSE_VALUE: int := 20
  const TRUE_VALUE: int := 21

  const INT64_LIMIT: int := 0x8000_0000_0000_0000

  predicate IsMajorType(t: int) {
    t in {UNSIGNED_INTEGER, NEGATIVE_INTEGER, BYTE_STRING, TEXT_STRING, ARRAY, MAP, TAG, FLOAT_SIMPLE}
  }

  // ---------------------------------------------------------- little-endian numbers

  function Pow256(n: nat): nat {
    if n == 0 then 1 else 256 * Pow256(n - 1)
  }

  function LittleEndian(v: nat, n: nat): (bytes: seq<Byte>)
    ensures |bytes| == n
    decreases n
  {
    if n == 0 then [] else [v % 256] + LittleEndian(v / 256, n - 1)
  }

  function FromLittleEndian(src: seq<Byte>, pos: nat, n: nat): (v: nat)
    requires pos + n <= |src|
    ensures v < Pow256(n)
    decreases n
  {
    if n == 0 then 0 else src[pos] + 256 * FromLittleEndian(src, pos + 1, n - 1)
  }

  /** `bytes` stand in `src` at `pos`. */
  predicate At(src: seq<Byte>, pos: nat, bytes: seq<Byte>) {
    pos + |bytes| <= |src| && src[pos..pos + |bytes|] == bytes
  }

  lemma AtSplit(src: seq<Byte>, pos: nat, x: seq<Byte>, y: seq<Byte>)
    requires At(src, pos, x + y)
    ensures At(src, pos, x) && At(src, pos + |x|, y)
  {
    assert src[pos..pos + |x + y|][..|x|] == x;
    assert src[pos..pos + |x + y|][|x|..] == y;
  }

  lemma {:induction false} LittleEndianRead(src: seq<Byte>, pos: nat, v: nat, n: nat)
    requires At(src, pos, LittleEndian(v, n)) && v < Pow256(n)
    ensures FromLittleEndian(src, pos, n) == v
    decreases n
  {
    if n > 0 {
      AtSplit(src, pos, [v % 256], LittleEndian(v / 256, n - 1));
      assert src[pos] == src[pos..pos + 1][0] == v % 256;
      LittleEndianRead(src, pos + 1, v / 256, n - 1);
    }
  }

  // ---------------------------------------------------------------------- headers

  /** How many bytes of the number follow the header byte. */
  function ExtraBytes(value: nat): nat {
    if value < 24 then 0
    else if value > 0xFFFF_FFFF then 8
    else if value > 0xFFFF then 4
    else if value > 0xFF then 2
    else 1
  }

  function LengthCode(value: nat): int {
    if value < 24 then value
    else match ExtraBytes(value)
      case 8 => 27
      case 4 => 26
      case 2 => 25
      case _ => 24
  }

  /** A header: the major type and a number. */
  function Head(t: int, value: nat): (bytes: seq<Byte>)
    requires IsMajorType(t)
    ensures |bytes| == 1 + ExtraBytes(value)
  {
    [t + LengthCode(value)] + LittleEndian(value, ExtraBytes(value))
  }

  datatype Header = Header(major: int, value: int, tag: int)

  const START_HEADER := Header(UNSIGNED_INTEGER, 0, NONE)

  /** What was read: how many bytes, and the header they make of `h`. `None` stands for a
      read past the end of the buffer. */
  type HeaderRead = Option<(nat, Header)>

  /** A 64-bit pattern read as a signed number. */
  function Signed64(v: nat): int {
    if v >= INT64_LIMIT then v - 2 * INT64_LIMIT else v
  }

  /** `hh & 0xe0`. */
  function MajorOf(hh: Byte): (t: int)
    ensures IsMajorType(t) && t <= hh < t + 32
  {
    if hh < 32 then UNSIGNED_INTEGER
    else if hh < 64 then NEGATIVE_INTEGER
    else if hh < 96 then BYTE_STRING
    else if hh < 128 then TEXT_STRING
    else if hh < 160 then ARRAY
    else if hh < 192 then MAP
    else if hh < 224 then TAG
    else FLOAT_SIMPLE
  }

  /** The header byte and the number after it: how many bytes they are, the major type and
      the number. */
  function ReadNumber(src: seq<Byte>, pos: nat): (r: Option<(nat, int, int)>)
    ensures r.Some? ==> r.value.0 >= 1
  {
    if pos >= |src| then None
    else
      var code := src[pos] - MajorOf(src[pos]);
      var extra := if code > 23 then Shift(code - 24) else 0;
      if 24 <= code <= 27 && pos + 1 + extra > |src| then None
      else
        var ld := if 24 <= code <= 27 then Signed64(FromLittleEndian(src, pos + 1, extra)) else code;
        Some((1 + extra, MajorOf(src[pos]), ld))
  }

  /** `read_type_value`. A tag is kept from the header's last use unless the bytes bring a
      new one. */
  function ReadTypeValue(src: seq<Byte>, bPos: nat, ePos: int, h: Header): (r: HeaderRead)
    ensures r.Some? ==> r.value.0 >= 1
    decreases |src| - bPos
  {
    match ReadNumber(src, bPos)
    case None => None
    case Some((n, major, ld)) =>
      if major == TAG then
        match ReadTypeValue(src, bPos + n, ePos, START_HEADER)
        case None => None
        case Some((m, main)) => Some((n + m, Header(main.major, main.value, ld % 256)))
      else
        Some((n, Header(major, Adjusted(major, ld, ePos), h.tag)))
  }

  /** A negative integer is stored as its opposite; a length cannot exceed the buffer. */
  function Adjusted(major: int, ld: int, ePos: int): int {
    if major == NEGATIVE_INTEGER then -ld
    else if (major == ARRAY || major == TEXT_STRING) && ld > ePos then ePos
    else ld
  }

  /** `1 << k` for the codes above 23. */
  function Shift(k: int): nat
    requires 0 <= k < 8
  {
    if k == 0 then 1
    else if k == 1 then 2
    else if k == 2 then 4
    else if k == 3 then 8
    else if k == 4 then 16
    else if k == 5 then 32
    else if k == 6 then 64
    else 128
  }

  lemma PowersOf256()
    ensures Pow256(0) == 1 && Pow256(1) == 0x100 && Pow256(2) == 0x1_0000 && Pow256(4) == 0x1_0000_0000
    ensures Pow256(8) == 0x1_0000_0000_0000_0000
  {
    assert Pow256(3) == 0x100_0000;
    assert Pow256(4) == 256 * Pow256(3);
    assert Pow256(5) == 256 * Pow256(4);
    assert Pow256(6) == 256 * Pow256(5);
    assert Pow256(7) == 256 * Pow256(6);
    assert Pow256(8) == 256 * Pow256(7);
  }

  lemma HeadByte(t: int, code: int)
    requires IsMajorType(t) && 0 <= code < 32
    ensures MajorOf(t + code) == t
  {
  }

  lemma NumberRead(src: seq<Byte>, pos: nat, t: int, value: nat)
    requires IsMajorType(t) && value < INT64_LIMIT && At(src, pos, Head(t, value))
    ensures ReadNumber(src, pos) == Some((|Head(t, value)|, t, value))
  {
    var code, extra := LengthCode(value), ExtraBytes(value);
    AtSplit(src, pos, [t + code], LittleEndian(value, extra));
    assert src[pos] == src[pos..pos + 1][0] == t + code;
    HeadByte(t, code);
    if value >= 24 {
      LengthBytesRead(src, pos + 1, value);
      LongNumber(src, pos, t, code, extra, value);
    }
  }

  lemma LongNumber(src: seq<Byte>, pos: nat, t: int, code: int, extra: nat, value: nat)
    requires pos < |src| && MajorOf(src[pos]) == t && src[pos] == t + code && 24 <= code <= 27
    requires Shift(code - 24) == extra && pos + 1 + extra <= |src|
    requires FromLittleEndian(src, pos + 1, extra) == value < INT64_LIMIT
    ensures ReadNumber(src, pos) == Some((1 + extra, t, value))
  {
  }

  lemma LengthBytesRead(src: seq<Byte>, pos: nat, value: nat)
    requires 24 <= value < INT64_LIMIT && At(src, pos, LittleEndian(value, ExtraBytes(value)))
    ensures 24 <= LengthCode(value) <= 27 && Shift(LengthCode(value) - 24) == ExtraBytes(value)
    ensures FromLittleEndian(src, pos, ExtraBytes(value)) == value
  {
    PowersOf256();
    LittleEndianRead(src, pos, value, ExtraBytes(value));
  }

  /** A header written is read back, in every length class. */
  lemma HeadRead(src: seq<Byte>, pos: nat, ePos: int, h: Header, t: int, value: nat)
    requires IsMajorType(t) && t != TAG && value < INT64_LIMIT && At(src, pos, Head(t, value))
    requires t == ARRAY || t == TEXT_STRING ==> value <= ePos
    ensures ReadTypeValue(src, pos, ePos, h) == Some((|Head(t, value)|, Header(t, Adjusted(t, value, ePos), h.tag)))
  {
    NumberRead(src, pos, t, value);
  }

  /** A tag written before a header is read with it. */
  lemma TaggedHeadRead(src: seq<Byte>, pos: nat, ePos: int, h: Header, tag: int, t: int, value: nat)
    requires IsMajorType(t) && t != TAG && value < INT64_LIMIT && 0 <= tag < 256
    requires At(src, pos, Head(TAG, tag) + Head(t, value))
    requires t == ARRAY || t == TEXT_STRING ==> value <= ePos
    ensures ReadTypeValue(src, pos, ePos, h)
         == Some((|Head(TAG, tag)| + |Head(t, value)|, Header(t, Adjusted(t, value, ePos), tag)))
  {
    AtSplit(src, pos, Head(TAG, tag), Head(t, value));
    NumberRead(src, pos, TAG, tag);
    HeadRead(src, pos + |Head(TAG, tag)|, ePos, START_HEADER, t, value);
    TagThenHead(src, pos, ePos, h, |Head(TAG, tag)|, tag, |Head(t, value)|, Header(t, Adjusted(t, value, ePos), NONE));
  }

  lemma TagThenHead(src: seq<Byte>, pos: nat, ePos: int, h: Header, n: nat, tag: int, m: nat, main: Header)
    requires 0 <= tag < 256 && ReadNumber(src, pos) == Some((n, TAG, tag))
    requires ReadTypeValue(src, pos + n, ePos, START_HEADER) == Some((m, main))
    ensures ReadTypeValue(src, pos, ePos, h) == Some((n + m, Header(main.major, main.value, tag)))
  {
  }

  // ---------------------------------------------------------------------- formats

  /** How headers are written. */
  type HeadWriter = (int, nat) -> seq<Byte>

  /** A buffer and the way headers are read in it. */
  datatype Source = Source(bytes: seq<Byte>, head: (nat, Header) -> HeaderRead)

  function Signed(t: int, value: nat): int {
    if t == NEGATIVE_INTEGER then -(value as int) else value as int
  }

  /** A header that may stand in a buffer of `size` bytes. */
  predicate Fit(t: int, value: nat, size: nat) {
    IsMajorType(t) && t != TAG && value < INT64_LIMIT && (t == ARRAY || t == TEXT_STRING ==> value <= size)
  }

  /** Headers written by `w`, alone or after a tag, are read back from the source. This is
      all that the form of individuals needs to know about headers. */
  ghost predicate Inverts(src: Source, w: HeadWriter) {
    && |src.bytes| < INT64_LIMIT
    && (forall t: int, value: nat {:trigger w(t, value)} :: |w(t, value)| >= 1)
    && (forall pos: nat, h: Header, t: int, value: nat {:trigger At(src.bytes, pos, w(t, value)), src.head(pos, h)} ::
          Fit(t, value, |src.bytes|) && At(src.bytes, pos, w(t, value))
          ==> src.head(pos, h) == Some((|w(t, value)|, Header(t, Signed(t, value), h.tag))))
    && (forall pos: nat, h: Header, tag: nat, t: int, value: nat {:trigger At(src.bytes, pos, w(TAG, tag) + w(t, value)), src.head(pos, h)} ::
          tag < 256 && Fit(t, value, |src.bytes|) && At(src.bytes, pos, w(TAG, tag) + w(t, value))
          ==> src.head(pos, h) == Some((|w(TAG, tag)| + |w(t, value)|, Header(t, Signed(t, value), tag))))
  }

  function SourceOf(bytes: seq<Byte>): Source {
    Source(bytes, (pos, h) => ReadTypeValue(bytes, pos, |bytes|, h))
  }

  const HEADS: HeadWriter := (t, value) => if IsMajorType(t) then Head(t, value) else [0]

  /** The code's reader inverts its writer, on any buffer. */
  lemma HeadsInvert(bytes: seq<Byte>)
    requires |bytes| < INT64_LIMIT
    ensures Inverts(SourceOf(bytes), HEADS)
  {
    var src := SourceOf(bytes);
    forall pos: nat, h: Header, t: int, value: nat | Fit(t, value, |bytes|) && At(bytes, pos, HEADS(t, value))
      ensures src.head(pos, h) == Some((|HEADS(t, value)|, Header(t, Signed(t, value), h.tag)))
    {
      HeadRead(bytes, pos, |bytes|, h, t, value);
    }
    forall pos: nat, h: Header, tag: nat, t: int, value: nat
      | tag < 256 && Fit(t, value, |bytes|) && At(bytes, pos, HEADS(TAG, tag) + HEADS(t, value))
      ensures src.head(pos, h) == Some((|HEADS(TAG, tag)| + |HEADS(t, value)|, Header(t, Signed(t, value), tag)))
    {
      TaggedHeadRead(bytes, pos, |bytes|, h, tag, t, value);
    }
  }
}
