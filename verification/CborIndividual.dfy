/** Individuals written to bytes and read back: what is read is, value by value, what was
    written, up to four effects that are stated exactly. */
module CborIndividual {
  import opened Cbor
  import opened Wrappers

  type Text = seq<Byte>

  datatype Lang = NoLang | Ru | En

  datatype Value =
    | Uri(data: Text)
    | Str(data: Text, lang: Lang)
    | Integer(v: int)
    | Datetime(ms: int)
    | Decimal(mantissa: int, exponent: int)
    | Boolean(b: bool)
    | BooleanWithoutData

  datatype Property = Property(name: Text, values: seq<Value>)

  datatype Individual = Individual(uri: Text, properties: seq<Property>)

  const AT_SIGN: Text := [64]

  // ------------------------------------------------------------------- the writer

  function EncodeInteger(w: HeadWriter, v: int): seq<Byte> {
    if v > 0 then w(UNSIGNED_INTEGER, v) else w(NEGATIVE_INTEGER, -v)
  }

  function EncodeString(w: HeadWriter, s: Text): seq<Byte> {
    w(TEXT_STRING, |s|) + s
  }

  function EncodeBool(w: HeadWriter, b: bool): seq<Byte> {
    w(FLOAT_SIMPLE, if b then TRUE_VALUE else FALSE_VALUE)
  }

  /** C++ division of integers truncates. */
  function Seconds(ms: int): int {
    if ms >= 0 then ms / 1000 else -((-ms) / 1000)
  }

  function EncodeDecimal(w: HeadWriter, m: int, e: int): seq<Byte> {
    (w(TAG, DECIMAL_FRACTION) + w(ARRAY, 2)) + (EncodeInteger(w, m) + EncodeInteger(w, e))
  }

  function EncodeValue(w: HeadWriter, v: Value): seq<Byte>
  {
    match v
    case Uri(data) => w(TAG, URI) + EncodeString(w, data)
    case Str(data, NoLang) => EncodeString(w, data)
    case Str(data, Ru) => w(TAG, TEXT_RU) + EncodeString(w, data)
    case Str(data, En) => w(TAG, TEXT_EN) + EncodeString(w, data)
    case Integer(i) => EncodeInteger(w, i)
    case Datetime(ms) => w(TAG, EPOCH_DATE_TIME) + EncodeInteger(w, Seconds(ms))
    case Decimal(m, e) => EncodeDecimal(w, m, e)
    case Boolean(b) => EncodeBool(w, b)
    case BooleanWithoutData => []
  }

  function EncodeValues(w: HeadWriter, vs: seq<Value>): seq<Byte> {
    if vs == [] then [] else EncodeValue(w, vs[0]) + EncodeValues(w, vs[1..])
  }

  function EncodeProperty(w: HeadWriter, p: Property): seq<Byte> {
    EncodeString(w, p.name) + (w(ARRAY, |p.values|) + EncodeValues(w, p.values))
  }

  function EncodeProperties(w: HeadWriter, ps: seq<Property>): seq<Byte> {
    if ps == [] then [] else EncodeProperty(w, ps[0]) + EncodeProperties(w, ps[1..])
  }

  function Encode(w: HeadWriter, i: Individual): seq<Byte> {
    w(MAP, 1 + |i.properties|) + (EncodeString(w, AT_SIGN) + (EncodeString(w, i.uri) + EncodeProperties(w, i.properties)))
  }

  // ------------------------------------------------------------------- the reader

  /** A C string ends before its first zero byte. */
  function CStr(s: Text): Text {
    if s == [] || s[0] == 0 then [] else [s[0]] + CStr(s[1..])
  }

  function StringValue(tag: int, data: Text): Value {
    if tag == TEXT_RU then Str(data, Ru)
    else if tag == TEXT_EN then Str(data, En)
    else if tag == URI then Uri(data)
    else Str(data, NoLang)
  }

  /** A string of the header's length at `pos`. */
  function ReadString(src: seq<Byte>, pos: nat, length: int): Option<Text> {
    if 0 <= length && pos + length <= |src| then Some(src[pos..pos + length]) else None
  }

  /** One value: where the next one starts, the tag the header is left with, and the value,
      if the type is one the reader knows. */
  type ValueRead = Option<(nat, int, Option<Value>)>

  function DecodeDecimal(src: Source, pos: nat, h: Header): ValueRead {
    match src.head(pos, h)
    case None => None
    case Some((n, m)) =>
      match src.head(pos + n, m)
      case None => None
      case Some((k, e)) => Some((pos + n + k, e.tag, Some(Decimal(m.value, e.value))))
  }

  /** What follows a header that was read up to `pos`. */
  function DecodeContent(src: Source, pos: nat, h: Header): ValueRead {
    if h.major == TEXT_STRING then
      match ReadString(src.bytes, pos, h.value)
      case None => None
      case Some(s) => Some((pos + |s|, h.tag, Some(StringValue(h.tag, CStr(s)))))
    else if h.major == NEGATIVE_INTEGER || h.major == UNSIGNED_INTEGER then
      Some((pos, h.tag, Some(if h.tag == EPOCH_DATE_TIME then Datetime(h.value * 1000) else Integer(h.value))))
    else if h.major == FLOAT_SIMPLE then
      Some((pos, h.tag, Some(if h.value == TRUE_VALUE then Boolean(true)
                             else if h.value == FALSE_VALUE then Boolean(false) else BooleanWithoutData)))
    else if h.major == ARRAY && h.tag == DECIMAL_FRACTION then DecodeDecimal(src, pos, h)
    else Some((pos, h.tag, None))
  }

  function DecodeValue(src: Source, pos: nat, tag: int): ValueRead {
    match src.head(pos, START_HEADER.(tag := tag))
    case None => None
    case Some((n, h)) => DecodeContent(src, pos + n, h)
  }

  /** An array element is set; the places before it are holes unless they have been set. */
  function SetAt(list: seq<Option<Value>>, j: nat, v: Option<Value>): seq<Option<Value>> {
    if v.None? then list
    else if j < |list| then list[j := v]
    else list + seq(j - |list|, _ => None) + [v]
  }

  /** The elements of an array from the `j`-th on; the header, and with it the tag, is the
      same for all of them. */
  function DecodeElements(src: Source, pos: nat, tag: int, j: nat, n: int, list: seq<Option<Value>>)
    : Option<(nat, seq<Option<Value>>)>
    decreases n - j
  {
    if j >= n then Some((pos, list))
    else
      match DecodeValue(src, pos, tag)
      case None => None
      case Some((pos', tag', v)) => DecodeElements(src, pos', tag', j + 1, n, SetAt(list, j, v))
  }

  datatype PropertyRead = PropertyRead(name: Text, values: seq<Option<Value>>)

  /** The array the reader fills has one element from the start: a hole. */
  const NEW_ARRAY: seq<Option<Value>> := [None]

  function DecodeProperty(src: Source, pos: nat): Option<(nat, PropertyRead)> {
    match src.head(pos, START_HEADER)
    case None => None
    case Some((n, h)) =>
      match ReadString(src.bytes, pos + n, h.value)
      case None => None
      case Some(name) =>
        var valuePos := pos + n + |name|;
        match src.head(valuePos, h)
        case None => None
        case Some((m, g)) =>
          if g.major == ARRAY && g.tag != DECIMAL_FRACTION then
            match DecodeElements(src, valuePos + m, g.tag, 0, g.value, NEW_ARRAY)
            case None => None
            case Some((end, list)) => Some((end, PropertyRead(CStr(name), list)))
          else
            match DecodeContent(src, valuePos + m, g)
            case None => None
            case Some((end, _, v)) => Some((end, PropertyRead(CStr(name), SetAt(NEW_ARRAY, 0, v))))
  }

  function DecodeProperties(src: Source, pos: nat, i: nat, n: int): Option<(nat, seq<PropertyRead>)>
    decreases n - i
  {
    if i >= n then Some((pos, []))
    else
      match DecodeProperty(src, pos)
      case None => None
      case Some((next, p)) =>
        match DecodeProperties(src, next, i + 1, n)
        case None => None
        case Some((end, rest)) => Some((end, [p] + rest))
  }

  datatype IndividualRead = IndividualRead(uri: Text, properties: seq<PropertyRead>)

  /** Where reading ended, and the individual. */
  type Decoded = Option<(nat, IndividualRead)>

  function DecodeFrom(src: Source): Decoded {
    match src.head(0, START_HEADER)
    case None => None
    case Some((n, top)) =>
      match src.head(n, top)
      case None => None
      case Some((m, key)) =>
        match ReadString(src.bytes, n + m, key.value)
        case None => None
        case Some(at) => DecodeBody(src, n + m + |at|, key, top.value)
  }

  /** After the key `@`: the uri and `count - 1` properties. */
  function DecodeBody(src: Source, pos: nat, key: Header, count: int): Decoded {
    match src.head(pos, key)
    case None => None
    case Some((k, h)) =>
      match ReadString(src.bytes, pos + k, h.value)
      case None => None
      case Some(uri) =>
        match DecodeProperties(src, pos + k + |uri|, 1, count)
        case None => None
        case Some((end, ps)) => Some((end, IndividualRead(CStr(uri), ps)))
  }

  function Decode(bytes: seq<Byte>): Decoded {
    DecodeFrom(SourceOf(bytes))
  }

  // --------------------------------------------------------- what is read back

  /** The tag left in the header by a value. */
  function TagAfter(v: Value, tag: int): int {
    match v
    case Uri(_) => URI
    case Str(_, Ru) => TEXT_RU
    case Str(_, En) => TEXT_EN
    case Datetime(_) => EPOCH_DATE_TIME
    case Decimal(_, _) => DECIMAL_FRACTION
    case _ => tag
  }

  /** A value read after the tag `tag`. */
  function ReadAs(v: Value, tag: int): Value {
    match v
    case Uri(data) => Uri(CStr(data))
    case Str(data, _) => StringValue(TagAfter(v, tag), CStr(data))
    case Integer(i) => if tag == EPOCH_DATE_TIME then Datetime(i * 1000) else Integer(i)
    case Datetime(ms) => Datetime(Seconds(ms) * 1000)
    case _ => v
  }

  function ReadAllAs(vs: seq<Value>, tag: int): seq<Option<Value>> {
    if vs == [] then [] else [Some(ReadAs(vs[0], tag))] + ReadAllAs(vs[1..], TagAfter(vs[0], tag))
  }

  /** A property read back: an empty list comes back as a list of one hole. */
  function PropertyReadAs(p: Property): PropertyRead {
    PropertyRead(CStr(p.name), if p.values == [] then NEW_ARRAY else ReadAllAs(p.values, NONE))
  }

  function PropertiesReadAs(ps: seq<Property>): seq<PropertyRead> {
    if ps == [] then [] else [PropertyReadAs(ps[0])] + PropertiesReadAs(ps[1..])
  }

  function IndividualReadAs(i: Individual): IndividualRead {
    IndividualRead(CStr(i.uri), PropertiesReadAs(i.properties))
  }

  predicate Fits(i: int) { -INT64_LIMIT < i < INT64_LIMIT }

  /** The values the writer is given: signed 64-bit numbers other than the least one. */
  predicate Writable(v: Value) {
    match v
    case Integer(i) => Fits(i)
    case Datetime(ms) => Fits(ms)
    case Decimal(m, e) => Fits(m) && Fits(e)
    case BooleanWithoutData => false
    case _ => true
  }

  predicate AllWritable(i: Individual) {
    forall p | p in i.properties :: forall v | v in p.values :: Writable(v)
  }

  // ------------------------------------------------------------ reading what was written

  predicate HeadIs(r: HeaderRead, n: nat, value: int, tag: int) {
    r.Some? && r.value.0 == n && r.value.1.value == value && r.value.1.tag == tag
  }

  predicate IsIntegerHead(r: HeaderRead) {
    r.Some? && r.value.1.major in {UNSIGNED_INTEGER, NEGATIVE_INTEGER}
  }

  lemma IntegerRead(w: HeadWriter, src: Source, pos: nat, h: Header, v: int)
    requires Inverts(src, w) && Fits(v) && At(src.bytes, pos, EncodeInteger(w, v))
    ensures HeadIs(src.head(pos, h), |EncodeInteger(w, v)|, v, h.tag) && IsIntegerHead(src.head(pos, h))
  {
    if v > 0 {
    } else {
    }
  }

  lemma TaggedIntegerRead(w: HeadWriter, src: Source, pos: nat, h: Header, tag: int, v: int)
    requires Inverts(src, w) && Fits(v) && 0 <= tag < 256 && At(src.bytes, pos, w(TAG, tag) + EncodeInteger(w, v))
    ensures HeadIs(src.head(pos, h), |w(TAG, tag) + EncodeInteger(w, v)|, v, tag) && IsIntegerHead(src.head(pos, h))
  {
    if v > 0 {
    } else {
    }
  }

  lemma StringRead(w: HeadWriter, src: Source, pos: nat, h: Header, s: Text)
    requires Inverts(src, w) && At(src.bytes, pos, EncodeString(w, s))
    ensures var n := |EncodeString(w, s)| - |s|;
            && src.head(pos, h) == Some((n, Header(TEXT_STRING, |s|, h.tag)))
            && ReadString(src.bytes, pos + n, |s|) == Some(s)
  {
    AtSplit(src.bytes, pos, w(TEXT_STRING, |s|), s);
  }

  lemma TaggedStringRead(w: HeadWriter, src: Source, pos: nat, h: Header, tag: int, s: Text)
    requires Inverts(src, w) && 0 <= tag < 256 && At(src.bytes, pos, w(TAG, tag) + EncodeString(w, s))
    ensures var n := |w(TAG, tag) + EncodeString(w, s)| - |s|;
            && src.head(pos, h) == Some((n, Header(TEXT_STRING, |s|, tag)))
            && ReadString(src.bytes, pos + n, |s|) == Some(s)
  {
    assert w(TAG, tag) + EncodeString(w, s) == w(TAG, tag) + w(TEXT_STRING, |s|) + s;
    AtSplit(src.bytes, pos, w(TAG, tag) + w(TEXT_STRING, |s|), s);
  }

  lemma DecimalRead(w: HeadWriter, src: Source, pos: nat, h: Header, m: int, e: int)
    requires Inverts(src, w) && Fits(m) && Fits(e) && At(src.bytes, pos, EncodeInteger(w, m) + EncodeInteger(w, e))
    ensures DecodeDecimal(src, pos, h) == Some((pos + |EncodeInteger(w, m) + EncodeInteger(w, e)|, h.tag, Some(Decimal(m, e))))
  {
    AtSplit(src.bytes, pos, EncodeInteger(w, m), EncodeInteger(w, e));
    IntegerRead(w, src, pos, h, m);
    IntegerRead(w, src, pos + |EncodeInteger(w, m)|, src.head(pos, h).value.1, e);
  }

  lemma DecimalReadBack(w: HeadWriter, src: Source, pos: nat, tag: int, m: int, e: int)
    requires Inverts(src, w) && Fits(m) && Fits(e) && At(src.bytes, pos, EncodeDecimal(w, m, e))
    ensures DecodeValue(src, pos, tag) == Some((pos + |EncodeDecimal(w, m, e)|, DECIMAL_FRACTION, Some(Decimal(m, e))))
  {
    var tagged := w(TAG, DECIMAL_FRACTION) + w(ARRAY, 2);
    AtSplit(src.bytes, pos, tagged, EncodeInteger(w, m) + EncodeInteger(w, e));
    TwoRead(w, src, pos, START_HEADER.(tag := tag));
    DecimalRead(w, src, pos + |tagged|, Header(ARRAY, 2, DECIMAL_FRACTION), m, e);
  }

  lemma TwoRead(w: HeadWriter, src: Source, pos: nat, h: Header)
    requires Inverts(src, w) && At(src.bytes, pos, w(TAG, DECIMAL_FRACTION) + w(ARRAY, 2))
    ensures src.head(pos, h) == Some((|w(TAG, DECIMAL_FRACTION) + w(ARRAY, 2)|, Header(ARRAY, 2, DECIMAL_FRACTION)))
  {
  }

  lemma StringContent(w: HeadWriter, src: Source, pos: nat, tag: int, n: nat, own: int, length: int, s: Text)
    requires src.head(pos, START_HEADER.(tag := tag)) == Some((n, Header(TEXT_STRING, length, own)))
    requires ReadString(src.bytes, pos + n, length) == Some(s)
    ensures DecodeValue(src, pos, tag) == Some((pos + n + |s|, own, Some(StringValue(own, CStr(s)))))
  {
  }

  lemma StringReadBack(w: HeadWriter, src: Source, pos: nat, tag: int, data: Text)
    requires Inverts(src, w) && At(src.bytes, pos, EncodeString(w, data))
    ensures DecodeValue(src, pos, tag) == Some((pos + |EncodeString(w, data)|, tag, Some(StringValue(tag, CStr(data)))))
  {
    StringRead(w, src, pos, START_HEADER.(tag := tag), data);
    StringContent(w, src, pos, tag, |EncodeString(w, data)| - |data|, tag, |data|, data);
  }

  lemma TaggedStringReadBack(w: HeadWriter, src: Source, pos: nat, tag: int, own: int, data: Text)
    requires Inverts(src, w) && 0 <= own < 256 && At(src.bytes, pos, w(TAG, own) + EncodeString(w, data))
    ensures DecodeValue(src, pos, tag)
         == Some((pos + |w(TAG, own) + EncodeString(w, data)|, own, Some(StringValue(own, CStr(data)))))
  {
    TaggedStringRead(w, src, pos, START_HEADER.(tag := tag), own, data);
    StringContent(w, src, pos, tag, |w(TAG, own) + EncodeString(w, data)| - |data|, own, |data|, data);
  }

  lemma BooleanReadBack(w: HeadWriter, src: Source, pos: nat, tag: int, b: bool)
    requires Inverts(src, w) && At(src.bytes, pos, EncodeBool(w, b))
    ensures DecodeValue(src, pos, tag) == Some((pos + |EncodeBool(w, b)|, tag, Some(Boolean(b))))
  {
  }

  lemma IntegerReadBack(w: HeadWriter, src: Source, pos: nat, tag: int, v: int)
    requires Inverts(src, w) && Fits(v) && At(src.bytes, pos, EncodeInteger(w, v))
    ensures DecodeValue(src, pos, tag)
         == Some((pos + |EncodeInteger(w, v)|, tag, Some(if tag == EPOCH_DATE_TIME then Datetime(v * 1000) else Integer(v))))
  {
    IntegerRead(w, src, pos, START_HEADER.(tag := tag), v);
  }

  lemma DatetimeReadBack(w: HeadWriter, src: Source, pos: nat, tag: int, seconds: int)
    requires Inverts(src, w) && Fits(seconds) && At(src.bytes, pos, w(TAG, EPOCH_DATE_TIME) + EncodeInteger(w, seconds))
    ensures DecodeValue(src, pos, tag)
         == Some((pos + |w(TAG, EPOCH_DATE_TIME) + EncodeInteger(w, seconds)|, EPOCH_DATE_TIME, Some(Datetime(seconds * 1000))))
  {
    TaggedIntegerRead(w, src, pos, START_HEADER.(tag := tag), EPOCH_DATE_TIME, seconds);
  }

  lemma SecondsFit(ms: int)
    requires Fits(ms)
    ensures Fits(Seconds(ms))
  {
  }

  predicate ReadsBack(w: HeadWriter, src: Source, pos: nat, tag: int, v: Value) {
    DecodeValue(src, pos, tag) == Some((pos + |EncodeValue(w, v)|, TagAfter(v, tag), Some(ReadAs(v, tag))))
  }

  lemma TextReadBack(w: HeadWriter, src: Source, pos: nat, tag: int, v: Value)
    requires Inverts(src, w) && (v.Uri? || v.Str?) && At(src.bytes, pos, EncodeValue(w, v))
    ensures ReadsBack(w, src, pos, tag, v)
  {
    match v {
      case Uri(data) => TaggedStringReadBack(w, src, pos, tag, URI, data);
      case Str(data, NoLang) => StringReadBack(w, src, pos, tag, data);
      case Str(data, Ru) => TaggedStringReadBack(w, src, pos, tag, TEXT_RU, data);
      case Str(data, En) => TaggedStringReadBack(w, src, pos, tag, TEXT_EN, data);
    }
  }

  lemma NumberReadBack(w: HeadWriter, src: Source, pos: nat, tag: int, v: Value)
    requires Inverts(src, w) && (v.Integer? || v.Datetime?) && Writable(v) && At(src.bytes, pos, EncodeValue(w, v))
    ensures ReadsBack(w, src, pos, tag, v)
  {
    if v.Integer? {
      IntegerReadBack(w, src, pos, tag, v.v);
    } else {
      SecondsFit(v.ms);
      DatetimeReadBack(w, src, pos, tag, Seconds(v.ms));
    }
  }

  /** Any value written is read back as `ReadAs` says, and leaves the tag `TagAfter` says. */
  lemma ValueReadBack(w: HeadWriter, src: Source, pos: nat, tag: int, v: Value)
    requires Inverts(src, w) && Writable(v) && At(src.bytes, pos, EncodeValue(w, v))
    ensures ReadsBack(w, src, pos, tag, v)
  {
    match v {
      case Uri(_) => TextReadBack(w, src, pos, tag, v);
      case Str(_, _) => TextReadBack(w, src, pos, tag, v);
      case Integer(_) => NumberReadBack(w, src, pos, tag, v);
      case Datetime(_) => NumberReadBack(w, src, pos, tag, v);
      case Boolean(b) => BooleanReadBack(w, src, pos, tag, b);
      case Decimal(m, e) => DecimalReadBack(w, src, pos, tag, m, e);
    }
  }

  lemma ArrayRead(w: HeadWriter, src: Source, pos: nat, h: Header, n: nat)
    requires Inverts(src, w) && n <= |src.bytes| && At(src.bytes, pos, w(ARRAY, n))
    ensures src.head(pos, h) == Some((|w(ARRAY, n)|, Header(ARRAY, n, h.tag)))
  {
  }

  lemma ValueLength(w: HeadWriter, src: Source, v: Value)
    requires Inverts(src, w) && Writable(v)
    ensures |EncodeValue(w, v)| >= 1
  {
  }

  lemma {:induction false} ValuesLength(w: HeadWriter, src: Source, vs: seq<Value>)
    requires Inverts(src, w) && forall v | v in vs :: Writable(v)
    ensures |vs| <= |EncodeValues(w, vs)|
  {
    hide EncodeValue, Inverts;
    if vs != [] {
      ValueLength(w, src, vs[0]);
      ValuesLength(w, src, vs[1..]);
    }
  }

  lemma ElementRead(src: Source, pos: nat, tag: int, j: nat, n: int, list: seq<Option<Value>>, next: nat, tag': int,
          v: Value)
    requires j < n && DecodeValue(src, pos, tag) == Some((next, tag', Some(v)))
    ensures DecodeElements(src, pos, tag, j, n, list) == DecodeElements(src, next, tag', j + 1, n, SetAt(list, j, Some(v)))
  {
    hide DecodeValue;
  }

  lemma NothingLeft(src: Source, pos: nat, tag: int, j: nat, list: seq<Option<Value>>)
    ensures DecodeElements(src, pos, tag, j, j, list) == Some((pos, list))
  {
  }

  lemma ReadAllFrom(vs: seq<Value>, tag: int, list: seq<Option<Value>>)
    requires vs != []
    ensures list + ReadAllAs(vs, tag) == (list + [Some(ReadAs(vs[0], tag))]) + ReadAllAs(vs[1..], TagAfter(vs[0], tag))
  {
    hide ReadAs, TagAfter;
  }

  lemma SetNext(list: seq<Option<Value>>, v: Value)
    ensures SetAt(list, |list|, Some(v)) == list + [Some(v)]
  {
  }

  /** The rest of the list an array header announced. */
  lemma {:induction false} RestReadBack(w: HeadWriter, src: Source, pos: nat, tag: int, vs: seq<Value>,
          list: seq<Option<Value>>)
    requires Inverts(src, w) && At(src.bytes, pos, EncodeValues(w, vs)) && forall v | v in vs :: Writable(v)
    ensures DecodeElements(src, pos, tag, |list|, |list| + |vs|, list)
         == Some((pos + |EncodeValues(w, vs)|, list + ReadAllAs(vs, tag)))
    decreases |vs|
  {
    hide DecodeValue, EncodeValue, Inverts, ReadAs, TagAfter, DecodeElements, SetAt, At, Writable;
    if vs == [] {
      NothingLeft(src, pos, tag, |list|, list);
      assert list + ReadAllAs(vs, tag) == list;
    } else {
      var x, tag', next := ReadAs(vs[0], tag), TagAfter(vs[0], tag), pos + |EncodeValue(w, vs[0])|;
      AtSplit(src.bytes, pos, EncodeValue(w, vs[0]), EncodeValues(w, vs[1..]));
      ValueReadBack(w, src, pos, tag, vs[0]);
      ElementRead(src, pos, tag, |list|, |list| + |vs|, list, next, tag', x);
      SetNext(list, x);
      RestReadBack(w, src, next, tag', vs[1..], list + [Some(x)]);
      ReadAllFrom(vs, tag, list);
    }
  }

  /** The whole list: the hole in the new array is filled first. */
  lemma ElementsReadBack(w: HeadWriter, src: Source, pos: nat, tag: int, vs: seq<Value>)
    requires Inverts(src, w) && At(src.bytes, pos, EncodeValues(w, vs)) && forall v | v in vs :: Writable(v)
    ensures DecodeElements(src, pos, tag, 0, |vs|, NEW_ARRAY)
         == Some((pos + |EncodeValues(w, vs)|, if vs == [] then NEW_ARRAY else ReadAllAs(vs, tag)))
  {
    hide DecodeValue, EncodeValue, Inverts, ReadAs, TagAfter, DecodeElements;
    if vs == [] {
      NothingLeft(src, pos, tag, 0, NEW_ARRAY);
    } else {
      AtSplit(src.bytes, pos, EncodeValue(w, vs[0]), EncodeValues(w, vs[1..]));
      ValueReadBack(w, src, pos, tag, vs[0]);
      var x := ReadAs(vs[0], tag);
      ElementRead(src, pos, tag, 0, |vs|, NEW_ARRAY, pos + |EncodeValue(w, vs[0])|, TagAfter(vs[0], tag), x);
      assert SetAt(NEW_ARRAY, 0, Some(x)) == [Some(x)];
      RestReadBack(w, src, pos + |EncodeValue(w, vs[0])|, TagAfter(vs[0], tag), vs[1..], [Some(x)]);
    }
  }

  lemma PropertyReadBack(w: HeadWriter, src: Source, pos: nat, p: Property)
    requires Inverts(src, w) && At(src.bytes, pos, EncodeProperty(w, p)) && forall v | v in p.values :: Writable(v)
    ensures DecodeProperty(src, pos) == Some((pos + |EncodeProperty(w, p)|, PropertyReadAs(p)))
  {
    hide Inverts, EncodeValues, DecodeElements, DecodeValue, DecodeContent, ReadAllAs;
    var list := w(ARRAY, |p.values|) + EncodeValues(w, p.values);
    AtSplit(src.bytes, pos, EncodeString(w, p.name), list);
    StringRead(w, src, pos, START_HEADER, p.name);
    ListReadBack(w, src, pos + |EncodeString(w, p.name)|, Header(TEXT_STRING, |p.name|, NONE), p.values);
  }

  lemma ListReadBack(w: HeadWriter, src: Source, pos: nat, h: Header, vs: seq<Value>)
    requires Inverts(src, w) && h.tag == NONE && forall v | v in vs :: Writable(v)
    requires At(src.bytes, pos, w(ARRAY, |vs|) + EncodeValues(w, vs))
    ensures src.head(pos, h) == Some((|w(ARRAY, |vs|)|, Header(ARRAY, |vs|, NONE)))
    ensures DecodeElements(src, pos + |w(ARRAY, |vs|)|, NONE, 0, |vs|, NEW_ARRAY)
         == Some((pos + |w(ARRAY, |vs|) + EncodeValues(w, vs)|, if vs == [] then NEW_ARRAY else ReadAllAs(vs, NONE)))
  {
    hide Inverts, EncodeValue, DecodeElements, DecodeValue, ReadAllAs;
    AtSplit(src.bytes, pos, w(ARRAY, |vs|), EncodeValues(w, vs));
    ValuesLength(w, src, vs);
    ArrayRead(w, src, pos, h, |vs|);
    ElementsReadBack(w, src, pos + |w(ARRAY, |vs|)|, NONE, vs);
  }

  lemma {:induction false} PropertiesReadBack(w: HeadWriter, src: Source, pos: nat, i: nat, ps: seq<Property>)
    requires Inverts(src, w) && At(src.bytes, pos, EncodeProperties(w, ps))
    requires forall p | p in ps :: forall v | v in p.values :: Writable(v)
    ensures DecodeProperties(src, pos, i, i + |ps|) == Some((pos + |EncodeProperties(w, ps)|, PropertiesReadAs(ps)))
    decreases |ps|
  {
    hide DecodeProperty, EncodeProperty, Inverts, PropertyReadAs;
    if ps != [] {
      AtSplit(src.bytes, pos, EncodeProperty(w, ps[0]), EncodeProperties(w, ps[1..]));
      PropertyReadBack(w, src, pos, ps[0]);
      PropertiesReadBack(w, src, pos + |EncodeProperty(w, ps[0])|, i + 1, ps[1..]);
    }
  }

  lemma {:induction false} PropertiesLength(w: HeadWriter, src: Source, ps: seq<Property>)
    requires Inverts(src, w)
    ensures |ps| <= |EncodeProperties(w, ps)|
  {
    hide EncodeValues;
    if ps != [] {
      PropertiesLength(w, src, ps[1..]);
    }
  }

  /** An individual written is read back, to the last byte, as `IndividualReadAs` says. */
  lemma DecodeEncode(i: Individual)
    requires AllWritable(i) && |Encode(HEADS, i)| < INT64_LIMIT
    ensures Decode(Encode(HEADS, i)) == Some((|Encode(HEADS, i)|, IndividualReadAs(i)))
  {
    var bytes := Encode(HEADS, i);
    HeadsInvert(bytes);
    assert At(bytes, 0, bytes);
    FromReadBack(HEADS, SourceOf(bytes), i);
  }

  lemma FromReadBack(w: HeadWriter, src: Source, i: Individual)
    requires Inverts(src, w) && AllWritable(i) && At(src.bytes, 0, Encode(w, i))
    ensures DecodeFrom(src) == Some((|Encode(w, i)|, IndividualReadAs(i)))
  {
    hide Inverts, EncodeProperties, DecodeProperties, DecodeBody, IndividualReadAs;
    var count := 1 + |i.properties|;
    var body := EncodeString(w, i.uri) + EncodeProperties(w, i.properties);
    AtSplit(src.bytes, 0, w(MAP, count), EncodeString(w, AT_SIGN) + body);
    AtSplit(src.bytes, |w(MAP, count)|, EncodeString(w, AT_SIGN), body);
    PropertiesLength(w, src, i.properties);
    TopRead(w, src, count);
    StringRead(w, src, |w(MAP, count)|, Header(MAP, count, NONE), AT_SIGN);
    BodyReadBack(w, src, |w(MAP, count)| + |EncodeString(w, AT_SIGN)|, Header(TEXT_STRING, 1, NONE), i);
  }

  lemma TopRead(w: HeadWriter, src: Source, count: nat)
    requires Inverts(src, w) && count <= |src.bytes| && At(src.bytes, 0, w(MAP, count))
    ensures src.head(0, START_HEADER) == Some((|w(MAP, count)|, Header(MAP, count, NONE)))
  {
  }

  lemma BodyReadBack(w: HeadWriter, src: Source, pos: nat, key: Header, i: Individual)
    requires Inverts(src, w) && AllWritable(i) && At(src.bytes, pos, EncodeString(w, i.uri) + EncodeProperties(w, i.properties))
    ensures DecodeBody(src, pos, key, 1 + |i.properties|)
         == Some((pos + |EncodeString(w, i.uri) + EncodeProperties(w, i.properties)|, IndividualReadAs(i)))
  {
    hide Inverts, EncodeProperties, DecodeProperties, PropertiesReadAs;
    AtSplit(src.bytes, pos, EncodeString(w, i.uri), EncodeProperties(w, i.properties));
    StringRead(w, src, pos, key, i.uri);
    PropertiesReadBack(w, src, pos + |EncodeString(w, i.uri)|, 1, i.properties);
  }

  // --------------------------------------------------------- when it comes back equal

  /** Values as the reader would have to return them for the round trip to be exact. */
  function Lifted(vs: seq<Value>): seq<Option<Value>> {
    if vs == [] then [] else [Some(vs[0])] + Lifted(vs[1..])
  }

  function LiftedProperties(ps: seq<Property>): seq<PropertyRead> {
    if ps == [] then [] else [PropertyRead(ps[0].name, Lifted(ps[0].values))] + LiftedProperties(ps[1..])
  }

  function LiftedIndividual(i: Individual): IndividualRead {
    IndividualRead(i.uri, LiftedProperties(i.properties))
  }

  /** A value that survives after the tag `tag`: texts without a zero byte, whole seconds,
      no text without language after a tagged text, no integer after a date. */
  predicate Survives(v: Value, tag: int) {
    match v
    case Uri(data) => 0 !in data
    case Str(data, lang) => 0 !in data && (lang.NoLang? ==> tag !in {TEXT_RU, TEXT_EN, URI})
    case Integer(_) => tag != EPOCH_DATE_TIME
    case Datetime(ms) => ms % 1000 == 0
    case _ => true
  }

  predicate AllSurvive(vs: seq<Value>, tag: int) {
    vs == [] || (Survives(vs[0], tag) && AllSurvive(vs[1..], TagAfter(vs[0], tag)))
  }

  predicate PropertySurvives(p: Property) {
    0 !in p.name && p.values != [] && AllSurvive(p.values, NONE)
  }

  lemma {:induction false} CStrWhole(s: Text)
    ensures CStr(s) == s <==> 0 !in s
    ensures |CStr(s)| <= |s|
  {
    if s != [] {
      CStrWhole(s[1..]);
      assert s == [s[0]] + s[1..];
    }
  }

  lemma ReadAsItself(v: Value, tag: int)
    requires Writable(v)
    ensures ReadAs(v, tag) == v <==> Survives(v, tag)
  {
    if v.Uri? || v.Str? {
      CStrWhole(v.data);
    }
  }

  lemma {:induction false} ReadAllAsThemselves(vs: seq<Value>, tag: int)
    requires forall v | v in vs :: Writable(v)
    ensures ReadAllAs(vs, tag) == Lifted(vs) <==> AllSurvive(vs, tag)
  {
    if vs != [] {
      ReadAsItself(vs[0], tag);
      ReadAllAsThemselves(vs[1..], TagAfter(vs[0], tag));
      assert ReadAllAs(vs, tag)[0] == Some(ReadAs(vs[0], tag)) && Lifted(vs)[0] == Some(vs[0]);
      assert ReadAllAs(vs, tag)[1..] == ReadAllAs(vs[1..], TagAfter(vs[0], tag)) && Lifted(vs)[1..] == Lifted(vs[1..]);
    }
  }

  lemma {:induction false} PropertiesReadAsThemselves(ps: seq<Property>)
    requires forall p | p in ps :: forall v | v in p.values :: Writable(v)
    ensures PropertiesReadAs(ps) == LiftedProperties(ps) <==> forall p | p in ps :: PropertySurvives(p)
  {
    if ps != [] {
      var p := ps[0];
      PropertiesReadAsThemselves(ps[1..]);
      CStrWhole(p.name);
      ReadAllAsThemselves(p.values, NONE);
      assert ps == [p] + ps[1..];
      assert PropertiesReadAs(ps)[0] == PropertyReadAs(p) && LiftedProperties(ps)[0] == PropertyRead(p.name, Lifted(p.values));
      assert PropertiesReadAs(ps)[1..] == PropertiesReadAs(ps[1..]) && LiftedProperties(ps)[1..] == LiftedProperties(ps[1..]);
      assert PropertyReadAs(p) == PropertyRead(p.name, Lifted(p.values)) <==> PropertySurvives(p);
    }
  }

  /** Decoding the encoding of an individual gives it back, and consumes exactly the bytes
      written, if and only if its texts hold no zero byte and each list of values is not
      empty and survives the tags left behind inside it. */
  lemma RoundTrip(i: Individual)
    requires AllWritable(i) && |Encode(HEADS, i)| < INT64_LIMIT
    ensures Decode(Encode(HEADS, i)) == Some((|Encode(HEADS, i)|, LiftedIndividual(i)))
       <==> 0 !in i.uri && forall p | p in i.properties :: PropertySurvives(p)
  {
    DecodeEncode(i);
    CStrWhole(i.uri);
    PropertiesReadAsThemselves(i.properties);
  }

  /** In particular a list of values of one type and one language survives. */
  predicate Alike(v: Value, w: Value) {
    match v
    case Uri(_) => w.Uri?
    case Str(_, lang) => w.Str? && w.lang == lang
    case Integer(_) => w.Integer?
    case Datetime(_) => w.Datetime?
    case Decimal(_, _) => w.Decimal?
    case Boolean(_) => w.Boolean?
    case BooleanWithoutData => false
  }

  lemma {:induction false} AlikeSurvive(vs: seq<Value>, first: Value, tag: int)
    requires forall v | v in vs :: Alike(first, v) && Survives(v, NONE)
    requires tag == NONE || tag == TagAfter(first, NONE)
    ensures AllSurvive(vs, tag)
  {
    if vs != [] {
      assert vs[0] in vs;
      AlikeSurvive(vs[1..], first, TagAfter(vs[0], tag));
    }
  }
}
