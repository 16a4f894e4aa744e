/** The bytes of individuals in numbers: what sections 2.1, 2.3 and 2.4 of RFC 7049 call major
    types, simple values and tags, with the two ways in which this format differs: the bytes
    after a header come lowest first, and a negative integer is stored as its opposite. The
    writer and the reader of the other modules are shown to write and to read these bytes. */
module CborFormat {
  import opened Cbor
  import opened CborIndividual
  import opened CborStream
  import opened Wrappers

  /** An item of a major type from 0 to 7 with the number `n`. */
  function Item(major: nat, n: nat): seq<Byte>
    requires major < 8 && n < 0x8000_0000_0000_0000
  {
    var h := 32 * major;
    if n < 24 then [h + n]
    else if n < 0x100 then [h + 24, n]
    else if n < 0x1_0000 then [h + 25, n % 0x100, n / 0x100]
    else if n < 0x1_0000_0000 then [h + 26, n % 0x100, n / 0x100 % 0x100, n / 0x1_0000 % 0x100, n / 0x100_0000]
    else
      [h + 27, n % 0x100, n / 0x100 % 0x100, n / 0x1_0000 % 0x100, n / 0x100_0000 % 0x100]
      + [n / 0x1_0000_0000 % 0x100, n / 0x100_0000_0000 % 0x100, n / 0x1_0000_0000_0000 % 0x100, n / 0x100_0000_0000_0000]
  }

  /** A number above zero is of type 0, any other of type 1: zero is the byte 0x20. */
  function IntegerItem(i: int): seq<Byte>
    requires Fits(i)
  {
    if i > 0 then Item(0, i) else Item(1, -i)
  }

  function TextItem(s: Text): seq<Byte>
    requires |s| < 0x8000_0000_0000_0000
  {
    Item(3, |s|) + s
  }

  predicate ShortValue(v: Value) {
    v.Uri? || v.Str? ==> |v.data| < 0x8000_0000_0000_0000
  }

  /** The tags are 1 for a time, 4 for a decimal fraction, 32 for a uri, 42 and 43 for texts in
      Russian and in English; the simple values 20 and 21 are false and true. */
  function ValueItem(v: Value): seq<Byte>
    requires Writable(v) && ShortValue(v)
  {
    match v
    case Uri(data) => [0xD8, 32] + TextItem(data)
    case Str(data, NoLang) => TextItem(data)
    case Str(data, Ru) => [0xD8, 42] + TextItem(data)
    case Str(data, En) => [0xD8, 43] + TextItem(data)
    case Integer(i) => IntegerItem(i)
    case Datetime(ms) => [0xC1] + IntegerItem(if ms >= 0 then ms / 1000 else -((-ms) / 1000))
    case Decimal(m, e) => [0xC4, 0x82] + (IntegerItem(m) + IntegerItem(e))
    case Boolean(b) => if b then [0xF5] else [0xF4]
  }

  function ValueItems(vs: seq<Value>): seq<Byte>
    requires forall v | v in vs :: Writable(v) && ShortValue(v)
  {
    if vs == [] then [] else ValueItem(vs[0]) + ValueItems(vs[1..])
  }

  predicate Formattable(p: Property) {
    ShortProperty(p) && forall v | v in p.values :: Writable(v)
  }

  function PropertyItem(p: Property): seq<Byte>
    requires Formattable(p)
  {
    TextItem(p.name) + (Item(4, |p.values|) + ValueItems(p.values))
  }

  function PropertyItems(ps: seq<Property>): seq<Byte>
    requires forall p | p in ps :: Formattable(p)
  {
    if ps == [] then [] else PropertyItem(ps[0]) + PropertyItems(ps[1..])
  }

  /** A map whose first key is the text `@`, the bytes 0x61 and 0x40. */
  function IndividualItem(i: Individual): seq<Byte>
    requires |i.uri| < 0x8000_0000_0000_0000 && 1 + |i.properties| < 0x8000_0000_0000_0000
    requires forall p | p in i.properties :: Formattable(p)
  {
    Item(5, 1 + |i.properties|) + ([0x61, 0x40] + (TextItem(i.uri) + PropertyItems(i.properties)))
  }

  // ------------------------------------------------------------------ what is written

  lemma EightBytes(n: nat)
    requires n < 0x8000_0000_0000_0000
    ensures LittleEndian(n, 4) + LittleEndian(n / 0x1_0000_0000, 4)
         == [n % 0x100, n / 0x100 % 0x100, n / 0x1_0000 % 0x100, n / 0x100_0000 % 0x100]
            + [n / 0x1_0000_0000 % 0x100, n / 0x100_0000_0000 % 0x100, n / 0x1_0000_0000_0000 % 0x100,
               n / 0x100_0000_0000_0000]
  {
    hide LittleEndian;
    var m := n / 0x1_0000_0000;
    UpperHalf(n);
    Below(m / 0x100_0000);
    FourBytes(n);
    FourBytes(m);
  }

  lemma UpperHalf(n: nat)
    ensures n / 0x1_0000_0000 / 0x100 == n / 0x100_0000_0000
    ensures n / 0x1_0000_0000 / 0x1_0000 == n / 0x1_0000_0000_0000
    ensures n / 0x1_0000_0000 / 0x100_0000 == n / 0x100_0000_0000_0000
  {
  }

  lemma Below(n: nat)
    requires n < 0x100
    ensures n % 0x100 == n
  {
  }

  lemma HeadIsItem(major: nat, n: nat)
    requires major < 8 && n < 0x8000_0000_0000_0000
    ensures HEADS(32 * major, n) == Item(major, n)
  {
    hide HEADS, LittleEndian;
    HeadBytes(32 * major, n);
    if n >= 0x1_0000_0000 {
      EightBytes(n);
      Appended([32 * major + 27], LittleEndian(n, 4), LittleEndian(n / 0x1_0000_0000, 4), []);
    } else {
      FourBytes(n);
      TwoBytes(n);
      Below(n / 0x100_0000);
      if n < 0x1_0000 {
        Below(n / 0x100);
      }
    }
  }

  lemma IntegerIsItem(i: int)
    requires Fits(i)
    ensures EncodeInteger(HEADS, i) == IntegerItem(i)
  {
    HeadIsItem(0, if i > 0 then i else 0);
    HeadIsItem(1, if i > 0 then 0 else -i);
    hide HEADS, Item;
  }

  lemma TextIsItem(s: Text)
    requires |s| < 0x8000_0000_0000_0000
    ensures EncodeString(HEADS, s) == TextItem(s)
  {
    HeadIsItem(3, |s|);
    hide HEADS, Item;
  }

  /** The bytes of every value, in numbers. */
  lemma ValueIsItem(v: Value)
    requires Writable(v) && ShortValue(v)
    ensures EncodeValue(HEADS, v) == ValueItem(v)
  {
    HeadIsItem(6, 1);
    HeadIsItem(6, 4);
    HeadIsItem(6, 32);
    HeadIsItem(6, 42);
    HeadIsItem(6, 43);
    HeadIsItem(7, 20);
    HeadIsItem(7, 21);
    HeadIsItem(4, 2);
    assert Item(6, 1) == [0xC1] && Item(6, 4) + Item(4, 2) == [0xC4, 0x82] && Item(7, 20) == [0xF4] && Item(7, 21) == [0xF5];
    assert Item(6, 32) == [0xD8, 32] && Item(6, 42) == [0xD8, 42] && Item(6, 43) == [0xD8, 43];
    hide HEADS, Item, EncodeInteger, EncodeString, IntegerItem, TextItem;
    match v {
      case Uri(data) => TextIsItem(data);
      case Str(data, _) => TextIsItem(data);
      case Integer(i) => IntegerIsItem(i);
      case Datetime(ms) => IntegerIsItem(Seconds(ms));
      case Decimal(m, e) =>
        IntegerIsItem(m);
        IntegerIsItem(e);
      case Boolean(_) =>
    }
  }

  lemma {:induction false} ValuesAreItems(vs: seq<Value>)
    requires forall v | v in vs :: Writable(v) && ShortValue(v)
    ensures EncodeValues(HEADS, vs) == ValueItems(vs)
  {
    hide HEADS, EncodeValue, ValueItem;
    if vs != [] {
      ValueIsItem(vs[0]);
      ValuesAreItems(vs[1..]);
    }
  }

  lemma PropertyIsItem(p: Property)
    requires Formattable(p)
    ensures EncodeProperty(HEADS, p) == PropertyItem(p)
  {
    TextIsItem(p.name);
    HeadIsItem(4, |p.values|);
    ValuesAreItems(p.values);
    hide HEADS, Item, EncodeString, TextItem, EncodeValues, ValueItems;
  }

  lemma {:induction false} PropertiesAreItems(ps: seq<Property>)
    requires forall p | p in ps :: Formattable(p)
    ensures EncodeProperties(HEADS, ps) == PropertyItems(ps)
  {
    hide HEADS, EncodeProperty, PropertyItem;
    if ps != [] {
      PropertyIsItem(ps[0]);
      PropertiesAreItems(ps[1..]);
    }
  }

  /** What is written for an individual, byte by byte. */
  lemma IndividualIsItem(i: Individual)
    requires |i.uri| < 0x8000_0000_0000_0000 && 1 + |i.properties| < 0x8000_0000_0000_0000
    requires forall p | p in i.properties :: Formattable(p)
    ensures Encode(HEADS, i) == IndividualItem(i)
  {
    HeadIsItem(5, 1 + |i.properties|);
    TextIsItem([0x40]);
    assert TextItem([0x40]) == [0x61, 0x40];
    TextIsItem(i.uri);
    PropertiesAreItems(i.properties);
    hide HEADS, Item, EncodeString, TextItem, EncodeProperties, PropertyItems;
  }

  // --------------------------------------------------------------------- what is read

  /** What the tag in force makes of a value: a text after the tags 42, 43 and 32 is Russian,
      English or a uri, a number after the tag 1 a time in seconds. */
  function Meant(v: Value, tag: int): Value {
    match v
    case Uri(data) => Uri(CStr(data))
    case Str(data, Ru) => Str(CStr(data), Ru)
    case Str(data, En) => Str(CStr(data), En)
    case Str(data, NoLang) =>
      if tag == 42 then Str(CStr(data), Ru) else if tag == 43 then Str(CStr(data), En)
      else if tag == 32 then Uri(CStr(data)) else Str(CStr(data), NoLang)
    case Integer(i) => if tag == 1 then Datetime(1000 * i) else v
    case Datetime(ms) => Datetime(if ms >= 0 then ms / 1000 * 1000 else -((-ms) / 1000 * 1000))
    case _ => v
  }

  /** The reader takes these bytes, wherever they stand in a buffer, for the value that the tag
      in force makes of it. */
  lemma ItemIsRead(bytes: seq<Byte>, pos: nat, tag: int, v: Value)
    requires |bytes| < 0x8000_0000_0000_0000 && Writable(v) && ShortValue(v) && At(bytes, pos, ValueItem(v))
    ensures var r := DecodeValue(SourceOf(bytes), pos, tag);
            && r.Some? && r.value.0 == pos + |ValueItem(v)| && r.value.2 == Some(Meant(v, tag))
            && r.value.1 == match v { case Uri(_) => 32 case Str(_, Ru) => 42 case Str(_, En) => 43
                                      case Datetime(_) => 1 case Decimal(_, _) => 4 case _ => tag }
  {
    ValueIsItem(v);
    HeadsInvert(bytes);
    hide HEADS, ValueItem, EncodeValue, At, DecodeValue, SourceOf, Inverts, Writable, ReadAs, TagAfter, Meant;
    ValueReadBack(HEADS, SourceOf(bytes), pos, tag, v);
    MeantIs(v, tag);
  }

  lemma MeantIs(v: Value, tag: int)
    requires Writable(v)
    ensures ReadAs(v, tag) == Meant(v, tag)
    ensures TagAfter(v, tag) == match v { case Uri(_) => 32 case Str(_, Ru) => 42 case Str(_, En) => 43
                                          case Datetime(_) => 1 case Decimal(_, _) => 4 case _ => tag }
  {
    hide CStr;
  }

  /** The two bytes for the truth values are read as what they are. */
  lemma TruthIsRead(tag: int)
    ensures DecodeValue(SourceOf([0xF5]), 0, tag) == Some((1, tag, Some(Boolean(true))))
    ensures DecodeValue(SourceOf([0xF4]), 0, tag) == Some((1, tag, Some(Boolean(false))))
  {
    ItemIsRead([0xF5], 0, tag, Boolean(true));
    ItemIsRead([0xF4], 0, tag, Boolean(false));
    hide DecodeValue;
  }

  /** An individual is written as these bytes, and these bytes are read as the individual, up
      to the effects of its tags, by the writer and the reader that work in place. */
  method WriteFormatted(i: Individual) returns (bytes: seq<Byte>, read: Option<IndividualRead>)
    requires |i.uri| < 0x8000_0000_0000_0000 && 1 + |i.properties| < 0x8000_0000_0000_0000
    requires (forall p | p in i.properties :: Formattable(p)) && |IndividualItem(i)| < 0x8000_0000_0000_0000
    ensures bytes == IndividualItem(i) && read == Some(IndividualReadAs(i))
  {
    hide HEADS, Encode, IndividualItem, IndividualReadAs, Decode;
    IndividualIsItem(i);
    var writer := new Writer();
    writer.WriteIndividual(i);
    bytes := writer.ou;
    assert bytes == Encode(HEADS, i);
    var reader := new Reader(bytes);
    read := reader.ReadIndividual();
    DecodeEncode(i);
  }
}
