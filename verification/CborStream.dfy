/** The writer that appends to the output vector and the reader that moves a position and
    reuses one header, proved to compute the encoding and the decoding of individuals. */
module CborStream {
  import opened Cbor
  import opened CborIndividual
  import opened Wrappers

  // -------------------------------------------------------------- bytes of a number

  lemma TwoBytes(v: nat)
    ensures LittleEndian(v, 2) == [v % 0x100, v / 0x100 % 0x100]
  {
    assert LittleEndian(v / 0x100, 1) == [v / 0x100 % 0x100];
  }

  lemma ShortNumbers(v: nat)
    ensures LittleEndian(v, 0) == []
    ensures v < 0x100 ==> LittleEndian(v, 1) == [v]
    ensures v < 0x1_0000 ==> LittleEndian(v, 2) == [v % 0x100, v / 0x100]
  {
    assert LittleEndian(v, 1) == [v % 0x100] + LittleEndian(v / 0x100, 0);
    TwoBytes(v);
    hide LittleEndian;
    SmallRest(v, 0x100);
    SmallRest(v / 0x100, 0x100);
  }

  lemma SmallRest(v: nat, m: nat)
    requires m > 0
    ensures v < m ==> v % m == v
    ensures v < m * m ==> v / m < m
  {
  }

  lemma FourBytes(v: nat)
    ensures LittleEndian(v, 4) == [v % 0x100, v / 0x100 % 0x100, v / 0x1_0000 % 0x100, v / 0x100_0000 % 0x100]
  {
    TwoBytes(v / 0x1_0000);
    assert LittleEndian(v, 4) == [v % 0x100] + ([v / 0x100 % 0x100] + LittleEndian(v / 0x100 / 0x100, 2));
    assert v / 0x100 / 0x100 == v / 0x1_0000 && v / 0x1_0000 / 0x100 == v / 0x100_0000;
  }

  lemma HighHalf(v: nat)
    ensures LittleEndian(v, 8) == LittleEndian(v, 4) + LittleEndian(v / 0x1_0000_0000, 4)
  {
    var a, b, c, d := v / 0x100, v / 0x1_0000, v / 0x100_0000, v / 0x1_0000_0000;
    assert a / 0x100 == b && b / 0x100 == c && c / 0x100 == d;
    assert LittleEndian(v, 8) == [v % 0x100] + LittleEndian(a, 7);
    assert LittleEndian(a, 7) == [a % 0x100] + LittleEndian(b, 6);
    assert LittleEndian(b, 6) == [b % 0x100] + LittleEndian(c, 5);
    assert LittleEndian(c, 5) == [c % 0x100] + LittleEndian(d, 4);
    FourBytes(v);
  }

  // ------------------------------------------------------------------- the writer

  lemma {:induction false} EncodeValuesSnoc(w: HeadWriter, vs: seq<Value>, v: Value)
    ensures EncodeValues(w, vs + [v]) == EncodeValues(w, vs) + EncodeValue(w, v)
  {
    hide EncodeValue;
    if vs == [] {
      assert (vs + [v])[1..] == [];
    } else {
      EncodeValuesSnoc(w, vs[1..], v);
      assert (vs + [v])[1..] == vs[1..] + [v];
    }
  }

  lemma {:induction false} EncodePropertiesSnoc(w: HeadWriter, ps: seq<Property>, p: Property)
    ensures EncodeProperties(w, ps + [p]) == EncodeProperties(w, ps) + EncodeProperty(w, p)
  {
    hide EncodeProperty;
    if ps == [] {
      assert (ps + [p])[1..] == [];
    } else {
      EncodePropertiesSnoc(w, ps[1..], p);
      assert (ps + [p])[1..] == ps[1..] + [p];
    }
  }

  /** A header in each of the five classes of length. */
  lemma HeadBytes(t: int, value: nat)
    requires IsMajorType(t) && value < INT64_LIMIT
    ensures HEADS(t, value) ==
      if value < 24 then [t + value]
      else if value > 0xFFFF_FFFF then [t + 27] + LittleEndian(value, 4) + LittleEndian(value / 0x1_0000_0000, 4)
      else if value > 0xFFFF then [t + 26] + LittleEndian(value, 4)
      else if value > 0xFF then [t + 25] + LittleEndian(value, 2)
      else [t + 24] + [value]
  {
    hide LittleEndian;
    ShortNumbers(value);
    HighHalf(value);
  }

  lemma Appended(s: seq<Byte>, a: seq<Byte>, b: seq<Byte>, c: seq<Byte>)
    ensures s + a + b + c == s + (a + b + c)
    ensures c == [] ==> s + a + b == s + (a + b)
  {
  }

  class Writer {
    var ou: seq<Byte>

    constructor ()
      ensures ou == []
    {
      ou := [];
    }

    method PushBack(b: Byte)
      modifies this
      ensures ou == old(ou) + [b]
    {
      ou := ou + [b];
    }

    method WriteTypeValue(t: int, value: nat)
      requires IsMajorType(t) && value < INT64_LIMIT
      modifies this
      ensures ou == old(ou) + HEADS(t, value)
    {
      HeadBytes(t, value);
      hide LittleEndian, HEADS;
      if value < 24 {
        PushBack(t + value);
      } else if value > 0xFFFF_FFFF {
        PushBack(t + 27);
        PushFour(value);
        PushFour(value / 0x1_0000_0000);
        Appended(old(ou), [t + 27], LittleEndian(value, 4), LittleEndian(value / 0x1_0000_0000, 4));
      } else if value > 0xFFFF {
        PushBack(t + 26);
        PushFour(value);
        Appended(old(ou), [t + 26], LittleEndian(value, 4), []);
      } else if value > 0xFF {
        PushBack(t + 25);
        PushTwo(value);
        Appended(old(ou), [t + 25], LittleEndian(value, 2), []);
      } else {
        PushBack(t + 24);
        PushBack(value);
        Appended(old(ou), [t + 24], [value], []);
      }
    }

    method PushTwo(value: nat)
      requires value <= 0xFFFF
      modifies this
      ensures ou == old(ou) + LittleEndian(value, 2)
    {
      TwoBytes(value);
      PushBack(value % 0x100);
      PushBack(value / 0x100);
    }

    /** The low four bytes of `value`, lowest first. */
    method PushFour(value: nat)
      modifies this
      ensures ou == old(ou) + LittleEndian(value, 4)
    {
      FourBytes(value);
      PushBack(value % 0x100);
      PushBack(value / 0x100 % 0x100);
      PushBack(value / 0x1_0000 % 0x100);
      PushBack(value / 0x100_0000 % 0x100);
    }

    method WriteInteger(v: int)
      requires Fits(v)
      modifies this
      ensures ou == old(ou) + EncodeInteger(HEADS, v)
    {
      if v > 0 {
        WriteTypeValue(UNSIGNED_INTEGER, v);
      } else {
        WriteTypeValue(NEGATIVE_INTEGER, -v);
      }
    }

    method WriteString(s: Text)
      requires |s| < INT64_LIMIT
      modifies this
      ensures ou == old(ou) + EncodeString(HEADS, s)
    {
      WriteTypeValue(TEXT_STRING, |s|);
      ou := ou + s;
    }

    method WriteBool(b: bool)
      modifies this
      ensures ou == old(ou) + EncodeBool(HEADS, b)
    {
      if b {
        WriteTypeValue(FLOAT_SIMPLE, TRUE_VALUE);
      } else {
        WriteTypeValue(FLOAT_SIMPLE, FALSE_VALUE);
      }
    }

    method WriteDecimal(m: int, e: int)
      requires Fits(m) && Fits(e)
      modifies this
      ensures ou == old(ou) + EncodeDecimal(HEADS, m, e)
    {
      hide Head;
      WriteTypeValue(TAG, DECIMAL_FRACTION);
      WriteTypeValue(ARRAY, 2);
      WriteInteger(m);
      WriteInteger(e);
    }

    method WriteTagged(tag: nat, s: Text)
      requires |s| < INT64_LIMIT && tag < 256
      modifies this
      ensures ou == old(ou) + (HEADS(TAG, tag) + EncodeString(HEADS, s))
    {
      hide Head, EncodeString;
      WriteTypeValue(TAG, tag);
      WriteString(s);
    }

    method WriteElement(v: Value)
      requires Writable(v) && (v.Uri? || v.Str? ==> |v.data| < INT64_LIMIT)
      modifies this
      ensures ou == old(ou) + EncodeValue(HEADS, v)
    {
      hide Head, EncodeString, EncodeInteger, EncodeBool, EncodeDecimal;
      match v {
        case Uri(data) => WriteTagged(URI, data);
        case Boolean(b) => WriteBool(b);
        case Datetime(ms) =>
          SecondsFit(ms);
          WriteTypeValue(TAG, EPOCH_DATE_TIME);
          WriteInteger(Seconds(ms));
        case Integer(i) => WriteInteger(i);
        case Decimal(m, e) => WriteDecimal(m, e);
        case Str(data, lang) =>
          if lang == Ru {
            WriteTagged(TEXT_RU, data);
          } else if lang == En {
            WriteTagged(TEXT_EN, data);
          } else {
            WriteString(data);
          }
      }
    }

    method WriteProperty(p: Property)
      requires ShortProperty(p) && forall v | v in p.values :: Writable(v)
      modifies this
      ensures ou == old(ou) + EncodeProperty(HEADS, p)
    {
      hide Head, EncodeString, EncodeValue;
      WriteString(p.name);
      WriteTypeValue(ARRAY, |p.values|);
      ghost var start := ou;
      for j := 0 to |p.values|
        invariant ou == start + EncodeValues(HEADS, p.values[..j])
      {
        WriteElement(p.values[j]);
        EncodeValuesSnoc(HEADS, p.values[..j], p.values[j]);
        assert p.values[..j + 1] == p.values[..j] + [p.values[j]];
      }
      assert p.values[..|p.values|] == p.values;
    }

    /** `jsobject2cbor`, on an individual whose `@` comes first. */
    method WriteIndividual(i: Individual)
      requires AllWritable(i) && |i.uri| < INT64_LIMIT && 1 + |i.properties| < INT64_LIMIT
      requires forall p | p in i.properties :: ShortProperty(p)
      modifies this
      ensures ou == old(ou) + Encode(HEADS, i)
    {
      hide Head, EncodeString, EncodeProperty;
      WriteTypeValue(MAP, 1 + |i.properties|);
      WriteString(AT_SIGN);
      WriteString(i.uri);
      ghost var start := ou;
      for k := 0 to |i.properties|
        invariant ou == start + EncodeProperties(HEADS, i.properties[..k])
      {
        WriteProperty(i.properties[k]);
        EncodePropertiesSnoc(HEADS, i.properties[..k], i.properties[k]);
        assert i.properties[..k + 1] == i.properties[..k] + [i.properties[k]];
      }
      assert i.properties[..|i.properties|] == i.properties;
    }
  }

  /** Lengths are 64-bit numbers. */
  predicate ShortProperty(p: Property) {
    && |p.name| < INT64_LIMIT && |p.values| < INT64_LIMIT
    && forall v | v in p.values :: v.Uri? || v.Str? ==> |v.data| < INT64_LIMIT
  }

  // ------------------------------------------------------------------- the reader

  class Reader {
    const src: seq<Byte>
    var pos: nat

    constructor (bytes: seq<Byte>)
      ensures src == bytes && pos == 0
    {
      src := bytes;
      pos := 0;
    }

    /** The number in the `extra` bytes at `from`, lowest byte first. */
    method NumberAt(from: nat, extra: nat) returns (v: nat)
      requires from + extra <= |src|
      ensures v == FromLittleEndian(src, from, extra)
    {
      v := 0;
      var k: nat := extra;
      while k > 0
        invariant k <= extra
        invariant v == FromLittleEndian(src, from + k, extra - k)
      {
        k := k - 1;
        v := src[from + k] + 256 * v;
      }
    }

    /** The first byte and the number after it. */
    method ReadNumberAt(bPos: nat) returns (r: Option<(nat, int, int)>)
      ensures r == ReadNumber(src, bPos)
      ensures r.Some? ==> bPos < |src|
    {
      hide FromLittleEndian, Shift;
      if bPos >= |src| {
        return None;
      }
      var major := MajorOf(src[bPos]);
      var ld: int := src[bPos] - major;
      var dPos := 1;
      if ld > 23 {
        dPos := 1 + Shift(ld - 24);
        if ld <= 27 {
          if bPos + dPos > |src| {
            return None;
          }
          var v := NumberAt(bPos + 1, dPos - 1);
          ld := Signed64(v);
        }
      }
      return Some((dPos, major, ld));
    }

    /** `read_type_value`. */
    method ReadTypeValueAt(bPos: nat, h: Header) returns (r: HeaderRead)
      ensures r == ReadTypeValue(src, bPos, |src|, h)
      decreases |src| - bPos
    {
      hide ReadNumber;
      var number := ReadNumberAt(bPos);
      if number.None? {
        return None;
      }
      var (dPos, major, ld) := number.value;
      if major == TAG {
        var main := ReadTypeValueAt(bPos + dPos, START_HEADER);
        if main.None? {
          return None;
        }
        return Some((dPos + main.value.0, Header(main.value.1.major, main.value.1.value, ld % 256)));
      }
      if major == NEGATIVE_INTEGER {
        ld := -ld;
      } else if (major == ARRAY || major == TEXT_STRING) && ld > |src| {
        ld := |src|;
      }
      return Some((dPos, Header(major, ld, h.tag)));
    }

    /** A header read into `h`, after which `pos` stands behind it. */
    method ReadHeader(h: Header) returns (g: Option<Header>)
      modifies this
      ensures var r := SourceOf(src).head(old(pos), h);
              if r.None? then g == None else g == Some(r.value.1) && pos == old(pos) + r.value.0
    {
      var r := ReadTypeValueAt(pos, h);
      if r.None? {
        return None;
      }
      pos := pos + r.value.0;
      return Some(r.value.1);
    }

    method ReadText(h: Header) returns (s: Option<Text>)
      modifies this
      ensures s == ReadString(src, old(pos), h.value)
      ensures s.Some? ==> pos == old(pos) + |s.value|
    {
      if 0 <= h.value && pos + h.value <= |src| {
        s := Some(src[pos..pos + h.value]);
        pos := pos + h.value;
      } else {
        s := None;
      }
    }

    /** What follows the header `h`: the tag the header is left with, and the value. */
    method ReadContent(h: Header) returns (r: Option<(int, Option<Value>)>)
      modifies this
      ensures Follows(r, pos, DecodeContent(SourceOf(src), old(pos), h))
    {
      if h.major == TEXT_STRING {
        var s := ReadText(h);
        if s.None? {
          return None;
        }
        return Some((h.tag, Some(StringValue(h.tag, CStr(s.value)))));
      } else if h.major == NEGATIVE_INTEGER || h.major == UNSIGNED_INTEGER {
        return Some((h.tag, Some(if h.tag == EPOCH_DATE_TIME then Datetime(h.value * 1000) else Integer(h.value))));
      } else if h.major == FLOAT_SIMPLE {
        return Some((h.tag, Some(if h.value == TRUE_VALUE then Boolean(true)
                                 else if h.value == FALSE_VALUE then Boolean(false) else BooleanWithoutData)));
      } else if h.major == ARRAY && h.tag == DECIMAL_FRACTION {
        var m := ReadHeader(h);
        if m.None? {
          return None;
        }
        var e := ReadHeader(m.value);
        if e.None? {
          return None;
        }
        return Some((e.value.tag, Some(Decimal(m.value.value, e.value.value))));
      }
      return Some((h.tag, None));
    }

    /** The elements of an array, set into a list that starts with one hole. */
    method ReadElements(h: Header) returns (list: Option<seq<Option<Value>>>)
      modifies this
      ensures var d := DecodeElements(SourceOf(src), old(pos), h.tag, 0, h.value, NEW_ARRAY);
              if d.None? then list == None else list == Some(d.value.1) && pos == d.value.0
    {
      hide DecodeContent;
      var elements := NEW_ARRAY;
      var tag := h.tag;
      var j := 0;
      ghost var all := DecodeElements(SourceOf(src), pos, h.tag, 0, h.value, NEW_ARRAY);
      while j < h.value
        invariant j >= 0 && DecodeElements(SourceOf(src), pos, tag, j, h.value, elements) == all
      {
        var g := ReadHeader(START_HEADER.(tag := tag));
        if g.None? {
          return None;
        }
        var r := ReadContent(g.value);
        if r.None? {
          return None;
        }
        tag := r.value.0;
        elements := SetAt(elements, j, r.value.1);
        j := j + 1;
      }
      return Some(elements);
    }

    method ReadProperty() returns (p: Option<PropertyRead>)
      modifies this
      ensures var d := DecodeProperty(SourceOf(src), old(pos));
              if d.None? then p == None else p == Some(d.value.1) && pos == d.value.0
    {
      hide DecodeContent, DecodeElements, ReadTypeValue, CStr, SetAt;
      var h := ReadHeader(START_HEADER);
      if h.None? {
        return None;
      }
      var name := ReadText(h.value);
      if name.None? {
        return None;
      }
      var g := ReadHeader(h.value);
      if g.None? {
        return None;
      }
      if g.value.major == ARRAY && g.value.tag != DECIMAL_FRACTION {
        var list := ReadElements(g.value);
        if list.None? {
          return None;
        }
        return Some(PropertyRead(CStr(name.value), list.value));
      }
      var r := ReadContent(g.value);
      if r.None? {
        return None;
      }
      return Some(PropertyRead(CStr(name.value), SetAt(NEW_ARRAY, 0, r.value.1)));
    }

    /** `cbor2jsobject`. */
    method ReadIndividual() returns (i: Option<IndividualRead>)
      requires pos == 0
      modifies this
      ensures var d := Decode(src);
              if d.None? then i == None else i == Some(d.value.1) && pos == d.value.0
    {
      hide DecodeBody, ReadTypeValue;
      var top := ReadHeader(START_HEADER);
      if top.None? {
        return None;
      }
      var key := ReadHeader(top.value);
      if key.None? {
        return None;
      }
      var at := ReadText(key.value);
      if at.None? {
        return None;
      }
      i := ReadBody(key.value, top.value.value);
    }

    /** After the key `@`: the uri and the properties. */
    method ReadBody(key: Header, count: int) returns (i: Option<IndividualRead>)
      modifies this
      ensures var d := DecodeBody(SourceOf(src), old(pos), key, count);
              if d.None? then i == None else i == Some(d.value.1) && pos == d.value.0
    {
      hide DecodeProperties, ReadTypeValue;
      var h := ReadHeader(key);
      if h.None? {
        return None;
      }
      var uri := ReadText(h.value);
      if uri.None? {
        return None;
      }
      var ps := ReadProperties(count);
      if ps.None? {
        return None;
      }
      return Some(IndividualRead(CStr(uri.value), ps.value));
    }

    method ReadProperties(count: int) returns (ps: Option<seq<PropertyRead>>)
      modifies this
      ensures var d := DecodeProperties(SourceOf(src), old(pos), 1, count);
              if d.None? then ps == None else ps == Some(d.value.1) && pos == d.value.0
    {
      hide DecodeProperty;
      var properties: seq<PropertyRead> := [];
      ghost var all := DecodeProperties(SourceOf(src), pos, 1, count);
      var i := 1;
      assert all.Some? ==> [] + all.value.1 == all.value.1;
      while i < count
        invariant i >= 1
        invariant var rest := DecodeProperties(SourceOf(src), pos, i, count);
                  if rest.None? then all == None else all == Some((rest.value.0, properties + rest.value.1))
      {
        var p := ReadProperty();
        if p.None? {
          return None;
        }
        ghost var rest := DecodeProperties(SourceOf(src), pos, i + 1, count);
        assert rest.Some? ==> properties + ([p.value] + rest.value.1) == properties + [p.value] + rest.value.1;
        properties := properties + [p.value];
        i := i + 1;
      }
      assert properties + [] == properties;
      return Some(properties);
    }
  }

  ghost predicate Follows(r: Option<(int, Option<Value>)>, pos: nat, d: ValueRead) {
    if d.None? then r == None else r == Some((d.value.1, d.value.2)) && pos == d.value.0
  }

  /** Writing and reading back, with the code's own objects: the bytes are read to their end. */
  method WriteThenRead(i: Individual) returns (read: Option<IndividualRead>)
    requires AllWritable(i) && |Encode(HEADS, i)| < INT64_LIMIT
    requires |i.uri| < INT64_LIMIT && 1 + |i.properties| < INT64_LIMIT && forall p | p in i.properties :: ShortProperty(p)
    ensures read == Some(IndividualReadAs(i))
    ensures read == Some(LiftedIndividual(i)) <==> 0 !in i.uri && forall p | p in i.properties :: PropertySurvives(p)
  {
    var writer := new Writer();
    writer.WriteIndividual(i);
    assert writer.ou == Encode(HEADS, i);
    var reader := new Reader(writer.ou);
    read := reader.ReadIndividual();
    DecodeEncode(i);
    RoundTrip(i);
  }
}
