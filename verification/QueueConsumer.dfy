/** The consumer of a queue: it reads the records of a part one after the other, checks them
    and keeps its place in a small text file that it overwrites in place. */
module QueueConsumer {
  import opened Cbor
  import opened Text
  import opened Wrappers
  import Decimal

  type Bytes = seq<Byte>

  const HEADER_LENGTH: nat := 25
  const U32: int := 0x1_0000_0000
  const U64: int := 0x1_0000_0000_0000_0000

  // ------------------------------------------------------------------ records and parts

  datatype Record = Record(magic: Bytes, count: nat, kind: Byte, body: Bytes)

  predicate WellFormed(r: Record) {
    |r.magic| == 4 && r.count < U32 && |r.body| < U32
  }

  /** The checksum, the four bytes in the order in which a header holds them. */
  type Checksum = Bytes -> Bytes

  ghost predicate IsChecksum(crc: Checksum) {
    forall b :: |crc(b)| == 4
  }

  function RecordHead(r: Record, start: nat, crc: Bytes): Bytes {
    LittleEndian(start, 8) + (LittleEndian(|r.body|, 4) + (r.magic + (LittleEndian(r.count, 4) + ([r.kind] + crc))))
  }

  const BLANK: Bytes := [0, 0, 0, 0]

  function Sealed(crc: Checksum, r: Record, start: nat): Bytes {
    RecordHead(r, start, crc(RecordHead(r, start, BLANK) + r.body)) + r.body
  }

  /** The file of a part whose records are `rs`, from the offset `start` on. */
  function PartFrom(crc: Checksum, rs: seq<Record>, start: nat): Bytes {
    if rs == [] then [] else Sealed(crc, rs[0], start) + PartFrom(crc, rs[1..], start + HEADER_LENGTH + |rs[0].body|)
  }

  /** Where the record `k` starts. */
  function Offset(rs: seq<Record>, k: nat): nat
    requires k <= |rs|
  {
    if k == 0 then 0 else Offset(rs, k - 1) + HEADER_LENGTH + |rs[k - 1].body|
  }

  // -------------------------------------------------------------------------- reading

  datatype RecordHeader = RecordHeader(startPos: nat, msgLength: nat, countPushed: nat, kind: Byte, crc: Bytes)

  const NO_HEADER := RecordHeader(0, 0, 0, 0, BLANK)

  function HeaderOf(b: Bytes): (h: RecordHeader)
    requires |b| == HEADER_LENGTH
    ensures |h.crc| == 4
  {
    RecordHeader(FromLittleEndian(b, 0, 8), FromLittleEndian(b, 8, 4), FromLittleEndian(b, 16, 4), b[20], b[21..])
  }

  lemma HeadParts(b: Bytes, r: Record, start: nat, crc: Bytes)
    requires WellFormed(r) && |crc| == 4 && b == RecordHead(r, start, crc)
    ensures |b| == HEADER_LENGTH
    ensures At(b, 0, LittleEndian(start, 8)) && At(b, 8, LittleEndian(|r.body|, 4)) && At(b, 16, LittleEndian(r.count, 4))
    ensures b[20] == r.kind && b[21..] == crc && b[..21] == RecordHead(r, start, BLANK)[..21]
  {
    hide LittleEndian;
    var tail := LittleEndian(r.count, 4) + ([r.kind] + crc);
    assert b[0..] == b;
    AtSplit(b, 0, LittleEndian(start, 8), LittleEndian(|r.body|, 4) + (r.magic + tail));
    AtSplit(b, 8, LittleEndian(|r.body|, 4), r.magic + tail);
    AtSplit(b, 12, r.magic, tail);
    AtSplit(b, 16, LittleEndian(r.count, 4), [r.kind] + crc);
    AtSplit(b, 20, [r.kind], crc);
    assert b[20] == b[20..21][0];
  }

  /** A header written is read back. */
  lemma HeaderRead(b: Bytes, r: Record, start: nat, crc: Bytes)
    requires WellFormed(r) && |crc| == 4 && start < U64 && b == RecordHead(r, start, crc)
    ensures |b| == HEADER_LENGTH && HeaderOf(b) == RecordHeader(start, |r.body|, r.count, r.kind, crc)
  {
    HeadParts(b, r, start, crc);
    PowersOf256();
    hide LittleEndian, FromLittleEndian, RecordHead, At;
    LittleEndianRead(b, 0, start, 8);
    LittleEndianRead(b, 8, |r.body|, 4);
    LittleEndianRead(b, 16, r.count, 4);
  }

  /** Where the fields of a header stand: the position in its first eight bytes, the length of
      the body in the next four, the count from the byte 16 on, lowest bytes first, then the
      kind and the checksum. */
  lemma HeaderFields(b: Bytes)
    requires |b| == 25
    ensures var h := HeaderOf(b);
            && h.startPos == Number(b[0], b[1], b[2], b[3]) + 0x1_0000_0000 * Number(b[4], b[5], b[6], b[7])
            && h.msgLength == Number(b[8], b[9], b[10], b[11])
            && h.countPushed == Number(b[16], b[17], b[18], b[19])
            && h.kind == b[20] && h.crc == [b[21], b[22], b[23], b[24]]
  {
    FourAt(b, 8);
    FourAt(b, 16);
    EightAt(b);
    hide FromLittleEndian, Number;
  }

  function Number(b0: int, b1: int, b2: int, b3: int): int {
    b0 + 0x100 * b1 + 0x1_0000 * b2 + 0x100_0000 * b3
  }

  lemma FourAt(b: Bytes, pos: nat)
    requires pos + 4 <= |b|
    ensures FromLittleEndian(b, pos, 4) == Number(b[pos], b[pos + 1], b[pos + 2], b[pos + 3])
  {
    assert FromLittleEndian(b, pos + 2, 2) == b[pos + 2] + 256 * FromLittleEndian(b, pos + 3, 1);
    assert FromLittleEndian(b, pos + 4, 0) == 0;
  }

  lemma EightAt(b: Bytes)
    requires |b| >= 8
    ensures FromLittleEndian(b, 0, 8) == Number(b[0], b[1], b[2], b[3]) + 0x1_0000_0000 * Number(b[4], b[5], b[6], b[7])
  {
    FourAt(b, 4);
    assert FromLittleEndian(b, 2, 6) == b[2] + 256 * FromLittleEndian(b, 3, 5);
    assert FromLittleEndian(b, 3, 5) == b[3] + 256 * FromLittleEndian(b, 4, 4);
  }

  lemma HeadLength(r: Record, start: nat, crc: Bytes)
    requires WellFormed(r) && |crc| == 4
    ensures |RecordHead(r, start, crc)| == HEADER_LENGTH
  {
  }

  lemma SealedLength(crc: Checksum, r: Record, start: nat)
    requires IsChecksum(crc) && WellFormed(r)
    ensures |Sealed(crc, r, start)| == HEADER_LENGTH + |r.body|
  {
  }

  lemma AtBehind(first: Bytes, rest: Bytes, at: nat, bytes: Bytes)
    ensures At(rest, at, bytes) ==> At(first + rest, |first| + at, bytes)
    ensures At(first + rest, 0, first)
  {
    if At(rest, at, bytes) {
      assert (first + rest)[|first| + at..|first| + at + |bytes|] == rest[at..at + |bytes|];
    }
    assert (first + rest)[..|first|] == first;
  }

  lemma {:induction false} RecordFrom(crc: Checksum, rs: seq<Record>, k: nat, start: nat)
    requires IsChecksum(crc) && k < |rs| && forall r | r in rs :: WellFormed(r)
    ensures At(PartFrom(crc, rs, start), Offset(rs, k), Sealed(crc, rs[k], start + Offset(rs, k)))
    decreases |rs|
  {
    hide RecordHead, WellFormed, IsChecksum, At, Sealed;
    var first, rest := Sealed(crc, rs[0], start), PartFrom(crc, rs[1..], start + HEADER_LENGTH + |rs[0].body|);
    assert PartFrom(crc, rs, start) == first + rest && Offset(rs, 0) == 0;
    hide PartFrom, Offset;
    SealedLength(crc, rs[0], start);
    if k == 0 {
      AtBehind(first, rest, 0, []);
    } else {
      RecordFrom(crc, rs[1..], k - 1, start + HEADER_LENGTH + |rs[0].body|);
      OffsetTail(rs, k);
      AtBehind(first, rest, Offset(rs[1..], k - 1), Sealed(crc, rs[k], start + Offset(rs, k)));
    }
  }

  lemma {:induction false} OffsetTail(rs: seq<Record>, k: nat)
    requires 0 < k <= |rs|
    ensures Offset(rs, k) == HEADER_LENGTH + |rs[0].body| + Offset(rs[1..], k - 1)
  {
    if k > 1 {
      OffsetTail(rs, k - 1);
    }
  }

  lemma {:induction false} OffsetGrows(rs: seq<Record>, j: nat, k: nat)
    requires j <= k <= |rs|
    ensures Offset(rs, j) <= Offset(rs, k)
    decreases k
  {
    if j < k {
      OffsetGrows(rs, j, k - 1);
    }
  }

  /** The bytes of a record in the file: its header, and its body after it. */
  lemma RecordAt(crc: Checksum, rs: seq<Record>, k: nat)
    requires IsChecksum(crc) && k < |rs| && forall r | r in rs :: WellFormed(r)
    ensures var file, start, r := PartFrom(crc, rs, 0), Offset(rs, k), rs[k];
            && start + HEADER_LENGTH + |r.body| <= |file|
            && file[start..start + HEADER_LENGTH] == RecordHead(r, start, crc(RecordHead(r, start, BLANK) + r.body))
            && file[start + HEADER_LENGTH..start + HEADER_LENGTH + |r.body|] == r.body
  {
    hide RecordHead, PartFrom, WellFormed, Offset, At;
    var start, r := Offset(rs, k), rs[k];
    RecordFrom(crc, rs, k, 0);
    var sum := crc(RecordHead(r, start, BLANK) + r.body);
    HeadLength(r, start, sum);
    AtSplit(PartFrom(crc, rs, 0), start, RecordHead(r, start, sum), r.body);
    AtIs(PartFrom(crc, rs, 0), start, RecordHead(r, start, sum));
    AtIs(PartFrom(crc, rs, 0), start + HEADER_LENGTH, r.body);
  }

  lemma AtIs(src: Bytes, pos: nat, bytes: Bytes)
    requires At(src, pos, bytes)
    ensures pos + |bytes| <= |src| && src[pos..pos + |bytes|] == bytes
  {
  }

  // -------------------------------------------------------------------- the place file

  function InfoText(queue: string, name: string, start: nat, count: nat, id: nat): string {
    queue + ";" + (name + ";" + (Decimal.Digits(start) + ";" + (Decimal.Digits(count) + ";" + Decimal.Digits(id))))
  }

  /** Written at the beginning of a file that is not truncated. */
  function Overwritten(was: string, text: string): string {
    if |was| <= |text| then text else text + was[|text|..]
  }

  function FirstLine(s: string): string {
    if s == "" || s[0] == '\n' || (s[0] == '\r' && |s| > 1 && s[1] == '\n') then "" else [s[0]] + FirstLine(s[1..])
  }

  datatype Info = NoInfo | BadInfo | Place(start: nat, count: nat, id: nat)

  /** A signed number as Go converts it to an unsigned one. */
  function Unsigned(v: int, limit: int): nat
    requires limit > 0
  {
    v % limit
  }

  function InfoOf(queue: string, name: string, file: string): Info {
    var ch := Split(FirstLine(file), ';');
    if FirstLine(file) == "" then NoInfo
    else if |ch| != 5 || ch[0] != queue || ch[1] != name then BadInfo
    else
      match (Decimal.IntOf(ch[2]), Decimal.IntOf(ch[3]), Decimal.IntOf(ch[4]))
      case (Number(start), Number(count), Number(id)) => Place(Unsigned(start, U64), Unsigned(count, U32), Unsigned(id, U32))
      case _ => BadInfo
  }

  lemma InfoIs(queue: string, name: string, text: string, start: string, count: string, id: string)
    requires text != "" && FirstLine(text) == text && Split(text, ';') == [queue, name, start, count, id]
    ensures InfoOf(queue, name, text) ==
      match (Decimal.IntOf(start), Decimal.IntOf(count), Decimal.IntOf(id))
      case (Number(start), Number(count), Number(id)) => Place(Unsigned(start, U64), Unsigned(count, U32), Unsigned(id, U32))
      case _ => BadInfo
  {
    hide Split, FirstLine, Decimal.IntOf;
  }

  lemma DigitsAreClean(n: nat)
    ensures forall c | c in Decimal.Digits(n) :: c != ';' && c != '\n' && c != '\r'
  {
    assert !Decimal.IsDigit(';') && !Decimal.IsDigit('\n') && !Decimal.IsDigit('\r');
  }

  lemma {:induction false} OneLine(s: string)
    requires '\n' !in s
    ensures FirstLine(s) == s
  {
    if s != "" {
      OneLine(s[1..]);
    }
  }

  lemma NumberRead(n: nat)
    requires n <= Decimal.INT64_MAX
    ensures Decimal.IntOf(Decimal.Digits(n)) == Decimal.Number(n)
  {
    Decimal.SignedDigits(n, 0);
    assert Decimal.SignOf(n) + Decimal.Zeros(0) + Decimal.Digits(Decimal.Abs(n)) == Decimal.Digits(n);
  }

  lemma InfoSplits(queue: string, name: string, start: nat, count: nat, id: nat)
    requires ';' !in queue && ';' !in name
    ensures Split(InfoText(queue, name, start, count, id), ';')
         == [queue, name, Decimal.Digits(start), Decimal.Digits(count), Decimal.Digits(id)]
  {
    hide Split;
    DigitsAreClean(start);
    DigitsAreClean(count);
    DigitsAreClean(id);
    var s, c, i := Decimal.Digits(start), Decimal.Digits(count), Decimal.Digits(id);
    SplitLast(i, ';');
    SplitFirst(c, i, ';');
    assert c + [';'] + i == c + ";" + i;
    SplitFirst(s, c + ";" + i, ';');
    assert s + [';'] + (c + ";" + i) == s + ";" + (c + ";" + i);
    SplitFirst(name, s + ";" + (c + ";" + i), ';');
    assert name + [';'] + (s + ";" + (c + ";" + i)) == name + ";" + (s + ";" + (c + ";" + i));
    SplitFirst(queue, name + ";" + (s + ";" + (c + ";" + i)), ';');
    assert queue + [';'] + (name + ";" + (s + ";" + (c + ";" + i))) == InfoText(queue, name, start, count, id);
  }

  /** A place written is read back. */
  lemma InfoRead(queue: string, name: string, start: nat, count: nat, id: nat)
    requires ';' !in queue && ';' !in name && '\n' !in queue && '\n' !in name
    requires start <= Decimal.INT64_MAX && count < U32 && id < U32
    ensures InfoOf(queue, name, InfoText(queue, name, start, count, id)) == Place(start, count, id)
  {
    hide Split, FirstLine, Decimal.IntOf, Decimal.Digits, InfoOf;
    var text := InfoText(queue, name, start, count, id);
    assert text != "" && '\n' !in text by {
      DigitsAreClean(start);
      DigitsAreClean(count);
      DigitsAreClean(id);
    }
    OneLine(text);
    InfoSplits(queue, name, start, count, id);
    InfoIs(queue, name, text, Decimal.Digits(start), Decimal.Digits(count), Decimal.Digits(id));
    NumberRead(start);
    NumberRead(count);
    NumberRead(id);
  }

  lemma {:induction false} DigitsGrow(a: nat, b: nat)
    requires a <= b
    ensures |Decimal.Digits(a)| <= |Decimal.Digits(b)|
  {
    if a >= 10 {
      DigitsGrow(a / 10, b / 10);
    }
  }

  /** The place never gets shorter as the consumer goes on, so that overwriting leaves
      nothing of the old place behind. */
  lemma PlaceOverwrites(queue: string, name: string, start: nat, count: nat, start': nat, count': nat, id: nat)
    requires start <= start' && count <= count'
    ensures Overwritten(InfoText(queue, name, start, count, id), InfoText(queue, name, start', count', id))
         == InfoText(queue, name, start', count', id)
  {
    DigitsGrow(start, start');
    DigitsGrow(count, count');
    hide Decimal.Digits;
  }

  // ----------------------------------------------------------------------- the consumer

  class Consumer {
    const crc: Checksum
    const queue: string
    const name: string
    /** The file of the part, and the place file. */
    const file: Bytes
    var info: string

    var isReady: bool
    var startPos: nat
    var countPopped: nat
    var id: nat
    var lastReadMsg: Bytes
    var header: RecordHeader
    var headerBuff: array<Byte>
    var buff: array<Byte>

    ghost predicate Valid()
      reads this, headerBuff
    {
      headerBuff != buff && headerBuff.Length == HEADER_LENGTH && |header.crc| == 4
    }

    constructor (crc: Checksum, queue: string, name: string, file: Bytes, info: string)
      ensures Valid() && fresh(headerBuff) && fresh(buff)
      ensures this.crc == crc && this.queue == queue && this.name == name && this.file == file && this.info == info
      ensures var place := InfoOf(queue, name, info);
              && isReady == !place.BadInfo?
              && (place.Place? ==> startPos == place.start && countPopped == place.count && id == place.id)
              && (place.NoInfo? ==> startPos == countPopped == id == 0)
    {
      this.crc, this.queue, this.name, this.file, this.info := crc, queue, name, file, info;
      isReady, startPos, countPopped, id, lastReadMsg, header := true, 0, 0, 0, [], NO_HEADER;
      headerBuff := new Byte[HEADER_LENGTH];
      buff := new Byte[409600];
      new;
      GetInfo();
    }

    /** `get_info`: an empty file leaves the consumer at the beginning. */
    method GetInfo()
      modifies this`isReady, this`startPos, this`countPopped, this`id
      ensures var place := InfoOf(queue, name, info);
              && isReady == (old(isReady) && !place.BadInfo?)
              && (place.Place? ==> startPos == place.start && countPopped == place.count && id == place.id)
              && (place.NoInfo? ==> startPos == old(startPos) && countPopped == old(countPopped) && id == old(id))
    {
      hide Split, FirstLine, Decimal.IntOf;
      var str := FirstLine(info);
      if str == "" {
        return;
      }
      var ch := Split(str, ';');
      if |ch| != 5 || ch[0] != queue || ch[1] != name {
        isReady := false;
        return;
      }
      var start := Decimal.IntOf(ch[2]);
      if !start.Number? {
        isReady := false;
        return;
      }
      startPos := Unsigned(start.v, U64);
      var count := Decimal.IntOf(ch[3]);
      if !count.Number? {
        isReady := false;
        return;
      }
      countPopped := Unsigned(count.v, U32);
      var number := Decimal.IntOf(ch[4]);
      if !number.Number? {
        isReady := false;
        return;
      }
      id := Unsigned(number.v, U32);
    }

    /** `put_info`. */
    method PutInfo()
      modifies this`info
      ensures info == Overwritten(old(info), InfoText(queue, name, startPos, countPopped, id))
    {
      info := Overwritten(info, InfoText(queue, name, startPos, countPopped, id));
    }

    /** What is there of the file at `pos`, up to `n` bytes, goes to the front of `dst`. */
    method Read(dst: array<Byte>, n: nat, pos: nat)
      requires n <= dst.Length
      modifies dst
      ensures pos + n <= |file| ==> dst[..n] == file[pos..pos + n]
      ensures dst[n..] == old(dst[n..])
    {
      var k := 0;
      while k < n && pos + k < |file|
        invariant k <= n && (k > 0 ==> pos + k <= |file|)
        invariant forall j | 0 <= j < k :: dst[j] == file[pos + j]
        invariant forall j | k <= j < dst.Length :: dst[j] == old(dst[j])
      {
        dst[k] := file[pos + k];
        k := k + 1;
      }
    }

    /** The consumer stands before the record `k` of the part: its place, and what the place
        file says. */
    ghost predicate StandsAt(rs: seq<Record>, k: nat)
      reads this, headerBuff
    {
      && Valid() && isReady && IsChecksum(crc) && (forall r | r in rs :: WellFormed(r))
      && k <= |rs| < U32 && Offset(rs, |rs|) <= Decimal.INT64_MAX && id < U32
      && file == PartFrom(crc, rs, 0)
      && startPos == Offset(rs, k) && countPopped == k
      && (info == InfoText(queue, name, startPos, k, id) || (k == 0 && info == ""))
    }

    /** The record that starts at `start` has been popped last. */
    ghost predicate HasRead(r: Record, start: nat)
      reads this, headerBuff
      requires Valid() && IsChecksum(crc) && WellFormed(r)
    {
      && lastReadMsg == r.body
      && header == RecordHeader(start, |r.body|, r.count, r.kind, crc(RecordHead(r, start, BLANK) + r.body))
      && headerBuff[..21] == RecordHead(r, start, BLANK)[..21]
    }

    /** `pop`, when `pushed` records have been announced and there is no later part. */
    method Pop(pushed: nat, ghost rs: seq<Record>, ghost k: nat) returns (msg: Bytes)
      requires Valid()
      modifies this`header, this`lastReadMsg, this`buff, headerBuff, buff
      ensures Valid() && headerBuff == old(headerBuff) && (buff == old(buff) || fresh(buff))
      ensures old(StandsAt(rs, k)) ==> StandsAt(rs, k)
      ensures old(StandsAt(rs, k)) && k < pushed <= |rs| ==> msg == rs[k].body && HasRead(rs[k], Offset(rs, k))
      ensures !isReady || countPopped >= pushed ==> msg == []
    {
      hide PartFrom, Offset, WellFormed, RecordHead, HeaderOf, InfoText, IsChecksum;
      if !isReady {
        return [];
      }
      if countPopped >= pushed {
        return [];
      }
      Read(headerBuff, HEADER_LENGTH, startPos);
      header := HeaderOf(headerBuff[..]);
      ghost var known := old(StandsAt(rs, k)) && k < pushed <= |rs|;
      if known {
        AtRecord(crc, rs, k, headerBuff[..], startPos);
      }
      if header.startPos != startPos {
        return [];
      }
      if header.msgLength >= buff.Length {
        buff := new Byte[header.msgLength + 1];
      }
      Read(buff, header.msgLength, startPos + HEADER_LENGTH);
      lastReadMsg := buff[..header.msgLength];
      return lastReadMsg;
    }

    /** `commit_and_next`. It passes if and only if the checksum of what was popped last is
        the one in its header, and then moves on by the length of what was popped last. A
        commit changes nothing of what was popped, so that it may be repeated: `last` is the
        record popped last and `k` the one at the place. */
    method CommitAndNext(pushed: nat, ghost rs: seq<Record>, ghost k: nat, ghost last: nat) returns (ok: bool)
      requires Valid()
      modifies this`countPopped, this`startPos, this`info, headerBuff
      ensures Valid() && (ok <==> isReady && old(countPopped) < pushed && header.crc == old(SumOfPopped()))
      ensures !ok ==> countPopped == old(countPopped) && startPos == old(startPos) && info == old(info)
      ensures ok ==> countPopped == (old(countPopped) + 1) % U32
      ensures ok ==> startPos == (old(startPos) + HEADER_LENGTH + header.msgLength) % U64
      ensures ok ==> info == Overwritten(old(info), InfoText(queue, name, startPos, countPopped, id))
      ensures old(StandsAt(rs, k)) && k < pushed <= |rs| && last < |rs| && old(HasRead(rs[last], Offset(rs, last)))
              ==> ok && MovedBy(rs, k, last)
    {
      hide PartFrom, Offset, WellFormed, RecordHead, HeaderOf, InfoText, IsChecksum, Overwritten, MovedBy;
      if !isReady {
        return false;
      }
      if countPopped >= pushed {
        return false;
      }
      ghost var was := info;
      ghost var known := StandsAt(rs, k) && k < pushed <= |rs| && last < |rs| && HasRead(rs[last], Offset(rs, last));
      if known {
        SumIsRight(rs, k, last);
      }
      BlankCrc();
      var sum := crc(headerBuff[..] + lastReadMsg);
      if header.crc != sum {
        return false;
      }
      countPopped := (countPopped + 1) % U32;
      startPos := (startPos + HEADER_LENGTH + header.msgLength) % U64;
      PutInfo();
      if known {
        assert headerBuff[..21] == headerBuff[..][..21];
        CommitMoves(rs, k, last, was);
      }
      return true;
    }

    /** The checksum of what was popped last. */
    ghost function SumOfPopped(): Bytes
      requires Valid()
      reads this, headerBuff
    {
      crc(headerBuff[..21] + BLANK + lastReadMsg)
    }

    method BlankCrc()
      requires Valid()
      modifies headerBuff
      ensures headerBuff[..] == old(headerBuff[..21]) + BLANK
    {
      headerBuff[HEADER_LENGTH - 4] := 0;
      headerBuff[HEADER_LENGTH - 3] := 0;
      headerBuff[HEADER_LENGTH - 2] := 0;
      headerBuff[HEADER_LENGTH - 1] := 0;
    }

    lemma SumIsRight(rs: seq<Record>, k: nat, last: nat)
      requires Valid() && StandsAt(rs, k) && last < |rs| && HasRead(rs[last], Offset(rs, last))
      ensures header.crc == SumOfPopped()
    {
      hide RecordHead, PartFrom, Offset;
      BlankHead(headerBuff[..21] + BLANK, rs[last], Offset(rs, last));
    }

    /** Where a commit at `k` has brought the consumer: it stands at the next record if and
        only if the record popped last is as long as the one at the place. */
    ghost predicate MovedBy(rs: seq<Record>, k: nat, last: nat)
      requires k < |rs| && last < |rs|
      reads this, headerBuff
    {
      && Valid() && IsChecksum(crc) && WellFormed(rs[last]) && HasRead(rs[last], Offset(rs, last))
      && countPopped == k + 1 && startPos == Offset(rs, k) + HEADER_LENGTH + |rs[last].body|
      && (StandsAt(rs, k + 1) <==> |rs[last].body| == |rs[k].body|)
    }

    lemma CommitMoves(rs: seq<Record>, k: nat, last: nat, was: string)
      requires Valid() && isReady && IsChecksum(crc) && forall r | r in rs :: WellFormed(r)
      requires k < |rs| < U32 && last < |rs| && Offset(rs, |rs|) <= Decimal.INT64_MAX && id < U32
      requires file == PartFrom(crc, rs, 0) && HasRead(rs[last], Offset(rs, last))
      requires was == InfoText(queue, name, Offset(rs, k), k, id) || (k == 0 && was == "")
      requires countPopped == (k + 1) % U32 && startPos == (Offset(rs, k) + HEADER_LENGTH + header.msgLength) % U64
      requires info == Overwritten(was, InfoText(queue, name, startPos, countPopped, id))
      ensures MovedBy(rs, k, last)
    {
      hide PartFrom, Offset, RecordHead, HeaderOf, InfoText, Overwritten;
      NextPlace(queue, name, rs, k, id);
    }
  }

  lemma AtRecord(crc: Checksum, rs: seq<Record>, k: nat, b: Bytes, start: nat)
    requires IsChecksum(crc) && k < |rs| && (forall r | r in rs :: WellFormed(r))
    requires start == Offset(rs, k) && Offset(rs, |rs|) < U64
    requires start + HEADER_LENGTH <= |PartFrom(crc, rs, 0)| ==> b == PartFrom(crc, rs, 0)[start..start + HEADER_LENGTH]
    ensures var file, r := PartFrom(crc, rs, 0), rs[k];
            && |b| == HEADER_LENGTH && start + HEADER_LENGTH + |r.body| <= |file|
            && HeaderOf(b) == RecordHeader(start, |r.body|, r.count, r.kind, crc(RecordHead(r, start, BLANK) + r.body))
            && b[..21] == RecordHead(r, start, BLANK)[..21]
            && file[start + HEADER_LENGTH..start + HEADER_LENGTH + |r.body|] == r.body
  {
    hide RecordHead, PartFrom, HeaderOf, LittleEndian, At, Offset, IsChecksum, WellFormed;
    var r := rs[k];
    var sum := crc(RecordHead(r, start, BLANK) + r.body);
    SumLength(crc, RecordHead(r, start, BLANK) + r.body);
    RecordAt(crc, rs, k);
    OffsetGrows(rs, k, |rs|);
    HeadFields(b, r, start, sum);
  }

  lemma SumLength(crc: Checksum, b: Bytes)
    requires IsChecksum(crc)
    ensures |crc(b)| == 4
  {
  }

  lemma HeadFields(b: Bytes, r: Record, start: nat, crc: Bytes)
    requires WellFormed(r) && |crc| == 4 && start < U64 && b == RecordHead(r, start, crc)
    ensures |b| == HEADER_LENGTH && HeaderOf(b) == RecordHeader(start, |r.body|, r.count, r.kind, crc)
    ensures b[..21] == RecordHead(r, start, BLANK)[..21]
  {
    hide RecordHead, HeaderOf, LittleEndian, At;
    HeaderRead(b, r, start, crc);
    HeadParts(b, r, start, crc);
  }

  lemma BlankHead(b: Bytes, r: Record, start: nat)
    requires WellFormed(r) && |b| == HEADER_LENGTH && b[..21] == RecordHead(r, start, BLANK)[..21] && b[21..] == BLANK
    ensures b == RecordHead(r, start, BLANK)
  {
    HeadParts(RecordHead(r, start, BLANK), r, start, BLANK);
    hide RecordHead;
    assert b == b[..21] + b[21..];
    var h := RecordHead(r, start, BLANK);
    assert h == h[..21] + h[21..];
  }

  lemma NextPlace(queue: string, name: string, rs: seq<Record>, k: nat, id: nat)
    requires k < |rs| && Offset(rs, |rs|) <= Decimal.INT64_MAX
    ensures var next := Offset(rs, k) + HEADER_LENGTH + |rs[k].body|;
            && next == Offset(rs, k + 1) <= Decimal.INT64_MAX
            && Overwritten(InfoText(queue, name, Offset(rs, k), k, id), InfoText(queue, name, next, k + 1, id))
            == InfoText(queue, name, next, k + 1, id)
            && Overwritten("", InfoText(queue, name, next, k + 1, id)) == InfoText(queue, name, next, k + 1, id)
  {
    OffsetGrows(rs, k + 1, |rs|);
    PlaceOverwrites(queue, name, Offset(rs, k), k, Offset(rs, k + 1), k + 1, id);
  }

  // ------------------------------------------------------------------------------ runs

  function Bodies(rs: seq<Record>): (bodies: seq<Bytes>)
    ensures |bodies| == |rs|
  {
    if rs == [] then [] else Bodies(rs[..|rs| - 1]) + [rs[|rs| - 1].body]
  }

  /** A turn of a reader: how many records have been announced by then, and whether the
      message it gets is committed. */
  datatype Turn = Turn(pushed: nat, commits: bool)

  /** What a turn at the record `k` delivers: the record, or nothing. */
  function Delivered(rs: seq<Record>, turn: Turn, k: nat): Bytes
    requires k <= |rs| && turn.pushed <= |rs|
  {
    if k < turn.pushed then rs[k].body else []
  }

  /** The record after the turn: the next one if a message came and was committed. An empty
      message looks like no message, so that no turn gets past it. */
  function Then(rs: seq<Record>, turn: Turn, k: nat): (next: nat)
    requires k <= |rs| && turn.pushed <= |rs|
    ensures k <= next <= |rs| && next <= k + 1
  {
    if Delivered(rs, turn, k) != [] && turn.commits then k + 1 else k
  }

  /** The record after the turns. */
  function After(rs: seq<Record>, turns: seq<Turn>, k: nat): (next: nat)
    requires k <= |rs| && forall t | t in turns :: t.pushed <= |rs|
    ensures k <= next <= |rs|
  {
    if turns == [] then k
    else Then(rs, turns[|turns| - 1], After(rs, turns[..|turns| - 1], k))
  }

  /** One turn at the record `k`. A message that is not committed leaves the place, so that
      the next turn delivers it again. */
  method TakeTurn(c: Consumer, turn: Turn, ghost rs: seq<Record>, ghost k: nat) returns (msg: Bytes, took: bool)
    requires c.Valid() && c.StandsAt(rs, k) && k <= |rs| && turn.pushed <= |rs|
    modifies c, c.headerBuff, c.buff
    ensures c.Valid() && c.headerBuff == old(c.headerBuff) && (c.buff == old(c.buff) || fresh(c.buff))
    ensures msg == Delivered(rs, turn, k)
    ensures c.StandsAt(rs, Then(rs, turn, k)) && (took <==> Then(rs, turn, k) == k + 1)
  {
    Announced(c, rs, k);
    hide Consumer.StandsAt, Consumer.HasRead;
    msg := c.Pop(turn.pushed, rs, k);
    took := msg != [] && turn.commits;
    if took {
      took := c.CommitAndNext(turn.pushed, rs, k, k);
    }
  }

  /** A run of turns from the record `k` on. Every turn delivers the record at its place;
      the messages committed are the records from `k` on, in order and each once. */
  method RunTurns(c: Consumer, turns: seq<Turn>, ghost rs: seq<Record>, ghost k: nat)
    returns (seen: seq<Bytes>, got: seq<Bytes>)
    requires c.Valid() && c.StandsAt(rs, k) && k <= |rs| && forall t | t in turns :: t.pushed <= |rs|
    modifies c, c.headerBuff, c.buff
    ensures c.Valid() && c.StandsAt(rs, After(rs, turns, k))
    ensures got == Bodies(rs[..After(rs, turns, k)])[k..]
    ensures |seen| == |turns| && forall i | 0 <= i < |turns| :: seen[i] == Delivered(rs, turns[i], After(rs, turns[..i], k))
  {
    hide Consumer.StandsAt, Consumer.HasRead, Consumer.Valid, Bodies, Delivered, After, Then;
    seen, got := [], [];
    assert Bodies(rs[..k])[k..] == [];
    assert turns[..0] == [];
    AfterNothing(rs, k);
    for i := 0 to |turns|
      invariant c.Valid() && c.headerBuff == old(c.headerBuff) && (c.buff == old(c.buff) || fresh(c.buff))
      invariant c.StandsAt(rs, After(rs, turns[..i], k)) && got == Bodies(rs[..After(rs, turns[..i], k)])[k..]
      invariant |seen| == i && forall j | 0 <= j < i :: seen[j] == Delivered(rs, turns[j], After(rs, turns[..j], k))
    {
      ghost var at := After(rs, turns[..i], k);
      AfterOneMore(rs, turns, i, k);
      var msg, took := TakeTurn(c, turns[i], rs, at);
      seen := seen + [msg];
      if took {
        BodiesSnoc(rs, at);
        TookMessage(rs, turns[i], at);
        got := got + [msg];
      }
    }
    assert turns[..|turns|] == turns;
  }

  lemma AfterNothing(rs: seq<Record>, k: nat)
    requires k <= |rs|
    ensures After(rs, [], k) == k
  {
  }

  lemma AfterOneMore(rs: seq<Record>, turns: seq<Turn>, i: nat, k: nat)
    requires k <= |rs| && i < |turns| && forall t | t in turns :: t.pushed <= |rs|
    ensures After(rs, turns[..i + 1], k) == Then(rs, turns[i], After(rs, turns[..i], k))
  {
    assert turns[..i + 1][..i] == turns[..i];
  }

  lemma TookMessage(rs: seq<Record>, turn: Turn, k: nat)
    requires k <= |rs| && turn.pushed <= |rs| && Then(rs, turn, k) == k + 1
    ensures Delivered(rs, turn, k) == rs[k].body
  {
  }

  lemma BodiesSnoc(rs: seq<Record>, k: nat)
    requires k < |rs|
    ensures Bodies(rs[..k + 1]) == Bodies(rs[..k]) + [rs[k].body]
  {
    assert rs[..k + 1][..k] == rs[..k];
  }

  lemma Announced(c: Consumer, rs: seq<Record>, k: nat)
    requires c.Valid() && c.StandsAt(rs, k)
    ensures c.isReady && c.countPopped == k
  {
  }

  /** Opening again restores the place of the last commit. */
  method Reopen(c: Consumer, ghost rs: seq<Record>, ghost k: nat) returns (again: Consumer)
    requires c.Valid() && c.StandsAt(rs, k)
    requires ';' !in c.queue && ';' !in c.name && '\n' !in c.queue && '\n' !in c.name
    requires c.info == "" ==> c.id == 0
    ensures again.Valid() && again.StandsAt(rs, k) && again.id == c.id && fresh(again)
  {
    if c.info != "" {
      OffsetGrows(rs, k, |rs|);
      InfoRead(c.queue, c.name, c.startPos, k, c.id);
    }
    hide InfoOf, InfoText, PartFrom, Offset;
    again := new Consumer(c.crc, c.queue, c.name, c.file, c.info);
    NothingIsNoInfo(c.queue, c.name);
  }

  lemma NothingIsNoInfo(queue: string, name: string)
    ensures InfoOf(queue, name, "").NoInfo?
  {
  }

  /** A second commit without a pop passes too, and moves on by the length of the record
      committed before: the consumer then stands at the right record if and only if the two
      records are equally long. */
  method CommitWithoutPop(c: Consumer, pushed: nat, ghost rs: seq<Record>, ghost k: nat) returns (ok: bool)
    requires c.Valid() && c.StandsAt(rs, k) && k + 1 < pushed <= |rs|
    modifies c, c.headerBuff, c.buff
    ensures ok && c.MovedBy(rs, k + 1, k)
    ensures c.StandsAt(rs, k + 2) <==> |rs[k].body| == |rs[k + 1].body|
  {
    hide PartFrom, Offset, RecordHead, InfoText;
    var _ := c.Pop(pushed, rs, k);
    ok := c.CommitAndNext(pushed, rs, k, k);
    ok := c.CommitAndNext(pushed, rs, k + 1, k);
  }

  /** Two records, of one byte and of two, and a consumer that misses the end of the part. */
  method UnevenRecords(crc: Checksum) returns (c: Consumer, ghost rs: seq<Record>)
    requires IsChecksum(crc)
    ensures |rs| == 2 && c.Valid() && c.file == PartFrom(crc, rs, 0)
    ensures c.countPopped == 2 && c.startPos == 52 && Offset(rs, 2) == 53 && !c.StandsAt(rs, 2)
  {
    var short, long := Record(BLANK, 0, 0, [1]), Record(BLANK, 0, 0, [1, 2]);
    rs := [short, long];
    assert Offset(rs, 0) == 0 && Offset(rs, 1) == 26 && Offset(rs, 2) == 53;
    hide PartFrom, RecordHead, InfoText, InfoOf;
    NothingIsNoInfo("queue", "consumer");
    c := new Consumer(crc, "queue", "consumer", PartFrom(crc, [short, long], 0), "");
    assert c.StandsAt(rs, 0);
    var _ := CommitWithoutPop(c, 2, rs, 0);
  }
}
