/** The text records of the access-rights index: the reader
    (`get_elements_from_index`) and the writer the index is filled by
    (`rights_as_string`). A record is `id;access[marker];id;access[marker];...`. */
module AclIndex {
  import opened Text
  import opened Wrappers

  const NO_MARKER: char := '\0'
  const IS_EXCLUSIVE: char := 'X'
  const IGNORE_EXCLUSIVE: char := 'N'

  /** The low four bits of `access` allow create, read, update and delete; the high
      four deny them. */
  datatype Right = Right(id: string, access: bv8, marker: char, isDeleted: bool, level: nat)

  function HexDigit(c: char): (digit: Option<bv32>) {
    match c
    case '0' => Some(0)
    case '1' => Some(1)
    case '2' => Some(2)
    case '3' => Some(3)
    case '4' => Some(4)
    case '5' => Some(5)
    case '6' => Some(6)
    case '7' => Some(7)
    case '8' => Some(8)
    case '9' => Some(9)
    case 'a' => Some(10)
    case 'b' => Some(11)
    case 'c' => Some(12)
    case 'd' => Some(13)
    case 'e' => Some(14)
    case 'f' => Some(15)
    case 'A' => Some(10)
    case 'B' => Some(11)
    case 'C' => Some(12)
    case 'D' => Some(13)
    case 'E' => Some(14)
    case 'F' => Some(15)
    case _ => None
  }

  /** Hexadecimal digits in both cases, by the places of the characters. */
  lemma HexDigitIs(c: char)
    ensures HexDigit(c).Some? <==> '0' <= c <= '9' || 'a' <= c <= 'f' || 'A' <= c <= 'F'
    ensures '0' <= c <= '9' ==> HexDigit(c).value as int == c as int - 48
    ensures 'a' <= c <= 'f' ==> HexDigit(c).value as int == c as int - 87
    ensures 'A' <= c <= 'F' ==> HexDigit(c).value as int == c as int - 55
  {
    hide HexDigit;
    if '0' <= c <= '9' {
      DecimalDigit(c);
    } else if 'a' <= c <= 'f' {
      SmallDigit(c);
    } else if 'A' <= c <= 'F' {
      LargeDigit(c);
    } else {
      NoDigit(c);
    }
  }

  lemma DecimalDigit(c: char)
    requires '0' <= c <= '9'
    ensures HexDigit(c).Some? && HexDigit(c).value as int == c as int - 48
  {
  }

  lemma SmallDigit(c: char)
    requires 'a' <= c <= 'f'
    ensures HexDigit(c).Some? && HexDigit(c).value as int == c as int - 87
  {
  }

  lemma LargeDigit(c: char)
    requires 'A' <= c <= 'F'
    ensures HexDigit(c).Some? && HexDigit(c).value as int == c as int - 55
  {
  }

  lemma NoDigit(c: char)
    requires !('0' <= c <= '9' || 'a' <= c <= 'f' || 'A' <= c <= 'F')
    ensures HexDigit(c).None?
  {
  }

  /** What one access token accumulates. The shift of a 32-bit value wraps at 32, which
      the five-bit `shift` gives by itself. */
  datatype AccessState = AccessState(access: bv32, shift: bv5, marker: char)

  function ReadChar(c: char, st: AccessState): AccessState {
    if c == IS_EXCLUSIVE || c == IGNORE_EXCLUSIVE then st.(marker := c)
    else
      match HexDigit(c)
      case Some(v) => st.(access := st.access | (v << st.shift), shift := st.shift + 4)
      case None => st
  }

  function ReadAccess(token: string, st: AccessState): AccessState {
    if token == "" then st else ReadAccess(token[1..], ReadChar(token[0], st))
  }

  const START := AccessState(0, 0, NO_MARKER)

  function ReadRight(id: string, token: string): Right {
    var st := ReadAccess(token, START);
    Right(id, (st.access & 0xFF) as bv8, st.marker, false, 0)
  }

  /** The rights named by a token list: one for each complete pair. */
  function ReadTokens(tokens: seq<string>): seq<Right> {
    if |tokens| < 2 then [] else [ReadRight(tokens[0], tokens[1])] + ReadTokens(tokens[2..])
  }

  function Elements(src: string): seq<Right> {
    if src == "" then [] else ReadTokens(Split(src, ';'))
  }

  /** The reader itself: two nested loops, here in two methods, over the tokens and their
      characters. */
  method GetElementsFromIndex(src: string) returns (results: seq<Right>, ok: bool)
    ensures results == Elements(src)
    ensures ok <==> src != ""
  {
    results := [];
    if src == "" {
      return results, false;
    }
    var tokens := Split(src, ';');
    var idx := 0;
    while true
      invariant 0 <= idx <= |tokens|
      invariant results + ReadTokens(tokens[idx..]) == ReadTokens(tokens)
      decreases |tokens| - idx
    {
      if idx + 1 < |tokens| {
        var rr := ReadAccessToken(tokens[idx], tokens[idx + 1]);
        assert tokens[idx..][2..] == tokens[idx + 2..];
        results := results + [rr];
      } else {
        break;
      }
      idx := idx + 2;
      if idx >= |tokens| {
        break;
      }
    }
    return results, true;
  }

  method ReadAccessToken(id: string, element: string) returns (rr: Right)
    ensures rr == ReadRight(id, element)
  {
    var st := START;
    var pos := 0;
    while pos < |element|
      invariant 0 <= pos <= |element|
      invariant ReadAccess(element[pos..], st) == ReadAccess(element, START)
    {
      assert element[pos..][1..] == element[pos + 1..];
      st := ReadChar(element[pos], st);
      pos := pos + 1;
    }
    assert element[pos..] == "";
    rr := Right(id, (st.access & 0xFF) as bv8, st.marker, false, 0);
  }

  // ---------------------------------------------------------------- the writer

  function HexChar(n: bv8): char {
    match n
    case 0 => '0'
    case 1 => '1'
    case 2 => '2'
    case 3 => '3'
    case 4 => '4'
    case 5 => '5'
    case 6 => '6'
    case 7 => '7'
    case 8 => '8'
    case 9 => '9'
    case 10 => 'A'
    case 11 => 'B'
    case 12 => 'C'
    case 13 => 'D'
    case 14 => 'E'
    case _ => 'F'
  }

  /** Base-16 text of a byte, most significant digit first, no leading zero. */
  function HexText(access: bv8): string {
    if access < 16 then [HexChar(access)] else [HexChar(access >> 4), HexChar(access & 0x0F)]
  }

  function AccessText(r: Right): string {
    HexText(r.access) + MarkerText(r.marker)
  }

  function MarkerText(marker: char): string {
    if marker != NO_MARKER then [marker] else ""
  }

  function RightsAsString(rights: seq<Right>): string {
    if rights == [] then ""
    else
      (if rights[0].isDeleted then "" else rights[0].id + ";" + AccessText(rights[0]) + ";")
      + RightsAsString(rights[1..])
  }

  function SwapNibbles(a: bv8): bv8 {
    if a < 16 then a else (a >> 4) | (a << 4)
  }

  /** What the writer's output is read back as: the deleted rights are gone, and the two
      digits of an access above 15 have changed places, because the reader takes the
      first digit as the low one. */
  function ReadBack(rights: seq<Right>): seq<Right> {
    if rights == [] then []
    else
      (if rights[0].isDeleted then [] else [rights[0].(access := SwapNibbles(rights[0].access), level := 0)])
      + ReadBack(rights[1..])
  }

  predicate Writable(r: Right) {
    && ';' !in r.id
    && r.marker in {NO_MARKER, IS_EXCLUSIVE, IGNORE_EXCLUSIVE}
  }

  lemma HexDigitOfChar(n: bv8)
    requires n < 16
    ensures HexDigit(HexChar(n)) == Some(n as bv32)
    ensures HexChar(n) != ';' && HexChar(n) != IS_EXCLUSIVE && HexChar(n) != IGNORE_EXCLUSIVE
  {
  }

  lemma ReadHexText(access: bv8, tail: string) returns (mid: AccessState)
    ensures mid.marker == NO_MARKER && (mid.access & 0xFF) as bv8 == SwapNibbles(access)
    ensures ReadAccess(HexText(access) + tail, START) == ReadAccess(tail, mid)
  {
    var text := HexText(access) + tail;
    if access < 16 {
      HexDigitOfChar(access);
      mid := ReadChar(HexChar(access), START);
      assert text[1..] == tail;
    } else {
      HexDigitOfChar(access >> 4);
      HexDigitOfChar(access & 0x0F);
      var one := ReadChar(HexChar(access >> 4), START);
      mid := ReadChar(HexChar(access & 0x0F), one);
      assert text[1..][1..] == tail;
      assert ReadAccess(text, START) == ReadAccess(text[1..], one) == ReadAccess(tail, mid);
    }
  }

  lemma ReadMarker(marker: char, st: AccessState)
    requires marker in {NO_MARKER, IS_EXCLUSIVE, IGNORE_EXCLUSIVE} && st.marker == NO_MARKER
    ensures ReadAccess(MarkerText(marker), st) == st.(marker := marker)
  {
    if marker != NO_MARKER {
      assert MarkerText(marker)[1..] == "";
    }
  }

  lemma ReadAccessText(r: Right)
    requires Writable(r)
    ensures ReadRight(r.id, AccessText(r)) == r.(access := SwapNibbles(r.access), isDeleted := false, level := 0)
  {
    var mid := ReadHexText(r.access, MarkerText(r.marker));
    ReadMarker(r.marker, mid);
  }

  lemma NoSeparator(r: Right)
    requires Writable(r)
    ensures ';' !in AccessText(r)
  {
    HexDigitOfChar(if r.access < 16 then r.access else r.access >> 4);
    HexDigitOfChar(r.access & 0x0F);
  }

  /** Reading what was written, for every list of rights: `ReadBack` says exactly how it
      differs from the list. */
  lemma {:induction false} ReadWritten(rights: seq<Right>)
    requires forall r :: r in rights ==> Writable(r)
    ensures ReadTokens(Split(RightsAsString(rights), ';')) == ReadBack(rights)
  {
    if rights != [] {
      var r := rights[0];
      var rest := RightsAsString(rights[1..]);
      ReadWritten(rights[1..]);
      if !r.isDeleted {
        SplitWritten(r, rest);
        var tokens := [r.id, AccessText(r)] + Split(rest, ';');
        assert tokens[2..] == Split(rest, ';');
        ReadAccessText(r);
      } else {
        assert RightsAsString(rights) == rest;
      }
    }
  }

  lemma SplitTwice(s: string, t: string, rest: string)
    requires ';' !in s && ';' !in t
    ensures Split(s + ";" + t + ";" + rest, ';') == [s, t] + Split(rest, ';')
  {
    hide Split;
    assert s + ";" + t + ";" + rest == s + [';'] + (t + [';'] + rest);
    SplitFirst(s, t + [';'] + rest, ';');
    SplitFirst(t, rest, ';');
  }

  lemma SplitWritten(r: Right, rest: string)
    requires Writable(r)
    ensures Split(r.id + ";" + AccessText(r) + ";" + rest, ';') == [r.id, AccessText(r)] + Split(rest, ';')
  {
    NoSeparator(r);
    hide AccessText;
    SplitTwice(r.id, AccessText(r), rest);
  }

  lemma SwapNibblesFixed(a: bv8)
    ensures SwapNibbles(a) == a <==> a < 16 || a >> 4 == a & 0x0F
  {
  }

  /** The record of live rights is read back unchanged if and only if no right mixes
      different allow and deny digits: a denial of bit b alone (an access of 16, 32, 64
      or 128) comes back as a permission of b. */
  lemma {:induction false} RoundTrip(rights: seq<Right>)
    requires forall r :: r in rights ==> Writable(r) && !r.isDeleted && r.level == 0
    ensures Elements(RightsAsString(rights)) == rights
       <==> forall r :: r in rights ==> r.access < 16 || r.access >> 4 == r.access & 0x0F
  {
    ReadWritten(rights);
    assert Elements("") == ReadTokens([""]) == [];
    ReadBackFixed(rights);
  }

  lemma {:induction false} ReadBackFixed(rights: seq<Right>)
    requires forall r :: r in rights ==> !r.isDeleted && r.level == 0
    ensures |ReadBack(rights)| == |rights|
    ensures ReadBack(rights) == rights
       <==> forall r :: r in rights ==> r.access < 16 || r.access >> 4 == r.access & 0x0F
  {
    if rights != [] {
      ReadBackFixed(rights[1..]);
      SwapNibblesFixed(rights[0].access);
      assert rights == [rights[0]] + rights[1..];
      assert ReadBack(rights)[0] == rights[0].(access := SwapNibbles(rights[0].access));
      assert ReadBack(rights)[1..] == ReadBack(rights[1..]);
    }
  }

  /** A denied bit alone is read back as the permission of that bit. */
  lemma DenialReadAsPermission(id: string, b: bv8)
    requires ';' !in id && b in {1, 2, 4, 8}
    ensures Elements(RightsAsString([Right(id, b << 4, NO_MARKER, false, 0)])) == [Right(id, b, NO_MARKER, false, 0)]
  {
    var r := Right(id, b << 4, NO_MARKER, false, 0);
    ReadWritten([r]);
    assert Elements("") == [];
  }
}
