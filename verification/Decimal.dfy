/** Decimal texts and (mantissa, exponent) pairs, and the way from one to the other and
    back. Numbers are 64-bit; an operation that would leave that range is reported as
    `Overflow`. */
module Decimal {
  import opened Cbor
  import CborIndividual
  import opened Wrappers

  const INT64_MIN: int := -0x8000_0000_0000_0000
  const INT64_MAX: int := 0x7FFF_FFFF_FFFF_FFFF

  predicate IsInt64(v: int) { INT64_MIN <= v <= INT64_MAX }

  // ------------------------------------------------------------------ digit strings

  predicate IsDigit(c: char) { '0' <= c <= '9' }

  predicate AllDigits(s: string) { forall c | c in s :: IsDigit(c) }

  function DigitValue(c: char): nat
    requires IsDigit(c)
  {
    (c - '0') as int
  }

  function ValueOf(s: string): nat
    requires AllDigits(s)
  {
    if s == "" then 0 else ValueOf(s[..|s| - 1]) * 10 + DigitValue(s[|s| - 1])
  }

  function DigitOf(d: nat): (c: char)
    requires d < 10
    ensures IsDigit(c) && DigitValue(c) == d
  {
    '0' + d as char
  }

  /** `to_string` of a number that is not negative. */
  function Digits(n: nat): (s: string)
    ensures AllDigits(s) && |s| >= 1
  {
    if n < 10 then [DigitOf(n)] else Digits(n / 10) + [DigitOf(n % 10)]
  }

  function Zeros(n: nat): (s: string)
    ensures |s| == n && AllDigits(s)
  {
    if n == 0 then "" else Zeros(n - 1) + "0"
  }

  // ---------------------------------------------------------------------- `to_int`

  datatype IntRead = Number(v: int) | Invalid | Overflow

  predicate IsSigned(s: string) {
    s != "" && (s[0] == '-' || s[0] == '+')
  }

  function Unsigned(s: string): string {
    if IsSigned(s) then s[1..] else s
  }

  predicate IsNegative(s: string) { s != "" && s[0] == '-' }

  function DigitPrefix(s: string): (p: string)
    ensures AllDigits(p) && p <= s && (p == s <==> AllDigits(s))
  {
    if s != "" && IsDigit(s[0]) then
      var rest := DigitPrefix(s[1..]);
      assert s == [s[0]] + s[1..];
      [s[0]] + rest
    else ""
  }

  /** The first thing that goes wrong, or the number. The accumulator is the opposite of the
      digits read, so that it may reach the least 64-bit number; a positive number is
      negated at the end. */
  function IntOf(s: string): IntRead {
    var p := DigitPrefix(Unsigned(s));
    if Unsigned(s) == "" then Invalid
    else if ValueOf(p) > -INT64_MIN then Overflow
    else if p != Unsigned(s) then Invalid
    else if IsNegative(s) then Number(-(ValueOf(p) as int))
    else if ValueOf(p) > INT64_MAX then Overflow
    else Number(ValueOf(p))
  }

  method ToInt(s: string) returns (r: IntRead)
    ensures r == IntOf(s)
  {
    hide ValueOf, DigitPrefix;
    if s == "" {
      return Invalid;
    }
    var negate := s[0] == '-';
    var t := if s[0] == '+' || s[0] == '-' then s[1..] else s;
    if t == "" {
      return Invalid;
    }
    var i := 0;
    var result := 0;
    EmptyValue();
    while i < |t|
      invariant 0 <= i <= |t|
      invariant AllDigits(t[..i]) && result + ValueOf(t[..i]) == 0 && result >= INT64_MIN
    {
      if !IsDigit(t[i]) {
        PrefixEnds(t, i);
        return Invalid;
      }
      OneMoreDigit(t[..i], t[i]);
      assert t[..i + 1] == t[..i] + [t[i]];
      result := result * 10 - DigitValue(t[i]);
      i := i + 1;
      if result < INT64_MIN {
        PrefixGrows(t, i);
        return Overflow;
      }
    }
    assert t[..i] == t;
    r := if negate then Number(result) else if -result > INT64_MAX then Overflow else Number(-result);
  }

  lemma EmptyValue()
    ensures ValueOf("") == 0
  {
  }

  lemma OneMoreDigit(s: string, c: char)
    requires AllDigits(s) && IsDigit(c)
    ensures AllDigits(s + [c]) && ValueOf(s + [c]) == ValueOf(s) * 10 + DigitValue(c)
  {
    assert (s + [c])[..|s|] == s;
  }

  lemma {:induction false} PrefixEnds(s: string, k: nat)
    requires k < |s| && AllDigits(s[..k]) && !IsDigit(s[k])
    ensures DigitPrefix(s) == s[..k]
  {
    if k > 0 {
      assert s[0] in s[..k];
      assert s[1..][..k - 1] == s[..k][1..];
      PrefixEnds(s[1..], k - 1);
    }
  }

  lemma {:induction false} PrefixHolds(s: string, k: nat)
    requires k <= |s| && AllDigits(s[..k])
    ensures k <= |DigitPrefix(s)|
  {
    if k > 0 {
      assert s[0] in s[..k];
      assert s[1..][..k - 1] == s[..k][1..];
      PrefixHolds(s[1..], k - 1);
    }
  }

  lemma {:induction false} ValueGrows(s: string, k: nat)
    requires AllDigits(s) && k <= |s|
    ensures AllDigits(s[..k]) && ValueOf(s[..k]) <= ValueOf(s)
    decreases |s|
  {
    if k == |s| {
      assert s[..k] == s;
    } else {
      ValueGrows(s[..|s| - 1], k);
      assert s[..|s| - 1][..k] == s[..k];
    }
  }

  lemma PrefixGrows(s: string, k: nat)
    requires k <= |s| && AllDigits(s[..k])
    ensures ValueOf(s[..k]) <= ValueOf(DigitPrefix(s))
  {
    PrefixHolds(s, k);
    ValueGrows(DigitPrefix(s), k);
    assert DigitPrefix(s)[..k] == s[..k];
  }

  function SignedValue(s: string): int
    requires AllDigits(Unsigned(s))
  {
    if IsNegative(s) then -(ValueOf(Unsigned(s)) as int) else ValueOf(Unsigned(s)) as int
  }

  /** `to_int` gives a number exactly for an optional sign and digits whose value is a
      64-bit number, and then it is that value. */
  lemma IntOfIsExact(s: string, v: int)
    ensures IntOf(s) == Number(v)
       <==> Unsigned(s) != "" && AllDigits(Unsigned(s)) && IsInt64(v)
            && v == SignedValue(s)
  {
  }

  // ------------------------------------------------------------ from text to numbers

  datatype DecimalRead = Fraction(mantissa: int, exponent: int) | NoFraction(why: IntRead)

  function Find(s: string, c: char): (pos: int)
    ensures -1 <= pos < |s|
    ensures pos >= 0 ==> s[pos] == c && c !in s[..pos]
    ensures pos < 0 ==> c !in s
  {
    if s == "" then -1
    else if s[0] == c then 0
    else
      var pos := Find(s[1..], c);
      assert s == [s[0]] + s[1..];
      if pos < 0 then -1 else
        assert s[..pos + 1] == [s[0]] + s[1..][..pos];
        pos + 1
  }

  function PointOf(s: string): int {
    if Find(s, '.') < 0 then Find(s, ',') else Find(s, '.')
  }

  function Parse(s: string): DecimalRead {
    var pos := PointOf(s);
    if pos > 0 then
      match IntOf(s[..pos] + s[pos + 1..])
      case Number(m) => Fraction(m, -(|s| - pos - 1))
      case why => NoFraction(why)
    else
      match IntOf(s)
      case Number(m) => Fraction(m, 0)
      case why => NoFraction(why)
  }

  // ------------------------------------------------------------ from numbers to text

  datatype TextMade = Made(s: string) | OutOfRange | Overflowed

  /** The zeros the code has in store. */
  const NULLZ: string := Zeros(32)

  /** `exponent_and_mantissa_to_string`. The position of the point is counted from the left
      of the digits; a positive exponent puts it past the last digit, where `substr`
      throws. */
  function TextOf(m: int, e: int): TextMade {
    if m == INT64_MIN then Overflowed
    else
      var digits := Digits(Abs(m));
      var lh := |digits| + e;
      if lh > |digits| then OutOfRange
      else if lh >= 0 then Made(SignOf(m) + Joined(digits[..lh], digits[lh..]))
      else Made(SignOf(m) + Joined("", NULLZ[..if -lh < |NULLZ| then -lh else |NULLZ|] + digits))
  }

  function Joined(slh: string, slr: string): string {
    if slr == "" then slh else (if slh == "" then "0" else slh) + "." + slr
  }

  function Abs(m: int): nat { if m < 0 then -m else m }

  function SignOf(m: int): string { if m < 0 then "-" else "" }

  // -------------------------------------------------------------- digits and values

  lemma {:induction false} ValueOfDigits(n: nat)
    ensures ValueOf(Digits(n)) == n
    ensures n > 0 ==> Digits(n)[0] != '0'
  {
    var s := Digits(n);
    if n >= 10 {
      ValueOfDigits(n / 10);
      assert s[..|s| - 1] == Digits(n / 10);
    } else {
      assert s[..0] == "";
    }
  }

  /** Digit strings that start with no zero are the digits of their value. */
  lemma {:induction false} DigitsOfValue(s: string)
    requires AllDigits(s) && s != "" && (s[0] != '0' || |s| == 1)
    ensures Digits(ValueOf(s)) == s
    decreases |s|
  {
    var init, last := s[..|s| - 1], s[|s| - 1];
    assert s == init + [last];
    OneChar(last);
    if |s| == 1 {
      assert init == "";
    } else {
      assert init[0] == s[0];
      DigitsOfValue(init);
      Positive(init);
      assert ValueOf(s) / 10 == ValueOf(init) && ValueOf(s) % 10 == DigitValue(last);
    }
  }

  lemma OneChar(c: char)
    requires IsDigit(c)
    ensures DigitOf(DigitValue(c)) == c
  {
  }

  lemma Positive(s: string)
    requires AllDigits(s) && s != "" && s[0] != '0'
    ensures ValueOf(s) > 0
  {
    hide ValueOf;
    assert s[0] in s;
    EmptyValue();
    OneMoreDigit("", s[0]);
    assert s[..1] == "" + [s[0]];
    ValueGrows(s, 1);
  }

  lemma {:induction false} LeadingZeros(k: nat, s: string)
    requires AllDigits(s)
    ensures AllDigits(Zeros(k) + s) && ValueOf(Zeros(k) + s) == ValueOf(s)
    decreases |s|, k
  {
    var t := Zeros(k) + s;
    if s == "" {
      assert t == Zeros(k);
      if k > 0 {
        assert t[..|t| - 1] == Zeros(k - 1) + "";
        LeadingZeros(k - 1, "");
        assert ValueOf(t) == ValueOf(t[..|t| - 1]) * 10 + DigitValue('0');
      }
    } else {
      LeadingZeros(k, s[..|s| - 1]);
      assert t[..|t| - 1] == Zeros(k) + s[..|s| - 1];
    }
  }

  lemma {:induction false} ZerosTaken(n: nat, k: nat)
    requires k <= n
    ensures Zeros(n)[..k] == Zeros(k)
  {
    if k == n {
      assert Zeros(n)[..k] == Zeros(n);
    } else {
      ZerosTaken(n - 1, k);
      assert Zeros(n)[..k] == Zeros(n - 1)[..k];
    }
  }

  // ------------------------------------------------------- the round trips

  /** The digits left of the point, as `TextOf` writes them. */
  predicate IsWhole(s: string) {
    AllDigits(s) && s != "" && (s[0] != '0' || |s| == 1)
  }

  /** A text as `TextOf` writes it: an optional minus, a whole part without leading zeros
      and, after a point, at least one digit; zero has no minus. */
  predicate Canonical(s: string) {
    var body := if IsNegative(s) then s[1..] else s;
    var pos := Find(body, '.');
    && (if pos < 0 then IsWhole(body) else IsWhole(body[..pos]) && pos + 1 < |body| && AllDigits(body[pos + 1..]))
    && (IsNegative(s) ==> exists c | c in body :: c != '0' && c != '.')
  }

  lemma {:induction false} FindSplit(s: string, t: string, c: char)
    requires c !in s
    ensures Find(s + [c] + t, c) == |s|
  {
    if s == "" {
    } else {
      assert (s + [c] + t)[1..] == s[1..] + [c] + t;
      FindSplit(s[1..], t, c);
    }
  }

  lemma FindNone(s: string, c: char)
    requires c !in s
    ensures Find(s, c) == -1
  {
  }

  lemma UnsignedDigits(sign: string, ds: string)
    requires AllDigits(ds) && ds != "" && sign in {"", "-"}
    ensures Unsigned(sign + ds) == ds && (IsNegative(sign + ds) <==> sign == "-")
  {
    assert ds[0] in ds;
  }

  /** The value of a signed digit string is found whatever zeros come first. */
  lemma SignedDigits(m: int, k: nat)
    requires INT64_MIN < m <= INT64_MAX
    ensures IntOf(SignOf(m) + Zeros(k) + Digits(Abs(m))) == Number(m)
  {
    hide IntOf, ValueOf, Digits, Zeros, Unsigned, IsNegative;
    var ds := Zeros(k) + Digits(Abs(m));
    LeadingZeros(k, Digits(Abs(m)));
    ValueOfDigits(Abs(m));
    UnsignedDigits(SignOf(m), ds);
    IntOfIsExact(SignOf(m) + ds, m);
    assert SignOf(m) + ds == SignOf(m) + Zeros(k) + Digits(Abs(m));
  }

  /** The text made for a number, in two parts. */
  function Whole(m: int, e: int): (s: string)
    ensures AllDigits(s)
  {
    var ds := Digits(Abs(m));
    if |ds| + e > 0 && e <= 0 then ds[..|ds| + e] else "0"
  }

  function Part(m: int, e: int): (s: string)
    requires e <= 0
    ensures AllDigits(s) && |s| == -e
  {
    var ds := Digits(Abs(m));
    if |ds| + e >= 0 then ds[|ds| + e..] else Zeros(-|ds| - e) + ds
  }

  lemma TextOfIs(m: int, e: int)
    requires m != INT64_MIN && e <= 0 && |Digits(Abs(m))| + e >= -32
    ensures TextOf(m, e) == Made(SignOf(m) + if e == 0 then Whole(m, e) else Whole(m, e) + "." + Part(m, e))
  {
    hide Digits, ValueOf, Zeros, Joined;
    var ds := Digits(Abs(m));
    var lh := |ds| + e;
    if lh < 0 {
      ZerosTaken(32, -lh);
      JoinedIs("", Part(m, e));
    } else if e == 0 {
      assert ds[..|ds|] == ds && ds[|ds|..] == "";
      JoinedIs(ds, "");
    } else {
      JoinedIs(ds[..lh], ds[lh..]);
    }
  }

  lemma JoinedIs(w: string, f: string)
    ensures Joined(w, f) == if f == "" then w else if w == "" then "0" + "." + f else w + "." + f
  {
  }

  lemma {:induction false} ZerosFront(n: nat)
    ensures Zeros(n + 1) == "0" + Zeros(n)
  {
    if n > 0 {
      ZerosFront(n - 1);
    }
  }

  /** The two parts together are the digits, after some zeros. */
  lemma PartsAreDigits(m: int, e: int) returns (k: nat)
    requires e <= 0
    ensures Whole(m, e) + Part(m, e) == Zeros(k) + Digits(Abs(m))
  {
    hide Digits;
    var ds := Digits(Abs(m));
    if |ds| + e > 0 {
      k := 0;
    } else {
      k := 1 - |ds| - e;
      ZerosFront(-|ds| - e);
      assert Zeros(0) == "";
      assert |ds| + e == 0 ==> ds[0..] == ds;
    }
  }

  /** Where a text with a point is split, and what the reader makes of it. */
  lemma ParsePoint(head: string, tail: string)
    requires '.' !in head && head != ""
    ensures Parse(head + "." + tail)
         == match IntOf(head + tail) { case Number(m) => Fraction(m, -|tail|) case why => NoFraction(why) }
  {
    hide IntOf, Find;
    var s := head + "." + tail;
    FindSplit(head, tail, '.');
    assert s == head + ['.'] + tail;
    assert s[..|head|] == head && s[|head| + 1..] == tail;
  }

  lemma ParseWhole(s: string)
    requires '.' !in s && ',' !in s
    ensures Parse(s) == match IntOf(s) { case Number(m) => Fraction(m, 0) case why => NoFraction(why) }
  {
    FindNone(s, '.');
    FindNone(s, ',');
  }

  lemma NoPoint(m: int, e: int)
    ensures var head := SignOf(m) + Whole(m, e); '.' !in head && ',' !in head && head != ""
  {
    hide Digits;
  }

  lemma TextParses(m: int, e: int)
    requires INT64_MIN < m <= INT64_MAX && e <= 0 && |Digits(Abs(m))| + e >= -32
    ensures TextOf(m, e).Made? && Parse(TextOf(m, e).s) == Fraction(m, e)
  {
    hide IntOf, TextOf, Digits, Parse, Zeros, Find, AllDigits;
    TextOfIs(m, e);
    var k := PartsAreDigits(m, e);
    SignedDigits(m, k);
    NoPoint(m, e);
    hide Whole;
    var head := SignOf(m) + Whole(m, e);
    if e == 0 {
      assert Whole(m, e) + Part(m, e) == Whole(m, e);
      Regroup(SignOf(m), Zeros(k), Digits(Abs(m)));
      ParseWhole(head);
    } else {
      hide Part, SignOf;
      Regroup(SignOf(m), Whole(m, e), Part(m, e));
      Regroup(SignOf(m), Zeros(k), Digits(Abs(m)));
      ParsePoint(head, Part(m, e));
      Regroup(SignOf(m), Whole(m, e) + ".", Part(m, e));
      Regroup(SignOf(m), Whole(m, e), ".");
    }
  }

  lemma Regroup(s: string, t: string, u: string)
    ensures s + (t + u) == s + t + u
  {
  }

  /** A number made into text is read back if and only if it has no positive exponent, not
      more zeros after the point than the code has in store, and is not the least number. */
  lemma NumbersSurvive(m: int, e: int)
    requires IsInt64(m)
    ensures TextOf(m, e).Made? && Parse(TextOf(m, e).s) == Fraction(m, e)
       <==> m != INT64_MIN && e <= 0 && |Digits(Abs(m))| + e >= -32
  {
    hide IntOf, Digits, Parse;
    if m != INT64_MIN && e <= 0 {
      if |Digits(Abs(m))| + e >= -32 {
        TextParses(m, e);
      } else {
        var head, tail := SignOf(m) + "0", NULLZ + Digits(Abs(m));
        ZerosTaken(32, 32);
        assert TextOf(m, e).s == head + "." + tail;
        ParsePoint(head, tail);
      }
    }
  }

  // ----------------------------------------------------------- from a text and back

  lemma WholeIsWhole(m: int, e: int)
    ensures IsWhole(Whole(m, e))
  {
    ValueOfDigits(Abs(m));
  }

  lemma NotZero(m: int, e: int)
    requires m != 0 && e <= 0
    ensures exists c | c in Whole(m, e) + Part(m, e) :: c != '0'
  {
    hide Whole, Part, Digits;
    var k := PartsAreDigits(m, e);
    ValueOfDigits(Abs(m));
    assert Digits(Abs(m))[0] in Zeros(k) + Digits(Abs(m));
  }

  lemma MadeIsCanonical(m: int, e: int)
    requires m != INT64_MIN && e <= 0 && |Digits(Abs(m))| + e >= -32
    ensures Canonical(TextOf(m, e).s)
  {
    hide Digits, TextOf, Part, Whole, Find;
    TextOfIs(m, e);
    WholeIsWhole(m, e);
    var w, f := Whole(m, e), Part(m, e);
    var body := if e == 0 then w else w + "." + f;
    var s := SignOf(m) + body;
    assert w[0] in w;
    assert (if IsNegative(s) then s[1..] else s) == body;
    if e == 0 {
      FindNone(w, '.');
    } else {
      FindSplit(w, f, '.');
      assert body == w + ['.'] + f;
      assert body[..|w|] == w && body[|w| + 1..] == f;
    }
    if m < 0 {
      NotZero(m, e);
      var c :| c in w + f && c != '0';
      assert e == 0 ==> w + f == w;
      assert c in body;
    }
  }

  lemma {:induction false} NonZeroIsPositive(s: string, c: char)
    requires AllDigits(s) && c in s && c != '0'
    ensures ValueOf(s) > 0
  {
    var init, last := s[..|s| - 1], s[|s| - 1];
    assert s == init + [last];
    if c in init {
      NonZeroIsPositive(init, c);
    }
  }

  lemma {:induction false} StripZeros(f: string) returns (k: nat, g: string)
    requires AllDigits(f) && f != ""
    ensures f == Zeros(k) + g && IsWhole(g)
  {
    if f[0] == '0' && |f| > 1 {
      k, g := StripZeros(f[1..]);
      ZerosFront(k);
      k := k + 1;
      assert f == "0" + f[1..];
    } else {
      k, g := 0, f;
    }
  }

  lemma AfterZero(m: int, f: string)
    requires AllDigits(f) && f != "" && Abs(m) == ValueOf(f)
    ensures Whole(m, -|f|) == "0" && Part(m, -|f|) == f
  {
    hide Digits, ValueOf, Zeros;
    var k, g := StripZeros(f);
    LeadingZeros(k, g);
    DigitsOfValue(g);
    assert Digits(Abs(m)) == g && |f| == k + |g|;
    assert k == 0 ==> Zeros(k) + g == g;
  }

  /** A whole part and a part after the point come out of `TextOf` as they are. */
  lemma PartsComeBack(m: int, w: string, f: string)
    requires IsWhole(w) && AllDigits(f) && AllDigits(w + f) && Abs(m) == ValueOf(w + f)
    ensures Whole(m, -|f|) == w && Part(m, -|f|) == f
  {
    hide Digits, ValueOf;
    if w[0] != '0' || f == "" {
      DigitsOfValue(w + f);
      assert Digits(Abs(m)) == w + f;
      assert (w + f)[..|w|] == w && (w + f)[|w|..] == f;
    } else {
      hide Whole, Part;
      ZerosFront(0);
      assert w == Zeros(1);
      LeadingZeros(1, f);
      AfterZero(m, f);
    }
  }

  lemma SignIs(t: string, sign: string, ds: string, m: int)
    requires sign == (if IsNegative(t) then "-" else "") && IntOf(sign + ds) == Number(m)
    requires AllDigits(ds) && ds != "" && (IsNegative(t) ==> exists c | c in ds :: c != '0')
    ensures Abs(m) == ValueOf(ds) && (m < 0 <==> IsNegative(t))
  {
    hide IntOf, ValueOf;
    UnsignedDigits(sign, ds);
    IntOfIsExact(sign + ds, m);
    if IsNegative(t) {
      var c :| c in ds && c != '0';
      NonZeroIsPositive(ds, c);
    }
  }

  lemma PointComesBack(t: string, sign: string, w: string, f: string, m: int, e: int)
    requires sign == (if IsNegative(t) then "-" else "") && t == sign + w + "." + f && Parse(t) == Fraction(m, e)
    requires IsWhole(w) && AllDigits(f) && f != "" && m != INT64_MIN && |Digits(Abs(m))| + e >= -32
    requires IsNegative(t) ==> exists c | c in w + f :: c != '0'
    ensures TextOf(m, e) == Made(t)
  {
    hide IntOf, Digits, TextOf, Part, Whole, ValueOf, Parse;
    ParsePoint(sign + w, f);
    assert sign + w + f == sign + (w + f);
    assert AllDigits(w + f);
    assert IntOf(sign + (w + f)) == Number(m) && e == -|f|;
    SignIs(t, sign, w + f, m);
    PartsComeBack(m, w, f);
    TextOfIs(m, e);
    assert sign + (w + "." + f) == t;
  }

  lemma WholeComesBack(t: string, sign: string, w: string, m: int, e: int)
    requires sign == (if IsNegative(t) then "-" else "") && t == sign + w && Parse(t) == Fraction(m, e)
    requires IsWhole(w) && m != INT64_MIN && |Digits(Abs(m))| + e >= -32
    requires IsNegative(t) ==> exists c | c in w :: c != '0'
    ensures TextOf(m, e) == Made(t)
  {
    hide IntOf, Digits, TextOf, Part, Whole, ValueOf, Parse;
    ParseWhole(t);
    SignIs(t, sign, w, m);
    assert w + "" == w;
    PartsComeBack(m, w, "");
    TextOfIs(m, e);
  }

  lemma CanonicalComesBack(t: string, m: int, e: int)
    requires Parse(t) == Fraction(m, e) && Canonical(t) && m != INT64_MIN && |Digits(Abs(m))| + e >= -32
    ensures TextOf(m, e) == Made(t)
  {
    hide IntOf, Digits, TextOf, Find, Parse, IsWhole, AllDigits;
    var sign, body := if IsNegative(t) then "-" else "", if IsNegative(t) then t[1..] else t;
    assert t == sign + body;
    var pos := Find(body, '.');
    if pos < 0 {
      if IsNegative(t) {
        var c :| c in body && c != '0' && c != '.';
      }
      WholeComesBack(t, sign, body, m, e);
    } else {
      var w, f := body[..pos], body[pos + 1..];
      CutAt(body, pos, '.');
      if IsNegative(t) {
        var c :| c in body && c != '0' && c != '.';
        assert c in w + f;
      }
      hide Canonical;
      Regroup(sign, w + ".", f);
      Regroup(sign, w, ".");
      PointComesBack(t, sign, w, f, m, e);
    }
  }

  lemma CutAt(s: string, pos: nat, c: char)
    requires pos < |s| && s[pos] == c
    ensures s == s[..pos] + [c] + s[pos + 1..]
    ensures forall d | d in s && d != c :: d in s[..pos] + s[pos + 1..]
  {
  }

  /** A text the writer can read comes back the same if and only if it is canonical, has not
      more zeros after the point than the code has in store, and is not the least number. */
  lemma TextSurvives(t: string, m: int, e: int)
    requires Parse(t) == Fraction(m, e)
    ensures TextOf(m, e) == Made(t) <==> Canonical(t) && |Digits(Abs(m))| + e >= -32 && m != INT64_MIN
  {
    hide Canonical;
    if TextOf(m, e) == Made(t) {
      ParsedIsInt64(t, m, e);
      NumbersSurvive(m, e);
      MadeIsCanonical(m, e);
    } else if Canonical(t) && |Digits(Abs(m))| + e >= -32 && m != INT64_MIN {
      CanonicalComesBack(t, m, e);
    }
  }

  lemma ParsedIsInt64(t: string, m: int, e: int)
    requires Parse(t) == Fraction(m, e)
    ensures IsInt64(m)
  {
    hide Find;
  }

  /** A decimal text that survives the two conversions also survives the bytes between
      them: what is decoded from the encoded value makes the same text. */
  lemma TextThroughBytes(t: string, m: int, e: int)
    requires Parse(t) == Fraction(m, e) && Canonical(t) && |Digits(Abs(m))| + e >= -32
    requires m != INT64_MIN && |t| < INT64_MAX
    ensures var bytes := CborIndividual.EncodeValue(HEADS, CborIndividual.Decimal(m, e));
            var read := CborIndividual.DecodeValue(SourceOf(bytes), 0, NONE);
            && read.Some? && read.value.0 == |bytes| && read.value.2.Some? && read.value.2.value.Decimal?
            && TextOf(read.value.2.value.mantissa, read.value.2.value.exponent) == Made(t)
  {
    hide Canonical, Parse, TextOf, Digits, CborIndividual.DecodeValue;
    var bytes := CborIndividual.EncodeValue(HEADS, CborIndividual.Decimal(m, e));
    TextSurvives(t, m, e);
    ParsedIsInt64(t, m, e);
    ExponentIsShort(t, m, e);
    hide HEADS;
    HeadsInvert(bytes);
    assert At(bytes, 0, bytes);
    CborIndividual.DecimalReadBack(HEADS, SourceOf(bytes), 0, NONE, m, e);
  }

  lemma ExponentIsShort(t: string, m: int, e: int)
    requires Parse(t) == Fraction(m, e)
    ensures -|t| <= e <= 0
  {
    hide IntOf;
  }
}
