/** SHA-256 as the script computes it, on numbers that are sometimes signed and sometimes not
    yet reduced, against sections 5 and 6.2 of FIPS 180-4. */
module Sha256 {

  type Byte = x: int | 0 <= x < 256

  const WORDS: int := 0x1_0000_0000

  /** A 32-bit word; addition of words is modulo 2^32. */
  type Word = x: int | 0 <= x < WORDS

  /** A number that a double holds exactly. */
  type Number = x: int | -0x20_0000_0000_0000 < x < 0x20_0000_0000_0000

  function Mod(n: int): Word { n % WORDS }

  /** What the bitwise operators give: the word, read as a signed number. */
  function ToInt32(n: int): Number {
    if Mod(n) >= 0x8000_0000 then Mod(n) - WORDS else Mod(n)
  }

  // ---------------------------------------------------- functions of section 4.1.2

  function RotR(x: bv32, n: nat): bv32
    requires 0 < n < 32
  {
    (x >> n) | (x << (32 - n))
  }

  /** The two shifts are a rotation to the right. */
  lemma RotRRotates(x: bv32)
    ensures RotR(x, 2) == x.RotateRight(2) && RotR(x, 6) == x.RotateRight(6) && RotR(x, 7) == x.RotateRight(7)
    ensures RotR(x, 11) == x.RotateRight(11) && RotR(x, 13) == x.RotateRight(13) && RotR(x, 17) == x.RotateRight(17)
    ensures RotR(x, 18) == x.RotateRight(18) && RotR(x, 19) == x.RotateRight(19)
    ensures RotR(x, 22) == x.RotateRight(22) && RotR(x, 25) == x.RotateRight(25)
  {
  }

  function ChBits(u: bv32, v: bv32, w: bv32): bv32 {
    (u & v) ^ (!u & w)
  }

  /** `Ch` chooses: the bits of `v` where `u` has a one, the bits of `w` elsewhere. */
  lemma ChChooses(u: bv32, v: bv32, w: bv32)
    ensures ChBits(u, v, w) & u == v & u && ChBits(u, v, w) & !u == w & !u
  {
  }

  function MajBits(u: bv32, v: bv32, w: bv32): bv32 {
    (u & v) ^ (u & w) ^ (v & w)
  }

  /** `Maj` has a one where two of the three have one. */
  lemma MajIsMajority(u: bv32, v: bv32, w: bv32)
    ensures MajBits(u, v, w) == (u & v) | (u & w) | (v & w)
  {
  }

  function BigSigma0Bits(x: bv32): bv32 {
    RotR(x, 2) ^ RotR(x, 13) ^ RotR(x, 22)
  }

  function BigSigma0(x: Word): Word {
    BigSigma0Bits(x as bv32) as int
  }

  function BigSigma1Bits(x: bv32): bv32 {
    RotR(x, 6) ^ RotR(x, 11) ^ RotR(x, 25)
  }

  function BigSigma1(x: Word): Word {
    BigSigma1Bits(x as bv32) as int
  }

  function SmallSigma0Bits(x: bv32): bv32 {
    RotR(x, 7) ^ RotR(x, 18) ^ (x >> 3)
  }

  function SmallSigma0(x: Word): Word {
    SmallSigma0Bits(x as bv32) as int
  }

  function SmallSigma1Bits(x: bv32): bv32 {
    RotR(x, 17) ^ RotR(x, 19) ^ (x >> 10)
  }

  function SmallSigma1(x: Word): Word {
    SmallSigma1Bits(x as bv32) as int
  }

  function Ch(x: Word, y: Word, z: Word): Word {
    ChBits(x as bv32, y as bv32, z as bv32) as int
  }

  function Maj(x: Word, y: Word, z: Word): Word {
    MajBits(x as bv32, y as bv32, z as bv32) as int
  }

  const K: seq<Word> :=
    [0x428a2f98, 0x71374491, 0xb5c0fbcf, 0xe9b5dba5, 0x3956c25b, 0x59f111f1, 0x923f82a4, 0xab1c5ed5,
     0xd807aa98, 0x12835b01, 0x243185be, 0x550c7dc3, 0x72be5d74, 0x80deb1fe, 0x9bdc06a7, 0xc19bf174] +
    [0xe49b69c1, 0xefbe4786, 0x0fc19dc6, 0x240ca1cc, 0x2de92c6f, 0x4a7484aa, 0x5cb0a9dc, 0x76f988da,
     0x983e5152, 0xa831c66d, 0xb00327c8, 0xbf597fc7, 0xc6e00bf3, 0xd5a79147, 0x06ca6351, 0x14292967] +
    [0x27b70a85, 0x2e1b2138, 0x4d2c6dfc, 0x53380d13, 0x650a7354, 0x766a0abb, 0x81c2c92e, 0x92722c85,
     0xa2bfe8a1, 0xa81a664b, 0xc24b8b70, 0xc76c51a3, 0xd192e819, 0xd6990624, 0xf40e3585, 0x106aa070] +
    [0x19a4c116, 0x1e376c08, 0x2748774c, 0x34b0bcb5, 0x391c0cb3, 0x4ed8aa4a, 0x5b9cca4f, 0x682e6ff3,
     0x748f82ee, 0x78a5636f, 0x84c87814, 0x8cc70208, 0x90befffa, 0xa4506ceb, 0xbef9a3f7, 0xc67178f2]

  function Constant(t: nat): Word
    requires t < 64
  {
    K[t]
  }

  // ------------------------------------------------------- computation of section 6.2.2

  datatype Vars = Vars(a: Word, b: Word, c: Word, d: Word, e: Word, f: Word, g: Word, h: Word)

  const INITIAL := Vars(0x6a09e667, 0xbb67ae85, 0x3c6ef372, 0xa54ff53a, 0x510e527f, 0x9b05688c, 0x1f83d9ab, 0x5be0cd19)

  type Block = m: seq<Word> | |m| == 16 witness seq(16, _ => 0)

  function Schedule(m: Block, t: nat): Word
    decreases t
  {
    if t < 16 then m[t]
    else Mod(SmallSigma1(Schedule(m, t - 2)) + Schedule(m, t - 7) + SmallSigma0(Schedule(m, t - 15)) + Schedule(m, t - 16))
  }

  function Round(v: Vars, k: Word, w: Word): Vars {
    var t1 := Mod(v.h + BigSigma1(v.e) + Ch(v.e, v.f, v.g) + k + w);
    var t2 := Mod(BigSigma0(v.a) + Maj(v.a, v.b, v.c));
    Vars(Mod(t1 + t2), v.a, v.b, v.c, Mod(v.d + t1), v.e, v.f, v.g)
  }

  function Rounds(v: Vars, m: Block, n: nat): Vars
    requires n <= 64
  {
    if n == 0 then v else Round(Rounds(v, m, n - 1), Constant(n - 1), Schedule(m, n - 1))
  }

  function Plus(v: Vars, w: Vars): Vars {
    Vars(Mod(v.a + w.a), Mod(v.b + w.b), Mod(v.c + w.c), Mod(v.d + w.d),
         Mod(v.e + w.e), Mod(v.f + w.f), Mod(v.g + w.g), Mod(v.h + w.h))
  }

  function Compress(v: Vars, m: Block): Vars {
    Plus(v, Rounds(v, m, 64))
  }

  function HashBlocks(blocks: seq<Block>): Vars {
    if blocks == [] then INITIAL else Compress(HashBlocks(blocks[..|blocks| - 1]), blocks[|blocks| - 1])
  }

  // ----------------------------------------------------------- padding of section 5.1.1

  function Zeros(n: nat): (z: seq<Byte>)
    ensures |z| == n && forall i | 0 <= i < n :: z[i] == 0
  {
    if n == 0 then [] else Zeros(n - 1) + [0]
  }

  /** The length in bits, as 64 bits. */
  function LengthBytes(bits: nat): (b: seq<Byte>)
    ensures |b| == 8
  {
    BigEndian(bits / WORDS % WORDS) + BigEndian(bits % WORDS)
  }

  function BigEndian(w: Word): (b: seq<Byte>)
    ensures |b| == 4
  {
    [w / 0x100_0000, w / 0x1_0000 % 0x100, w / 0x100 % 0x100, w % 0x100]
  }

  function FromBigEndian(b0: Byte, b1: Byte, b2: Byte, b3: Byte): Word {
    b0 * 0x100_0000 + b1 * 0x1_0000 + b2 * 0x100 + b3
  }

  /** With `z` zero bytes, the byte 0x80 and the length, `n` bytes end at the end of a block. */
  predicate FillsBlock(n: nat, z: nat) {
    (n + 1 + z + 8) % 64 == 0
  }

  /** The fewest zero bytes after the byte 0x80 that leave room for the length at the end of
      a block of 64 bytes. */
  function ZerosNeeded(n: nat): (z: nat)
    ensures z < 64 && FillsBlock(n, z) && forall y: nat | FillsBlock(n, y) :: z <= y
  {
    (119 - n % 64) % 64
  }

  function Padded(msg: seq<Byte>): seq<Byte> {
    msg + [0x80] + Zeros(ZerosNeeded(|msg|)) + LengthBytes(8 * |msg|)
  }

  function WordAt(b: seq<Byte>, i: nat): Word
    requires i + 4 <= |b|
  {
    FromBigEndian(b[i], b[i + 1], b[i + 2], b[i + 3])
  }

  function BlockAt(b: seq<Byte>, i: nat): Block
    requires 64 * i + 64 <= |b|
  {
    seq(16, j requires 0 <= j < 16 => WordAt(b, 64 * i + 4 * j))
  }

  function Blocks(b: seq<Byte>, n: nat): (blocks: seq<Block>)
    requires 64 * n <= |b|
    ensures |blocks| == n
  {
    if n == 0 then [] else Blocks(b, n - 1) + [BlockAt(b, n - 1)]
  }

  function Hex(n: Word, digits: nat): (s: string)
    ensures |s| == digits
  {
    if digits == 0 then "" else Hex(n / 16, digits - 1) + [HexDigit(n % 16)]
  }

  function HexDigit(d: int): char
    requires 0 <= d < 16
  {
    if d < 10 then '0' + d as char else 'a' + (d - 10) as char
  }

  function HexOf(v: Vars): string {
    Hex(v.a, 8) + Hex(v.b, 8) + Hex(v.c, 8) + Hex(v.d, 8) + Hex(v.e, 8) + Hex(v.f, 8) + Hex(v.g, 8) + Hex(v.h, 8)
  }

  /** SHA-256 of a message. */
  function Digest(msg: seq<Byte>): string {
    var padded := Padded(msg);
    HexOf(HashBlocks(Blocks(padded, |padded| / 64)))
  }

  // ------------------------------------------------------------- arithmetic of words

  lemma ModOfInt32(n: int)
    ensures Mod(ToInt32(n)) == Mod(n)
    ensures -0x8000_0000 <= ToInt32(n) < 0x8000_0000
  {
  }

  lemma ModPlus(x: int, y: int)
    ensures Mod(x + y) == Mod(Mod(x) + Mod(y)) == Mod(x + Mod(y))
  {
  }

  lemma ModSum4(x: int, y: int, z: int, w: int)
    ensures Mod(x + y + z + w) == Mod(Mod(x) + Mod(y) + Mod(z) + Mod(w))
  {
    hide Mod;
    ModPlus(x, y);
    ModPlus(x + y, z);
    ModPlus(Mod(x) + Mod(y), z);
    ModPlus(x + y + z, w);
    ModPlus(Mod(x) + Mod(y) + Mod(z), w);
  }

  lemma ModSum5(x: int, y: int, z: int, w: int, v: int)
    ensures Mod(x + y + z + w + v) == Mod(Mod(x) + Mod(y) + Mod(z) + Mod(w) + Mod(v))
  {
    hide Mod;
    ModSum4(x, y, z, w);
    ModPlus(x + y + z + w, v);
    ModPlus(Mod(x) + Mod(y) + Mod(z) + Mod(w), v);
  }

  /** The script's functions of words: the operands are taken modulo 2^32, the result is
      signed. */
  function JsBigSigma0(x: Number): Number { ToInt32(BigSigma0(Mod(x))) }

  function JsBigSigma1(x: Number): Number { ToInt32(BigSigma1(Mod(x))) }

  function JsSmallSigma0(x: Number): Number { ToInt32(SmallSigma0(Mod(x))) }

  function JsSmallSigma1(x: Number): Number { ToInt32(SmallSigma1(Mod(x))) }

  function JsCh(x: Number, y: Number, z: Number): Number { ToInt32(Ch(Mod(x), Mod(y), Mod(z))) }

  function JsMaj(x: Number, y: Number, z: Number): Number { ToInt32(Maj(Mod(x), Mod(y), Mod(z))) }

  /** A variable of the loop: signed, 32 bits. */
  predicate Is32(n: int) { -0x8000_0000 <= n < WORDS }

  /** The schedule: words 0 to 15 are the block's, the others are reduced to 32 bits. */
  method PrepareSchedule(m: array2<Number>, i: nat, w: array<Number>, ghost block: Block)
    requires i < m.Length0 && m.Length1 == 16 && w.Length == 64
    requires forall j | 0 <= j < 16 :: Is32(m[i, j]) && Mod(m[i, j]) == block[j]
    modifies w
    ensures forall t | 0 <= t < 64 :: Is32(w[t]) && Mod(w[t]) == Schedule(block, t)
  {
    hide Schedule, SmallSigma0, SmallSigma1, Mod, ToInt32;
    for t := 0 to 16
      invariant forall s | 0 <= s < t :: Is32(w[s]) && Mod(w[s]) == Schedule(block, s)
    {
      w[t] := m[i, t];
      ScheduleStart(block, t);
    }
    for t := 16 to 64
      invariant forall s | 0 <= s < t :: Is32(w[s]) && Mod(w[s]) == Schedule(block, s)
    {
      ScheduleStep(block, t, w[t - 2], w[t - 7], w[t - 15], w[t - 16]);
      var sum: Number := JsSmallSigma1(w[t - 2]) + w[t - 7] + JsSmallSigma0(w[t - 15]) + w[t - 16];
      w[t] := ToInt32(sum);
    }
  }

  lemma ScheduleStart(m: Block, t: nat)
    requires t < 16
    ensures Schedule(m, t) == m[t]
  {
  }

  lemma ScheduleStep(m: Block, t: nat, w2: Number, w7: Number, w15: Number, w16: Number)
    requires 16 <= t < 64 && Is32(w2) && Is32(w7) && Is32(w15) && Is32(w16)
    requires Mod(w2) == Schedule(m, t - 2) && Mod(w7) == Schedule(m, t - 7)
    requires Mod(w15) == Schedule(m, t - 15) && Mod(w16) == Schedule(m, t - 16)
    ensures var sum := JsSmallSigma1(w2) + w7 + JsSmallSigma0(w15) + w16;
            && -0x20_0000_0000_0000 < sum < 0x20_0000_0000_0000
            && Is32(ToInt32(sum)) && Mod(ToInt32(sum)) == Schedule(m, t)
  {
    hide SmallSigma0, SmallSigma1, Mod, ToInt32;
    SignedWord(SmallSigma1(Mod(w2)));
    SignedWord(SmallSigma0(Mod(w15)));
    ModSum4(JsSmallSigma1(w2), w7, JsSmallSigma0(w15), w16);
    ModOfInt32(JsSmallSigma1(w2) + w7 + JsSmallSigma0(w15) + w16);
  }

  lemma SignedWord(x: Word)
    ensures Mod(ToInt32(x)) == x && -0x8000_0000 <= ToInt32(x) < 0x8000_0000
  {
  }

  // ------------------------------------------------------------------- the main loop

  /** The numbers stand for the words of `v`. */
  predicate Stands(v: Vars, a: Number, b: Number, c: Number, d: Number, e: Number, f: Number, g: Number, h: Number) {
    && Is32(a) && Is32(b) && Is32(c) && Is32(d) && Is32(e) && Is32(f) && Is32(g) && Is32(h)
    && Mod(a) == v.a && Mod(b) == v.b && Mod(c) == v.c && Mod(d) == v.d
    && Mod(e) == v.e && Mod(f) == v.f && Mod(g) == v.g && Mod(h) == v.h
  }

  /** One round with the sums reduced late. */
  lemma RoundStep(v: Vars, k: Word, w: Number, a: Number, b: Number, c: Number, d: Number, e: Number, f: Number,
          g: Number, h: Number)
    requires Stands(v, a, b, c, d, e, f, g, h) && Is32(w)
    ensures var t1 := h + JsBigSigma1(e) + JsCh(e, f, g) + k + w;
            var t2 := JsBigSigma0(a) + JsMaj(a, b, c);
            && -0x8_0000_0000 < t1 < 0x8_0000_0000 && -0x4_0000_0000 < t2 < 0x4_0000_0000
            && Stands(Round(v, k, Mod(w)), ToInt32(t1 + t2), a, b, c, ToInt32(d + t1), e, f, g)
  {
    hide BigSigma0, BigSigma1, Ch, Maj, Mod, ToInt32;
    SignedWord(BigSigma1(v.e));
    SignedWord(Ch(v.e, v.f, v.g));
    SignedWord(BigSigma0(v.a));
    SignedWord(Maj(v.a, v.b, v.c));
    var t1 := h + JsBigSigma1(e) + JsCh(e, f, g) + k + w;
    var t2 := JsBigSigma0(a) + JsMaj(a, b, c);
    LateSums(v, k, w, t1, t2, d, h, JsBigSigma1(e), JsCh(e, f, g), JsBigSigma0(a), JsMaj(a, b, c));
  }

  lemma LateSums(v: Vars, k: Word, w: int, t1: int, t2: int, d: int, h: int, s1: int, ch: int, s0: int, maj: int)
    requires t1 == h + s1 + ch + k + w && t2 == s0 + maj
    requires Mod(h) == v.h && Mod(s1) == BigSigma1(v.e) && Mod(ch) == Ch(v.e, v.f, v.g) && Mod(d) == v.d
    requires Mod(s0) == BigSigma0(v.a) && Mod(maj) == Maj(v.a, v.b, v.c)
    ensures var r := Round(v, k, Mod(w));
            && Mod(ToInt32(t1 + t2)) == r.a && Mod(ToInt32(d + t1)) == r.e && Is32(ToInt32(t1 + t2)) && Is32(ToInt32(d + t1))
  {
    hide BigSigma0, BigSigma1, Ch, Maj, Mod, ToInt32;
    ModOfWord(k);
    ModSum5(h, s1, ch, k, w);
    ModPlus(s0, maj);
    ModPlus(t1, t2);
    ModPlus(d, t1);
    ModOfInt32(t1 + t2);
    ModOfInt32(d + t1);
  }

  lemma ModOfWord(x: Word)
    ensures Mod(x) == x
  {
  }

  method MainLoop(hash: array<Number>, w: array<Number>, ghost v: Vars, ghost block: Block)
      returns (a: Number, b: Number, c: Number, d: Number, e: Number, f: Number, g: Number, h: Number)
    requires hash.Length == 8 && w.Length == 64
    requires Stands(v, hash[0], hash[1], hash[2], hash[3], hash[4], hash[5], hash[6], hash[7])
    requires forall t | 0 <= t < 64 :: Is32(w[t]) && Mod(w[t]) == Schedule(block, t)
    ensures Stands(Rounds(v, block, 64), a, b, c, d, e, f, g, h)
  {
    hide Schedule, BigSigma0, BigSigma1, Ch, Maj, Mod, ToInt32, Round, Stands, Constant;
    a, b, c, d, e, f, g, h := hash[0], hash[1], hash[2], hash[3], hash[4], hash[5], hash[6], hash[7];
    for t := 0 to 64
      invariant Stands(Rounds(v, block, t), a, b, c, d, e, f, g, h)
    {
      RoundStep(Rounds(v, block, t), Constant(t), w[t], a, b, c, d, e, f, g, h);
      StandsIs(Rounds(v, block, t), a, b, c, d, e, f, g, h);
      var t1: Number := h + JsBigSigma1(e) + JsCh(e, f, g) + Constant(t) + w[t];
      var t2: Number := JsBigSigma0(a) + JsMaj(a, b, c);
      h := g;
      g := f;
      f := e;
      e := ToInt32(d + t1);
      d := c;
      c := b;
      b := a;
      a := ToInt32(t1 + t2);
    }
  }

  lemma StandsIs(v: Vars, a: Number, b: Number, c: Number, d: Number, e: Number, f: Number, g: Number, h: Number)
    requires Stands(v, a, b, c, d, e, f, g, h)
    ensures Is32(a) && Is32(b) && Is32(c) && Is32(d) && Is32(e) && Is32(f) && Is32(g) && Is32(h)
  {
  }

  lemma SumStep(x: Number, y: Number)
    requires Is32(x) && Is32(y)
    ensures Is32(ToInt32(x + y)) && Mod(ToInt32(x + y)) == Mod(Mod(x) + Mod(y))
  {
    ModPlus(x, y);
    ModOfInt32(x + y);
  }

  /** One block: the new intermediate hash value. */
  method HashBlock(m: array2<Number>, i: nat, hash: array<Number>, w: array<Number>, ghost v: Vars, ghost block: Block)
    requires i < m.Length0 && m.Length1 == 16 && hash.Length == 8 && w.Length == 64 && hash != w
    requires forall j | 0 <= j < 16 :: Is32(m[i, j]) && Mod(m[i, j]) == block[j]
    requires Stands(v, hash[0], hash[1], hash[2], hash[3], hash[4], hash[5], hash[6], hash[7])
    modifies hash, w
    ensures Stands(Compress(v, block), hash[0], hash[1], hash[2], hash[3], hash[4], hash[5], hash[6], hash[7])
  {
    hide Schedule, Rounds, Mod, ToInt32;
    PrepareSchedule(m, i, w, block);
    var a, b, c, d, e, f, g, h := MainLoop(hash, w, v, block);
    SumStep(hash[0], a);
    SumStep(hash[1], b);
    SumStep(hash[2], c);
    SumStep(hash[3], d);
    SumStep(hash[4], e);
    SumStep(hash[5], f);
    SumStep(hash[6], g);
    SumStep(hash[7], h);
    hash[0] := ToInt32(hash[0] + a);
    hash[1] := ToInt32(hash[1] + b);
    hash[2] := ToInt32(hash[2] + c);
    hash[3] := ToInt32(hash[3] + d);
    hash[4] := ToInt32(hash[4] + e);
    hash[5] := ToInt32(hash[5] + f);
    hash[6] := ToInt32(hash[6] + g);
    hash[7] := ToInt32(hash[7] + h);
  }

  // ------------------------------------------------------------------ the blocks

  /** `charCodeAt`, as the bitwise operators take it: nothing counts as zero. */
  function CharCodeAt(s: seq<Byte>, i: nat): Byte {
    if i < |s| then s[i] else 0
  }

  /** Four characters in one number. The shifted bytes do not overlap. */
  function FourChars(s: seq<Byte>, i: nat): Word {
    FromBigEndian(CharCodeAt(s, i), CharCodeAt(s, i + 1), CharCodeAt(s, i + 2), CharCodeAt(s, i + 3))
  }

  function Ceil(x: real): int {
    -(-x).Floor
  }

  lemma CeilIs(x: real, n: int)
    requires (n - 1) as real < x <= n as real
    ensures Ceil(x) == n
  {
  }

  lemma WordsToBlocks(length: nat, n: int)
    requires 64 * (n - 1) < length + 8 <= 64 * n
    ensures Ceil((length as real / 4.0 + 2.0) / 16.0) == n
  {
    var x := (length as real / 4.0 + 2.0) / 16.0;
    var y := length as real;
    assert 64.0 * x == y + 8.0;
    assert 64.0 * (n - 1) as real < y + 8.0 <= 64.0 * n as real;
    CeilIs(x, n);
  }

  /** The number of blocks is the least that holds the message, the byte 0x80 and the
      length. */
  lemma BlockCount(msg: seq<Byte>)
    ensures var n := Ceil(((|msg| + 1) as real / 4.0 + 2.0) / 16.0);
            && n >= 1 && 64 * n == |Padded(msg)| && 64 * (n - 1) < |msg| + 1 + 8 <= 64 * n
  {
    hide Ceil;
    var n := (|msg| + 1 + 8 + 63) / 64;
    WordsToBlocks(|msg| + 1, n);
    PaddedLength(|msg|, n);
  }

  lemma PaddedLength(length: nat, n: nat)
    requires 64 * (n - 1) < length + 1 + 8 <= 64 * n
    ensures length + 1 + ZerosNeeded(length) + 8 == 64 * n
  {
    var z := ZerosNeeded(length);
    NextMultiple(length + 1 + 8, z, n);
  }

  lemma NextMultiple(x: nat, z: nat, n: nat)
    requires z < 64 && (x + z) % 64 == 0 && 64 * (n - 1) < x <= 64 * n
    ensures x + z == 64 * n
  {
    var q := (x + z) / 64;
    assert x + z == 64 * q;
  }

  /** Before the length is written, its two words hold no byte of the message. */
  lemma LengthOverwritesNothing(msg: seq<Byte>, n: nat)
    requires |msg| + 1 + 8 <= 64 * n
    ensures FourChars(msg + [0x80], 64 * (n - 1) + 56) == 0 && FourChars(msg + [0x80], 64 * (n - 1) + 60) == 0
  {
    hide FourChars;
    var s := msg + [0x80];
    assert |s| <= 64 * (n - 1) + 56;
    BehindTheText(s, 64 * (n - 1) + 56);
    BehindTheText(s, 64 * (n - 1) + 60);
  }

  lemma BehindTheText(s: seq<Byte>, i: nat)
    requires |s| <= i
    ensures FourChars(s, i) == 0
  {
  }

  lemma BigEndianRead(w: Word)
    ensures var b := BigEndian(w); FromBigEndian(b[0], b[1], b[2], b[3]) == w
  {
    var q1, q2, q3 := w / 0x100, w / 0x1_0000, w / 0x100_0000;
    assert w == q1 * 0x100 + w % 0x100;
    assert q1 / 0x100 == q2 && q1 == q2 * 0x100 + q1 % 0x100;
    assert q2 / 0x100 == q3 && q2 == q3 * 0x100 + q2 % 0x100;
  }

  lemma PaddedAt(msg: seq<Byte>, p: nat)
    requires p < |Padded(msg)| - 8
    ensures Padded(msg)[p] == CharCodeAt(msg + [0x80], p)
  {
  }

  lemma PaddedEnd(msg: seq<Byte>, k: nat)
    requires k < 8
    ensures Padded(msg)[|Padded(msg)| - 8 + k] == LengthBytes(8 * |msg|)[k]
  {
  }

  /** A word of the message, or of the zeros after it. */
  lemma MessageWord(msg: seq<Byte>, i: nat, j: nat)
    requires j < 16 && 64 * i + 64 <= |Padded(msg)| && 64 * i + 4 * j + 4 <= |Padded(msg)| - 8
    ensures BlockAt(Padded(msg), i)[j] == FourChars(msg + [0x80], 64 * i + 4 * j)
  {
    var p := 64 * i + 4 * j;
    PaddedAt(msg, p);
    PaddedAt(msg, p + 1);
    PaddedAt(msg, p + 2);
    PaddedAt(msg, p + 3);
  }

  lemma LastBytes(msg: seq<Byte>, k: nat, w: Word)
    requires k <= 4 && |Padded(msg)| >= 8 && LengthBytes(8 * |msg|)[k..k + 4] == BigEndian(w)
    ensures WordAt(Padded(msg), |Padded(msg)| - 8 + k) == w
  {
    PaddedEnd(msg, k);
    PaddedEnd(msg, k + 1);
    PaddedEnd(msg, k + 2);
    PaddedEnd(msg, k + 3);
    hide Padded;
    var b := LengthBytes(8 * |msg|);
    assert b[k] == b[k..k + 4][0] && b[k + 1] == b[k..k + 4][1] && b[k + 2] == b[k..k + 4][2] && b[k + 3] == b[k..k + 4][3];
    hide LengthBytes, BigEndian;
    BigEndianRead(w);
  }

  /** The last two words are the length in bits. */
  lemma LengthWords(msg: seq<Byte>, n: nat)
    requires n >= 1 && 64 * n == |Padded(msg)| && 8 * |msg| < 0x20_0000_0000_0000
    ensures BlockAt(Padded(msg), n - 1)[14] == 8 * |msg| / WORDS < WORDS
    ensures BlockAt(Padded(msg), n - 1)[15] == Mod(8 * |msg|)
  {
    hide Padded, WordAt;
    var bits := 8 * |msg|;
    var hi, lo := bits / WORDS, bits % WORDS;
    assert hi < WORDS;
    assert LengthBytes(bits)[0..4] == BigEndian(hi % WORDS) == BigEndian(hi);
    assert LengthBytes(bits)[4..8] == BigEndian(lo);
    LastBytes(msg, 0, hi);
    LastBytes(msg, 4, lo);
  }

  ghost predicate RowStands(m: array2<Number>, i: nat, j: nat, block: Block)
    requires i < m.Length0 && m.Length1 == 16 && j <= 16
    reads m
  {
    forall k | 0 <= k < j :: Is32(m[i, k]) && Mod(m[i, k]) == block[k]
  }

  /** The 16-word blocks, with the length in the last two words. */
  method BuildBlocks(msg: seq<Byte>) returns (m: array2<Number>)
    requires 8 * |msg| < 0x20_0000_0000_0000
    ensures fresh(m) && m.Length1 == 16 && 64 * m.Length0 == |Padded(msg)|
    ensures forall i | 0 <= i < m.Length0 :: RowStands(m, i, 16, BlockAt(Padded(msg), i))
  {
    hide Padded, BlockAt, FourChars, Mod, ToInt32;
    var s := msg + [0x80];
    var l := |s| as real / 4.0 + 2.0;
    var n := Ceil(l / 16.0);
    BlockCount(msg);
    m := new Number[n, 16];
    for i := 0 to n
      invariant forall a, b | 0 <= a < i && 0 <= b < 16 :: m[a, b] == ToInt32(FourChars(s, 64 * a + 4 * b))
    {
      for j := 0 to 16
        invariant forall a, b | 0 <= a < i && 0 <= b < 16 :: m[a, b] == ToInt32(FourChars(s, 64 * a + 4 * b))
        invariant forall b | 0 <= b < j :: m[i, b] == ToInt32(FourChars(s, 64 * i + 4 * b))
      {
        m[i, j] := ToInt32(FourChars(s, 64 * i + 4 * j));
      }
    }
    LengthWords(msg, n);
    var bits: Number := (|s| - 1) * 8;
    m[n - 1, 14] := bits / WORDS;
    m[n - 1, 15] := ToInt32(bits);
    ModOfInt32(bits);
    ModOfWord(bits / WORDS);
    forall i | 0 <= i < n ensures RowStands(m, i, 16, BlockAt(Padded(msg), i)) {
      forall j | 0 <= j < 16 ensures Is32(m[i, j]) && Mod(m[i, j]) == BlockAt(Padded(msg), i)[j] {
        if !(i == n - 1 && j >= 14) {
          assert 64 * i + 64 <= 64 * n;
          MessageWord(msg, i, j);
          SignedWord(FourChars(s, 64 * i + 4 * j));
        }
      }
    }
  }

  // ----------------------------------------------------------------------- the digest

  /** `toHexStr`: the digits of the word, from the highest. */
  method ToHexStr(n: Number) returns (s: string)
    ensures s == Hex(Mod(n), 8)
  {
    s := "";
    var i := 8;
    while i > 0
      invariant 0 <= i <= 8 && s == Hex(Shifted(Mod(n), i), 8 - i)
    {
      i := i - 1;
      ShiftedDigit(Mod(n), i);
      s := s + [HexDigit(Shifted(Mod(n), i) % 16)];
    }
  }

  /** `n >>> (4 * i)`. */
  function Shifted(n: Word, i: nat): Word {
    if i == 0 then n else Shifted(n, i - 1) / 16
  }

  lemma {:induction false} ShiftedDigit(n: Word, i: nat)
    ensures Shifted(n, i + 1) == Shifted(n, i) / 16
  {
  }

  lemma BlocksSnoc(b: seq<Byte>, n: nat)
    requires 64 * n + 64 <= |b|
    ensures HashBlocks(Blocks(b, n + 1)) == Compress(HashBlocks(Blocks(b, n)), BlockAt(b, n))
  {
    hide Compress, BlockAt;
    var blocks := Blocks(b, n);
    assert Blocks(b, n + 1) == blocks + [BlockAt(b, n)];
    assert (blocks + [BlockAt(b, n)])[..n] == blocks;
  }

  /** The script computes SHA-256 of any message of bytes whose length in bits a double holds
      exactly. */
  method Hash(msg: seq<Byte>) returns (digest: string)
    requires 8 * |msg| < 0x20_0000_0000_0000
    ensures digest == Digest(msg)
  {
    hide Padded, BlockAt, Compress, HashBlocks, Blocks, Mod, ToInt32, Hex;
    var m := BuildBlocks(msg);
    var hash: array<Number> := new Number[] [0x6a09e667, 0xbb67ae85, 0x3c6ef372, 0xa54ff53a, 0x510e527f, 0x9b05688c, 0x1f83d9ab, 0x5be0cd19];
    var w := new Number[64];
    ghost var padded := Padded(msg);
    StartOfHash(padded);
    for i := 0 to m.Length0
      invariant forall k | 0 <= k < m.Length0 :: RowStands(m, k, 16, BlockAt(padded, k))
      invariant Stands(HashBlocks(Blocks(padded, i)), hash[0], hash[1], hash[2], hash[3], hash[4], hash[5], hash[6], hash[7])
    {
      assert RowStands(m, i, 16, BlockAt(padded, i));
      BlocksSnoc(padded, i);
      HashBlock(m, i, hash, w, HashBlocks(Blocks(padded, i)), BlockAt(padded, i));
    }
    var h0 := ToHexStr(hash[0]);
    var h1 := ToHexStr(hash[1]);
    var h2 := ToHexStr(hash[2]);
    var h3 := ToHexStr(hash[3]);
    var h4 := ToHexStr(hash[4]);
    var h5 := ToHexStr(hash[5]);
    var h6 := ToHexStr(hash[6]);
    var h7 := ToHexStr(hash[7]);
    digest := h0 + h1 + h2 + h3 + h4 + h5 + h6 + h7;
  }

  lemma StartOfHash(b: seq<Byte>)
    ensures HashBlocks(Blocks(b, 0)) == INITIAL
    ensures Stands(INITIAL, 0x6a09e667, 0xbb67ae85, 0x3c6ef372, 0xa54ff53a, 0x510e527f, 0x9b05688c, 0x1f83d9ab, 0x5be0cd19)
  {
  }
}
