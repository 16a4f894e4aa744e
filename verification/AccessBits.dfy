/** Access bytes as sets of bits. The walks over the rights index work on these sets; the
    lemmas say that the byte operators of the source are the set operators used there. */
module AccessBits {

  datatype Bit = Create | Read | Update | Delete | DenyCreate | DenyRead | DenyUpdate | DenyDelete

  type Access = set<Bit>

  const ALL_BITS: Access := {Create, Read, Update, Delete, DenyCreate, DenyRead, DenyUpdate, DenyDelete}

  /** The four permissions: the byte 15. */
  const ALLOW: Access := {Create, Read, Update, Delete}

  const ACCESS_LIST: seq<Bit> := [Create, Read, Update, Delete]

  function Mask(b: Bit): bv8 {
    match b
    case Create => 1
    case Read => 2
    case Update => 4
    case Delete => 8
    case DenyCreate => 16
    case DenyRead => 32
    case DenyUpdate => 64
    case DenyDelete => 128
  }

  function Bits(a: bv8): Access {
    set b | b in ALL_BITS && a & Mask(b) != 0
  }

  function DenialOf(b: Bit): Bit {
    match b
    case Create => DenyCreate
    case Read => DenyRead
    case Update => DenyUpdate
    case Delete => DenyDelete
    case _ => b
  }

  /** What a permission entry grants: the bits it allows and does not deny. */
  function PermissionAccess(access: Access): Access {
    set b | b in ALLOW && b in access && DenialOf(b) !in access
  }

  /** The same on bytes, as `authorize_obj_group` computes it. */
  function PermissionByte(access: bv8): bv8 {
    if access > 15 then (((access & 0xF0) >> 4) ^ 0x0F) & access else access
  }

  lemma BitsOfAnd(a: bv8, b: bv8)
    ensures Bits(a & b) == Bits(a) * Bits(b)
  {
    var both := a & b;
    forall bit: Bit
      ensures both & Mask(bit) != 0 <==> a & Mask(bit) != 0 && b & Mask(bit) != 0
    {
      MaskedAnd(a, b, Mask(bit));
    }
    MeetOfBits(a, b, both);
  }

  lemma MaskedAnd(a: bv8, b: bv8, m: bv8)
    requires m in {1, 2, 4, 8, 16, 32, 64, 128}
    ensures (a & b) & m != 0 <==> a & m != 0 && b & m != 0
  {
  }

  lemma MeetOfBits(a: bv8, b: bv8, c: bv8)
    requires forall bit: Bit :: c & Mask(bit) != 0 <==> a & Mask(bit) != 0 && b & Mask(bit) != 0
    ensures Bits(c) == Bits(a) * Bits(b)
  {
  }

  lemma BitsOfOr(a: bv8, b: bv8)
    ensures Bits(a | b) == Bits(a) + Bits(b)
  {
    forall bit: Bit
      ensures (a | b) & Mask(bit) != 0 <==> a & Mask(bit) != 0 || b & Mask(bit) != 0
    {
      MaskedOr(a, b, Mask(bit));
    }
    UnionOfBits(a, b, a | b);
  }

  lemma UnionOfBits(a: bv8, b: bv8, c: bv8)
    requires forall bit: Bit :: c & Mask(bit) != 0 <==> a & Mask(bit) != 0 || b & Mask(bit) != 0
    ensures Bits(c) == Bits(a) + Bits(b)
  {
  }

  lemma MaskedOr(a: bv8, b: bv8, m: bv8)
    ensures (a | b) & m != 0 <==> a & m != 0 || b & m != 0
  {
  }

  lemma MaskedLeft(granted: bv8, request: bv8, m: bv8)
    requires m in {1, 2, 4, 8, 16, 32, 64, 128}
    ensures ((granted ^ request) & request) & m != 0 <==> request & m != 0 && granted & m == 0
  {
  }

  /** `(granted ^ request) & request` is what is requested and not yet granted. */
  lemma BitsOfLeft(granted: bv8, request: bv8)
    ensures Bits((granted ^ request) & request) == Bits(request) - Bits(granted)
  {
    var left := (granted ^ request) & request;
    forall bit: Bit
      ensures left & Mask(bit) != 0 <==> request & Mask(bit) != 0 && granted & Mask(bit) == 0
    {
      MaskedLeft(granted, request, Mask(bit));
    }
    LeftOfBits(granted, request, left);
  }

  lemma LeftOfBits(granted: bv8, request: bv8, left: bv8)
    requires forall bit: Bit :: left & Mask(bit) != 0 <==> request & Mask(bit) != 0 && granted & Mask(bit) == 0
    ensures Bits(left) == Bits(request) - Bits(granted)
  {
  }

  /** A byte is determined by its bits. */
  lemma BitsInjective(a: bv8, b: bv8)
    ensures Bits(a) == Bits(b) <==> a == b
  {
    BitsOf(a); BitsOf(b);
  }

  /** The byte that has the bits of `access`. */
  function ByteOf(access: Access): bv8 {
    MaskIn(access, Create) | MaskIn(access, Read) | MaskIn(access, Update) | MaskIn(access, Delete)
    | MaskIn(access, DenyCreate) | MaskIn(access, DenyRead) | MaskIn(access, DenyUpdate) | MaskIn(access, DenyDelete)
  }

  function MaskIn(access: Access, b: Bit): bv8 {
    if b in access then Mask(b) else 0
  }

  lemma BitsOfByteOf(access: Access)
    ensures Bits(ByteOf(access)) == access
  {
    BitsOf(ByteOf(access));
    forall b: Bit ensures b in Bits(ByteOf(access)) <==> b in access {
      match b {
        case Create =>
        case _ =>
      }
    }
  }

  lemma ByteOfBits(a: bv8)
    ensures ByteOf(Bits(a)) == a
  {
    BitsOfByteOf(Bits(a));
    BitsInjective(ByteOf(Bits(a)), a);
  }

  lemma NoBits(a: bv8)
    ensures a == 0 <==> Bits(a) == {}
  {
    BitsInjective(a, 0);
    BitsOf(0);
    assert Bits(0) == {};
  }

  /** The test that cuts a consultation short: nothing that is left to check can come with
      these rights. */
  lemma LeftToCheck(granted: bv8, request: bv8, access: bv8)
    ensures ((granted ^ request) & request) & access == 0 <==> (Bits(request) - Bits(granted)) * Bits(access) == {}
  {
    BitsOfLeft(granted, request);
    BitsOfAnd((granted ^ request) & request, access);
    NoBits(((granted ^ request) & request) & access);
  }

  /** The loop of `authorize_obj_group` over the four access bits of one permission entry, on
      the bytes it works on: `request`, what the object group carries, the entry, and what
      has been granted so far. */
  method GrantByte(granted: bv8, request: bv8, restriction: bv8, access: bv8) returns (now: bv8)
    ensures Bits(now) == Bits(granted) + PermissionAccess(Bits(access)) * Bits(request) * Bits(restriction)
    ensures now == ByteOf(Bits(granted) + PermissionAccess(Bits(access)) * Bits(request) * Bits(restriction))
  {
    hide Bits, PermissionByte, PermissionAccess, ByteOf;
    now := granted;
    var permission := PermissionByte(access);
    ghost var given := Bits(permission) * Bits(request) * Bits(restriction);
    PermissionByteBits(access);
    for i := 0 to |ACCESS_LIST|
      invariant Bits(now) == Bits(granted) + FirstBits(i) * given
    {
      now := GrantBit(now, request, restriction, permission, ACCESS_LIST[i]);
    }
    AllBits(access);
    assert FirstBits(|ACCESS_LIST|) * given == given;
    ByteOfBits(now);
  }

  ghost function FirstBits(i: nat): Access
    requires i <= |ACCESS_LIST|
  {
    if i == 0 then {} else FirstBits(i - 1) + {ACCESS_LIST[i - 1]}
  }

  lemma AllBits(access: bv8)
    ensures PermissionAccess(Bits(access)) <= FirstBits(|ACCESS_LIST|)
  {
    hide Bits;
    assert FirstBits(4) == FirstBits(3) + {Delete} == FirstBits(2) + {Update} + {Delete};
    assert FirstBits(2) == FirstBits(1) + {Read} == FirstBits(0) + {Create} + {Read};
  }

  /** One of the access bits. */
  method GrantBit(granted: bv8, request: bv8, restriction: bv8, permission: bv8, bit: Bit) returns (now: bv8)
    ensures Bits(now) == Bits(granted) + {bit} * Bits(permission) * Bits(request) * Bits(restriction)
  {
    now := granted;
    var asked := request & restriction;
    BitsOfAnd(request, restriction);
    InBits(asked, bit);
    if asked & Mask(bit) != 0 {
      var calcBits := Mask(bit) & permission;
      InBits(permission, bit);
      OneBit(permission, bit);
      if calcBits != 0 {
        BitsOfOr(granted, calcBits);
        now := granted | calcBits;
      }
    }
  }

  lemma InBits(a: bv8, bit: Bit)
    ensures bit in Bits(a) <==> a & Mask(bit) != 0
  {
  }

  /** A single bit of a byte. */
  lemma OneBit(a: bv8, bit: Bit)
    ensures Bits(Mask(bit) & a) == {bit} * Bits(a)
    ensures Mask(bit) & a != 0 <==> a & Mask(bit) != 0
  {
    BitsOfAnd(Mask(bit), a);
    BitsOf(Mask(bit));
    assert Mask(bit) & a == a & Mask(bit);
    assert Bits(Mask(bit)) == {bit};
  }

  lemma PermissionByteBits(access: bv8)
    ensures Bits(PermissionByte(access)) == PermissionAccess(Bits(access))
  {
    BitsOf(access); BitsOf(PermissionByte(access));
  }

  /** Membership in `Bits`, bit by bit. */
  lemma BitsOf(a: bv8)
    ensures Create in Bits(a) <==> a & 1 != 0
    ensures Read in Bits(a) <==> a & 2 != 0
    ensures Update in Bits(a) <==> a & 4 != 0
    ensures Delete in Bits(a) <==> a & 8 != 0
    ensures DenyCreate in Bits(a) <==> a & 16 != 0
    ensures DenyRead in Bits(a) <==> a & 32 != 0
    ensures DenyUpdate in Bits(a) <==> a & 64 != 0
    ensures DenyDelete in Bits(a) <==> a & 128 != 0
  {
    assert Mask(Create) == 1 && Mask(Read) == 2 && Mask(Update) == 4 && Mask(Delete) == 8;
    assert Mask(DenyCreate) == 16 && Mask(DenyRead) == 32 && Mask(DenyUpdate) == 64 && Mask(DenyDelete) == 128;
  }
}
