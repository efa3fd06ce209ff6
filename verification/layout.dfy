/** The `TRNGRegisters` block: where each register the driver declares sits
    in the peripheral's 256-byte window, which absolute address reaches which
    register, and a register file holding one 32-bit value per register. */
module Layout {
  import opened Wrappers

  /** Physical base address of the TRNG block (`TRNG_BASE`). */
  const TRNG_BASE: nat := 0x400C_C000

  /** Size in bytes of the register block (its `@END` offset). */
  const BLOCK_SIZE: nat := 0x100

  /** Number of entropy read registers `ENT0 .. ENT15`. */
  const ENT_COUNT: nat := 16

  /** Every register is 32 bits wide. */
  const REG_BYTES: nat := 4

  type EntIndex = i: nat | i < ENT_COUNT

  /** The registers the block declares; the statistical-test, seed, security
      and version registers are not declared and fall in reserved space. */
  datatype Reg =
    | MCTL
    | SCMISC
    | STATUS
    | ENT(i: EntIndex)
    | INT_CTRL
    | INT_MASK
    | INT_STATUS

  /** Byte offset of a register from the block's base. */
  function Offset(r: Reg): nat
  {
    match r
    case MCTL => 0x000
    case SCMISC => 0x004
    case STATUS => 0x03C
    case ENT(i) => 0x040 + REG_BYTES * i
    case INT_CTRL => 0x0B4
    case INT_MASK => 0x0B8
    case INT_STATUS => 0x0BC
  }

  /** The register that starts at byte offset `off`, if any; offsets inside a
      reserved range or past the block start no register. */
  function RegisterAt(off: nat): (r: Option<Reg>)
    ensures r.Some? ==> off % REG_BYTES == 0 && off + REG_BYTES <= BLOCK_SIZE
  {
    if off == 0x000 then Some(MCTL)
    else if off == 0x004 then Some(SCMISC)
    else if off == 0x03C then Some(STATUS)
    else if 0x040 <= off < 0x080 && off % REG_BYTES == 0 then Some(ENT((off - 0x040) / REG_BYTES))
    else if off == 0x0B4 then Some(INT_CTRL)
    else if off == 0x0B8 then Some(INT_MASK)
    else if off == 0x0BC then Some(INT_STATUS)
    else None
  }

  /** Decoding a register's offset gives the register back. */
  lemma RegisterAtOffset(r: Reg)
    ensures RegisterAt(Offset(r)) == Some(r)
  {
  }

  /** A decoded register starts exactly at the decoded offset. */
  lemma OffsetOfRegisterAt(off: nat)
    requires RegisterAt(off).Some?
    ensures Offset(RegisterAt(off).value) == off
  {
  }

  /** Every register is word-aligned and lies wholly inside the block, and
      distinct registers do not overlap. */
  lemma RegistersApart(a: Reg, b: Reg)
    ensures Offset(a) % REG_BYTES == 0 && Offset(a) + REG_BYTES <= BLOCK_SIZE
    ensures a != b ==> Offset(a) + REG_BYTES <= Offset(b) || Offset(b) + REG_BYTES <= Offset(a)
  {
    RegisterAtOffset(a);
    RegisterAtOffset(b);
  }

  /** The entropy words form one contiguous array from 0x040 to 0x080,
      word after word, between STATUS and the interrupt registers. */
  lemma EntropyArray(i: EntIndex)
    ensures 0x040 <= Offset(ENT(i)) && Offset(ENT(i)) + REG_BYTES <= 0x080
    ensures i + 1 < ENT_COUNT ==> Offset(ENT(i + 1)) == Offset(ENT(i)) + REG_BYTES
    ensures Offset(STATUS) + REG_BYTES == Offset(ENT(0))
    ensures Offset(ENT(ENT_COUNT - 1)) + REG_BYTES == 0x080
  {
  }

  /** The gaps the block reserves (0x008 .. 0x03C, 0x080 .. 0x0B4 and
      0x0C0 .. 0x100) start no register. */
  lemma ReservedRanges(off: nat)
    requires 0x008 <= off < 0x03C || 0x080 <= off < 0x0B4 || 0x0C0 <= off
    ensures RegisterAt(off) == None
  {
  }

  /** Absolute address of a register of the block at `base`. */
  function Address(base: nat, r: Reg): nat
  {
    base + Offset(r)
  }

  /** The register, and the byte within it, that an access at absolute address
      `addr` reaches in the block at `base`; `None` outside the block or in
      reserved space. */
  function Locate(base: nat, addr: nat): (loc: Option<(Reg, nat)>)
    ensures loc.Some? ==> base <= addr < base + BLOCK_SIZE && loc.value.1 < REG_BYTES
  {
    if base <= addr < base + BLOCK_SIZE then
      var off := addr - base;
      match RegisterAt(off - off % REG_BYTES)
      case Some(r) => Some((r, off % REG_BYTES))
      case None => None
    else None
  }

  /** Every byte of a register is located back to that register and byte. */
  lemma LocateAddress(base: nat, r: Reg, k: nat)
    requires k < REG_BYTES
    ensures Locate(base, Address(base, r) + k) == Some((r, k))
  {
    RegisterAtOffset(r);
    RegistersApart(r, r);
    var off := Offset(r) + k;
    assert off - off % REG_BYTES == Offset(r);
  }

  /** A located access falls inside the register it names. */
  lemma LocateInside(base: nat, addr: nat)
    requires Locate(base, addr).Some?
    ensures addr == Address(base, Locate(base, addr).value.0) + Locate(base, addr).value.1
  {
    var off := addr - base;
    OffsetOfRegisterAt(off - off % REG_BYTES);
  }

  /** The sixteen entropy words. */
  type EntBank = s: seq<bv32> | |s| == ENT_COUNT
    witness [0, 0, 0, 0, 0, 0, 0, 0, 0, 0, 0, 0, 0, 0, 0, 0]

  /** Register values, one 32-bit word per declared register. */
  datatype RegisterFile = RegisterFile(
    mctl: bv32,
    scmisc: bv32,
    status: bv32,
    ent: EntBank,
    intCtrl: bv32,
    intMask: bv32,
    intStatus: bv32)

  /** The value a volatile load of `r` returns. */
  function Load(rf: RegisterFile, r: Reg): bv32
  {
    match r
    case MCTL => rf.mctl
    case SCMISC => rf.scmisc
    case STATUS => rf.status
    case ENT(i) => rf.ent[i]
    case INT_CTRL => rf.intCtrl
    case INT_MASK => rf.intMask
    case INT_STATUS => rf.intStatus
  }

  /** The register file after a volatile store of `v` to `r`. */
  function Store(rf: RegisterFile, r: Reg, v: bv32): (rf': RegisterFile)
    ensures Load(rf', r) == v
    ensures forall s :: s != r ==> Load(rf', s) == Load(rf, s)
  {
    match r
    case MCTL => rf.(mctl := v)
    case SCMISC => rf.(scmisc := v)
    case STATUS => rf.(status := v)
    case ENT(i) => rf.(ent := rf.ent[i := v])
    case INT_CTRL => rf.(intCtrl := v)
    case INT_MASK => rf.(intMask := v)
    case INT_STATUS => rf.(intStatus := v)
  }

  /** Register files that agree on every register are equal. */
  lemma LoadExtensional(a: RegisterFile, b: RegisterFile)
    requires forall r :: Load(a, r) == Load(b, r)
    ensures a == b
  {
    assert a.mctl == Load(a, MCTL) && a.scmisc == Load(a, SCMISC) && a.status == Load(a, STATUS);
    assert a.intCtrl == Load(a, INT_CTRL) && a.intMask == Load(a, INT_MASK) && a.intStatus == Load(a, INT_STATUS);
    forall i | 0 <= i < ENT_COUNT
      ensures a.ent[i] == b.ent[i]
    {
      assert Load(a, ENT(i)) == Load(b, ENT(i));
    }
  }

  /** Storing back the value just loaded changes nothing. */
  lemma StoreLoad(rf: RegisterFile, r: Reg)
    ensures Store(rf, r, Load(rf, r)) == rf
  {
    LoadExtensional(Store(rf, r, Load(rf, r)), rf);
  }
}
