/** The `TRNG` controller of chips/imxrt10xx/src/trng.rs: its state, the
    `Entropy32` operations `get`, `cancel` and `set_client`, and the ordered
    trace of register accesses `get` issues.

    Registers are plain values in a `RegisterFile`. The model assumes no
    hardware interference while `get` runs: each field modify reads back the
    value the previous one wrote. The clock gate is an event in the trace that
    always succeeds. */
module Trng {
  import opened Wrappers
  import opened Bits
  import opened Layout
  import Control

  /** The kernel's error codes. */
  datatype ErrorCode =
    | FAIL | BUSY | ALREADY | OFF | RESERVE | INVAL | SIZE | CANCEL
    | NOMEM | NOSUPPORT | NODEVICE | UNINSTALLED | NOACK

  /** A reference the controller holds (the entropy client, the clock
      controller), identified by its address. */
  type Ref = nat

  /** The controller: the base address of its register block, at most one
      registered entropy client, and the clock controller it gates. */
  datatype Trng = Trng(registers: nat, client: Option<Ref>, ccm: Ref)

  /** `TRNG::new`: the fixed base address, no client, and the given clock
      controller. */
  function New(ccm: Ref): (t: Trng)
    ensures t.registers == TRNG_BASE && t.client == None && t.ccm == ccm
  {
    Trng(TRNG_BASE, None, ccm)
  }

  /** `set_client`: the new client replaces any earlier one. */
  function SetClient(t: Trng, c: Ref): (t': Trng)
    ensures t'.client == Some(c)
    ensures t'.registers == t.registers && t'.ccm == t.ccm
  {
    t.(client := Some(c))
  }

  /** Registering a second client forgets the first. */
  lemma SetClientReplaces(t: Trng, a: Ref, b: Ref)
    ensures SetClient(SetClient(t, a), b) == SetClient(t, b)
  {
  }

  /** `cancel`: no generation cycle can be aborted. */
  function Cancel(t: Trng): (r: Result<(), ErrorCode>)
    ensures r.Err? && r.error == FAIL
  {
    Err(FAIL)
  }

  /** One step `get` takes, in program order. */
  datatype Event =
    | EnableTrngClock                   // the clock gate's enable operation
    | ModifyReg(reg: Reg, fv: FieldValue) // a field modify of a register
    | LoadByte(addr: nat)               // a raw volatile byte load
    | LoadReg(reg: Reg)                 // a register read, value discarded

  /** The register file after one event; loads and the clock gate leave the
      register values as they were. */
  function Apply(rf: RegisterFile, e: Event): RegisterFile
  {
    match e
    case ModifyReg(r, fv) => Store(rf, r, Modify(Load(rf, r), fv))
    case _ => rf
  }

  /** The register file after a whole trace, event by event. */
  function Replay(rf: RegisterFile, trace: seq<Event>): RegisterFile
    decreases |trace|
  {
    if trace == [] then rf else Replay(Apply(rf, trace[0]), trace[1..])
  }

  lemma {:induction false} ReplayAppend(rf: RegisterFile, a: seq<Event>, b: seq<Event>)
    ensures Replay(rf, a + b) == Replay(Replay(rf, a), b)
    decreases |a|
  {
    if a == [] {
      assert a + b == b;
    } else {
      assert (a + b)[0] == a[0];
      assert (a + b)[1..] == a[1..] + b;
      ReplayAppend(Apply(rf, a[0]), a[1..], b);
    }
  }

  lemma ReplaySingle(rf: RegisterFile, e: Event)
    ensures Replay(rf, [e]) == Apply(rf, e)
  {
    assert [e][1..] == [];
  }

  lemma ReplayPair(rf: RegisterFile, x: Event, y: Event)
    ensures Replay(rf, [x] + [y]) == Apply(Apply(rf, x), y)
  {
    assert ([x] + [y])[0] == x;
    assert ([x] + [y])[1..] == [y];
    ReplaySingle(Apply(rf, x), y);
  }

  /** The absolute address of the raw byte load `get` issues. */
  const RAW_READ_ADDR: nat := 0x400C_C0B8

  /** The entropy word `get` reads to start generation. */
  const PRIMING_WORD: EntIndex := 15

  /** The four MCTL field values `get` writes, in order. */
  const ENTER_PROGRAM_MODE := SetField(Control.PRGM)
  const RESET_DEFAULTS := SetField(Control.RST_DEF)
  const VON_SAMPLING := Val(Control.SAMP_MODE, Control.VON)
  const ENTER_RUN_MODE := ClearField(Control.PRGM)

  /** The MCTL bits `get` configures: PRGM, RST_DEF and SAMP_MODE. */
  const CONFIG_MASK: bv32 := 0x1_0043

  /** The accesses `get` issues, in program order. */
  const GET_TRACE: seq<Event> := [
    EnableTrngClock,
    ModifyReg(MCTL, ENTER_PROGRAM_MODE),
    ModifyReg(MCTL, RESET_DEFAULTS),
    ModifyReg(MCTL, VON_SAMPLING),
    ModifyReg(MCTL, ENTER_RUN_MODE),
    LoadByte(RAW_READ_ADDR),
    LoadReg(ENT(PRIMING_WORD))
  ]

  /** What `get` returns, the accesses it issues, and the registers after. */
  datatype GetOutcome = GetOutcome(result: Result<(), ErrorCode>, trace: seq<Event>, regs: RegisterFile)

  lemma ConfigMasks()
    ensures CONFIG_MASK == Mask(Control.PRGM) | Mask(Control.RST_DEF) | Mask(Control.SAMP_MODE)
    ensures ENTER_PROGRAM_MODE.Valid() && RESET_DEFAULTS.Valid() && VON_SAMPLING.Valid() && ENTER_RUN_MODE.Valid()
    ensures VON_SAMPLING == FieldValue(0x3, 0x2)
  {
    Control.Masks();
  }

  /** `get`: enable the clock, enter programming mode, restore the
      statistical-check defaults, select von Neumann sampling, return to run
      mode, then issue the raw byte load and the priming read of ENT15. It
      succeeds unconditionally. */
  function Get(rf: RegisterFile): (o: GetOutcome)
    ensures o.result == Ok(())
    ensures Read(o.regs.mctl, Control.PRGM) == Control.RUN_MODE
    ensures Read(o.regs.mctl, Control.RST_DEF) == 1
    ensures Read(o.regs.mctl, Control.SAMP_MODE) == Control.VON
    ensures o.regs.mctl & !CONFIG_MASK == rf.mctl & !CONFIG_MASK
    ensures o.regs == rf.(mctl := o.regs.mctl)
  {
    ConfigMasks();
    var programming := Modify(rf.mctl, ENTER_PROGRAM_MODE);
    var defaults := Modify(programming, RESET_DEFAULTS);
    var sampling := Modify(defaults, VON_SAMPLING);
    var running := Modify(sampling, ENTER_RUN_MODE);
    GetOutcome(Ok(()), GET_TRACE, rf.(mctl := running))
  }

  /** The trace is a faithful record: replaying it from the registers `get`
      started with gives the registers `get` left. */
  lemma GetReplays(rf: RegisterFile)
    ensures Replay(rf, Get(rf).trace) == Get(rf).regs
  {
    ReplayGetTrace(rf);
  }

  /** Replaying `get`'s accesses applies its four MCTL modifies in order and
      changes no other register. */
  lemma ReplayGetTrace(rf: RegisterFile)
    ensures Replay(rf, GET_TRACE) == rf.(mctl := Modify(Modify(Modify(Modify(rf.mctl,
      ENTER_PROGRAM_MODE), RESET_DEFAULTS), VON_SAMPLING), ENTER_RUN_MODE))
  {
    ReplayModifies(rf, ENTER_PROGRAM_MODE, RESET_DEFAULTS, VON_SAMPLING, ENTER_RUN_MODE);
  }

  /** A trace of `get`'s shape, whatever the four MCTL writes are. */
  lemma ReplayModifies(rf: RegisterFile, a: FieldValue, b: FieldValue, c: FieldValue, d: FieldValue)
    ensures Replay(rf, [EnableTrngClock, ModifyReg(MCTL, a), ModifyReg(MCTL, b),
      ModifyReg(MCTL, c), ModifyReg(MCTL, d), LoadByte(RAW_READ_ADDR), LoadReg(ENT(PRIMING_WORD))])
      == rf.(mctl := Modify(Modify(Modify(Modify(rf.mctl, a), b), c), d))
  {
    var r1 := rf.(mctl := Modify(rf.mctl, a));
    var r2 := r1.(mctl := Modify(r1.mctl, b));
    var r3 := r2.(mctl := Modify(r2.mctl, c));
    var r4 := r3.(mctl := Modify(r3.mctl, d));
    var t6 := [LoadReg(ENT(PRIMING_WORD))];
    var t5 := [LoadByte(RAW_READ_ADDR)] + t6;
    var t4 := [ModifyReg(MCTL, d)] + t5;
    var t3 := [ModifyReg(MCTL, c)] + t4;
    var t2 := [ModifyReg(MCTL, b)] + t3;
    var t1 := [ModifyReg(MCTL, a)] + t2;
    assert [EnableTrngClock, ModifyReg(MCTL, a), ModifyReg(MCTL, b), ModifyReg(MCTL, c),
      ModifyReg(MCTL, d), LoadByte(RAW_READ_ADDR), LoadReg(ENT(PRIMING_WORD))] == [EnableTrngClock] + t1;
    ReplayCons(rf, EnableTrngClock, t1);
    ReplayModify(rf, a, t2);
    ReplayModify(r1, b, t3);
    ReplayModify(r2, c, t4);
    ReplayModify(r3, d, t5);
    ReplayCons(r4, LoadByte(RAW_READ_ADDR), t6);
    ReplaySingle(r4, LoadReg(ENT(PRIMING_WORD)));
  }

  lemma ReplayCons(rf: RegisterFile, e: Event, t: seq<Event>)
    ensures Replay(rf, [e] + t) == Replay(Apply(rf, e), t)
  {
    assert ([e] + t)[0] == e;
    assert ([e] + t)[1..] == t;
  }

  lemma ReplayModify(rf: RegisterFile, fv: FieldValue, t: seq<Event>)
    ensures Replay(rf, [ModifyReg(MCTL, fv)] + t) == Replay(rf.(mctl := Modify(rf.mctl, fv)), t)
  {
    ReplayCons(rf, ModifyReg(MCTL, fv), t);
    ApplyMctl(rf, fv);
  }

  /** A modify of MCTL replaces MCTL and nothing else. */
  lemma ApplyMctl(rf: RegisterFile, fv: FieldValue)
    ensures Apply(rf, ModifyReg(MCTL, fv)) == rf.(mctl := Modify(rf.mctl, fv))
  {
  }

  /** Position of the first occurrence of `e` in the trace, if any. */
  function IndexOf(trace: seq<Event>, e: Event): (r: Option<nat>)
    ensures r.Some? ==> r.value < |trace| && trace[r.value] == e && e !in trace[..r.value]
    ensures r.None? ==> e !in trace
  {
    if trace == [] then None
    else if trace[0] == e then Some(0)
    else match IndexOf(trace[1..], e)
      case None => None
      case Some(k) =>
        assert trace[..k + 1] == [trace[0]] + trace[1..][..k];
        Some(k + 1)
  }

  /** `e` occurs in the trace, and its first occurrence comes before the first
      occurrence of `e'`. */
  predicate Before(trace: seq<Event>, e: Event, e': Event) {
    IndexOf(trace, e).Some? && IndexOf(trace, e').Some? &&
    IndexOf(trace, e).value < IndexOf(trace, e').value
  }

  /** The events of `get`'s trace are pairwise distinct. */
  lemma GetTraceDistinct()
    ensures forall i, j :: 0 <= i < j < |GET_TRACE| ==> GET_TRACE[i] != GET_TRACE[j]
  {
    ConfigMasks();
  }

  /** Where each event of `get`'s trace first occurs. */
  lemma GetTraceIndices()
    ensures forall i :: 0 <= i < |GET_TRACE| ==> IndexOf(GET_TRACE, GET_TRACE[i]) == Some(i)
  {
    GetTraceDistinct();
    forall i | 0 <= i < |GET_TRACE|
      ensures IndexOf(GET_TRACE, GET_TRACE[i]) == Some(i)
    {
      IndexOfAt(GET_TRACE, i);
    }
  }

  /** The configuration writes sit between entering and leaving programming
      mode, and the two loads follow, in that order. */
  lemma GetTraceOrder()
    ensures var t := GET_TRACE;
      && Before(t, ModifyReg(MCTL, ENTER_PROGRAM_MODE), ModifyReg(MCTL, RESET_DEFAULTS))
      && Before(t, ModifyReg(MCTL, ENTER_PROGRAM_MODE), ModifyReg(MCTL, VON_SAMPLING))
      && Before(t, ModifyReg(MCTL, RESET_DEFAULTS), ModifyReg(MCTL, ENTER_RUN_MODE))
      && Before(t, ModifyReg(MCTL, VON_SAMPLING), ModifyReg(MCTL, ENTER_RUN_MODE))
      && Before(t, ModifyReg(MCTL, ENTER_RUN_MODE), LoadByte(RAW_READ_ADDR))
      && Before(t, LoadByte(RAW_READ_ADDR), LoadReg(ENT(PRIMING_WORD)))
  {
    GetTraceIndices();
    var t := GET_TRACE;
    assert IndexOf(t, t[1]) == Some(1) && IndexOf(t, t[2]) == Some(2);
    assert IndexOf(t, t[3]) == Some(3) && IndexOf(t, t[4]) == Some(4);
    assert IndexOf(t, t[5]) == Some(5) && IndexOf(t, t[6]) == Some(6);
  }

  /** The clock is enabled first and once; ENT15 is read last and once. */
  lemma GetTraceEnds()
    ensures var t := GET_TRACE;
      && t[0] == EnableTrngClock && multiset(t)[EnableTrngClock] == 1
      && t[|t| - 1] == LoadReg(ENT(PRIMING_WORD))
      && multiset(t)[LoadReg(ENT(PRIMING_WORD))] == 1
  {
    GetTraceDistinct();
    SingleOccurrence(GET_TRACE, 0);
    SingleOccurrence(GET_TRACE, 6);
  }

  /** The order in which `get` touches the hardware: the clock first and only
      once; programming mode strictly before both configuration writes; run
      mode strictly after both; then the raw byte load; and last, the one
      and only read of ENT15, whose value nothing uses. */
  lemma GetOrder(rf: RegisterFile)
    ensures var t := Get(rf).trace;
      && t[0] == EnableTrngClock && multiset(t)[EnableTrngClock] == 1
      && Before(t, ModifyReg(MCTL, ENTER_PROGRAM_MODE), ModifyReg(MCTL, RESET_DEFAULTS))
      && Before(t, ModifyReg(MCTL, ENTER_PROGRAM_MODE), ModifyReg(MCTL, VON_SAMPLING))
      && Before(t, ModifyReg(MCTL, RESET_DEFAULTS), ModifyReg(MCTL, ENTER_RUN_MODE))
      && Before(t, ModifyReg(MCTL, VON_SAMPLING), ModifyReg(MCTL, ENTER_RUN_MODE))
      && Before(t, ModifyReg(MCTL, ENTER_RUN_MODE), LoadByte(RAW_READ_ADDR))
      && Before(t, LoadByte(RAW_READ_ADDR), LoadReg(ENT(PRIMING_WORD)))
      && t[|t| - 1] == LoadReg(ENT(PRIMING_WORD))
      && multiset(t)[LoadReg(ENT(PRIMING_WORD))] == 1
  {
    assert Get(rf).trace == GET_TRACE;
    GetTraceOrder();
    GetTraceEnds();
  }

  /** An event found at one position only occurs once. */
  lemma {:induction false} SingleOccurrence(trace: seq<Event>, i: nat)
    requires i < |trace|
    requires forall j :: 0 <= j < |trace| && j != i ==> trace[j] != trace[i]
    ensures multiset(trace)[trace[i]] == 1
  {
    var e := trace[i];
    assert trace == trace[..i] + [e] + trace[i + 1..];
    assert e !in trace[..i];
    assert e !in trace[i + 1..];
    assert multiset(trace) == multiset(trace[..i]) + multiset{e} + multiset(trace[i + 1..]);
  }

  /** An event that occurs nowhere before position `i` is first found there. */
  lemma IndexOfAt(trace: seq<Event>, i: nat)
    requires i < |trace| && trace[i] !in trace[..i]
    ensures IndexOf(trace, trace[i]) == Some(i)
  {
  }

  /** Every event of the trace that `picked` selects is issued in a register
      state that `allowed` accepts. */
  predicate Guarded(rf: RegisterFile, trace: seq<Event>, picked: Event -> bool, allowed: RegisterFile -> bool) {
    forall i :: 0 <= i < |trace| && picked(trace[i]) ==> allowed(Replay(rf, trace[..i]))
  }

  /** A guard that holds over two traces holds over the two run one after
      the other. */
  lemma GuardedAppend(rf: RegisterFile, a: seq<Event>, b: seq<Event>,
                      picked: Event -> bool, allowed: RegisterFile -> bool)
    requires Guarded(rf, a, picked, allowed)
    requires Guarded(Replay(rf, a), b, picked, allowed)
    ensures Guarded(rf, a + b, picked, allowed)
  {
    forall i | 0 <= i < |a + b| && picked((a + b)[i])
      ensures allowed(Replay(rf, (a + b)[..i]))
    {
      if i < |a| {
        GuardedInPrefix(rf, a, b, picked, allowed, i);
      } else {
        GuardedInSuffix(rf, a, b, picked, allowed, i - |a|);
      }
    }
  }

  lemma GuardedInPrefix(rf: RegisterFile, a: seq<Event>, b: seq<Event>,
                        picked: Event -> bool, allowed: RegisterFile -> bool, i: nat)
    requires i < |a| && picked((a + b)[i])
    requires Guarded(rf, a, picked, allowed)
    ensures allowed(Replay(rf, (a + b)[..i]))
  {
    assert (a + b)[..i] == a[..i];
    assert (a + b)[i] == a[i];
  }

  lemma GuardedInSuffix(rf: RegisterFile, a: seq<Event>, b: seq<Event>,
                        picked: Event -> bool, allowed: RegisterFile -> bool, k: nat)
    requires k < |b| && picked((a + b)[|a| + k])
    requires Guarded(Replay(rf, a), b, picked, allowed)
    ensures allowed(Replay(rf, (a + b)[..|a| + k]))
  {
    assert (a + b)[|a| + k] == b[k];
    assert (a + b)[..|a| + k] == a + b[..k];
    ReplayAppend(rf, a, b[..k]);
  }

  /** A modify of an MCTL field other than PRGM: a configuration write. */
  predicate ConfigWrite(e: Event) {
    e.ModifyReg? && e.reg == MCTL && e.fv.mask & Mask(Control.PRGM) == 0
  }

  /** PRGM is set: the generator is halted in programming mode. */
  predicate Halted(rf: RegisterFile) {
    IsSet(rf.mctl, Control.PRGM)
  }

  /** Every configuration write in the trace modifies an MCTL value whose PRGM
      bit is set: the generator is halted while it is reconfigured. */
  predicate ConfiguresWhileHalted(rf: RegisterFile, trace: seq<Event>) {
    Guarded(rf, trace, ConfigWrite, Halted)
  }

  /** The MCTL value in programming mode, and after the reset-defaults write
      that follows. */
  lemma HaltedPrefixes(rf: RegisterFile)
    ensures IsSet(Replay(rf, GET_TRACE[..2]).mctl, Control.PRGM)
    ensures IsSet(Replay(rf, GET_TRACE[..3]).mctl, Control.PRGM)
  {
    ConfigMasks();
    Control.Masks();
    var t := GET_TRACE;
    var m1 := Modify(rf.mctl, ENTER_PROGRAM_MODE);
    var m2 := Modify(m1, RESET_DEFAULTS);
    var r2 := Apply(Apply(rf, t[0]), t[1]);
    var r3 := Apply(r2, t[2]);
    assert r2.mctl == m1 && r3.mctl == m2;
    assert t[..2] == [t[0]] + [t[1]] && t[..3] == t[..2] + [t[2]];
    ReplayPair(rf, t[0], t[1]);
    ReplaySingle(r2, t[2]);
    ReplayAppend(rf, t[..2], [t[2]]);
    ModifyKeepsMask(m1, RESET_DEFAULTS, Mask(Control.PRGM));
  }

  /** Within one `get`, RST_DEF and SAMP_MODE are written only while PRGM is
      set, whatever MCTL held before, and PRGM is clear at the end. */
  lemma GetConfiguresWhileHalted(rf: RegisterFile)
    ensures ConfiguresWhileHalted(rf, GET_TRACE)
    ensures !IsSet(Replay(rf, GET_TRACE).mctl, Control.PRGM)
    ensures ConfigWrite(GET_TRACE[2]) && ConfigWrite(GET_TRACE[3])
  {
    ConfigMasks();
    Control.Masks();
    var t := GET_TRACE;
    assert !ConfigWrite(t[1]) && !ConfigWrite(t[4]);
    assert forall i :: 0 <= i < |t| && ConfigWrite(t[i]) ==> i == 2 || i == 3;
    HaltedPrefixes(rf);
    GetReplays(rf);
  }

  /** The accesses of `n` successive `get` calls. */
  function Repeated(n: nat): (t: seq<Event>)
    ensures |t| == n * |GET_TRACE|
  {
    if n == 0 then [] else GET_TRACE + Repeated(n - 1)
  }

  /** However many times `get` is called in a row, and whatever MCTL held at
      the start, no configuration write happens outside programming mode. */
  lemma {:induction false} RepeatedConfiguresWhileHalted(rf: RegisterFile, n: nat)
    ensures ConfiguresWhileHalted(rf, Repeated(n))
    decreases n
  {
    if n > 0 {
      GetConfiguresWhileHalted(rf);
      RepeatedConfiguresWhileHalted(Replay(rf, GET_TRACE), n - 1);
      GuardedAppend(rf, GET_TRACE, Repeated(n - 1), ConfigWrite, Halted);
    }
  }

  /** After `get`, MCTL holds its earlier bits outside PRGM, RST_DEF and
      SAMP_MODE, and 0x42 in those: run mode, defaults reset, von Neumann
      sampling. */
  lemma GetMctl(rf: RegisterFile)
    ensures Get(rf).regs.mctl == (rf.mctl & !CONFIG_MASK) | 0x42
  {
    ConfigMasks();
    var m := Get(rf).regs.mctl;
    assert m & CONFIG_MASK == 0x42;
    SplitByMask(m, CONFIG_MASK);
  }

  lemma SplitByMask(r: bv32, m: bv32)
    ensures r == (r & !m) | (r & m)
  {
  }

  /** A second `get` leaves the registers as the first left them. */
  lemma GetIdempotent(rf: RegisterFile)
    ensures Get(Get(rf).regs).regs == Get(rf).regs
  {
    GetMctl(rf);
    GetMctl(Get(rf).regs);
  }

  /** The raw byte load of `get` reaches byte 0 of INT_MASK of the block
      `new` addresses: 0x400CC0B8 is `TRNG_BASE` plus INT_MASK's offset 0xB8. */
  lemma RawReadIsIntMask(ccm: Ref)
    ensures RAW_READ_ADDR == Address(New(ccm).registers, INT_MASK)
    ensures Locate(New(ccm).registers, RAW_READ_ADDR) == Some((INT_MASK, 0))
  {
    LocateAddress(TRNG_BASE, INT_MASK, 0);
  }
}
