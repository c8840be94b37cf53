/** The table of interrupt lines over the two 8259A controllers: enabling, disabling and
    acknowledging lines, registering actions, and dispatching an interrupt. */
module Irq {
  import opened Bits
  import opened BitSets
  import opened Machine
  import opened Wrappers
  import opened IrqMask
  import opened IrqChain

  const ENOSYS: int := 38
  const EBUSY: int := 16
  const IRQ_INPROGRESS: nat := 1
  const IRQ_DISABLED: nat := 2
  const IRQ_AUTODETECT: nat := 16
  const IRQ_WAITING: nat := 32
  const IRQ_PER_CPU: nat := 256
  const PIC_MASTER_CMD: nat := 0x20
  const PIC_MASTER_IMR: nat := 0x21
  const PIC_SLAVE_CMD: nat := 0xa0
  const PIC_SLAVE_IMR: nat := 0xa1
  const PIC_CASCADE_IR: nat := 2
  const READ_ISR: nat := 0x0B
  const READ_IRR: nat := 0x0A

  datatype Controller = NoIrqType | I8259A

  // ----- the two controllers -----

  /** The mask and in-service registers of the two controllers. */
  datatype Pics = Pics(masterImr: nat, slaveImr: nat, masterIsr: nat, slaveIsr: nat)

  /** A byte written to a port. */
  datatype Write = Write(port: nat, value: nat)

  /** What a write does to the controllers once they are initialised: the mask registers take the
      byte, and 0x60 + n as a command ends the service of the controller's line n. */
  function Obey(p: Pics, w: Write): Pics
  {
    if w.port == PIC_MASTER_IMR then p.(masterImr := w.value)
    else if w.port == PIC_SLAVE_IMR then p.(slaveImr := w.value)
    else if 0x60 <= w.value < 0x68 && w.port == PIC_MASTER_CMD then
      p.(masterIsr := ClearLine(p.masterIsr, w.value - 0x60))
    else if 0x60 <= w.value < 0x68 && w.port == PIC_SLAVE_CMD then
      p.(slaveIsr := ClearLine(p.slaveIsr, w.value - 0x60))
    else p
  }

  function ObeyAll(p: Pics, writes: seq<Write>): Pics
  {
    if writes == [] then p else Obey(ObeyAll(p, writes[..|writes| - 1]), writes[|writes| - 1])
  }

  /** The line's controller has passed its interrupt on and waits for the end of its service. */
  predicate InService(p: Pics, irq: nat)
  {
    if irq < 8 then Bit(p.masterIsr, irq) else Bit(p.slaveIsr, irq - 8)
  }

  /** The line's bit in the mask register of its controller. */
  predicate HeldBack(p: Pics, irq: nat)
  {
    if irq < 8 then Bit(p.masterImr, irq) else Bit(p.slaveImr, irq - 8)
  }

  /** The end of interrupt of a line at its controller. */
  predicate EndsService(w: Write, irq: nat)
  {
    if irq < 8 then w == Write(PIC_MASTER_CMD, 0x60 + irq) else w == Write(PIC_SLAVE_CMD, 0x60 + irq - 8)
  }

  /** The look at the in-service register. */
  function Look(irq: nat): seq<Write>
  {
    var port := if irq < 8 then PIC_MASTER_CMD else PIC_SLAVE_CMD;
    [Write(port, READ_ISR), Write(port, READ_IRR)]
  }

  /** The write of a line's byte of the mask to its controller. */
  function ImrWrite(mask: nat, irq: nat): Write
  {
    if irq < 8 then Write(PIC_MASTER_IMR, MasterByte(mask)) else Write(PIC_SLAVE_IMR, SlaveByte(mask))
  }

  /** What `mask_and_ack_8259A` writes for a line, with `mask` as the cached mask then: for a line that
      was masked already, a look at the in-service register comes first. */
  function Acknowledged(masked: bool, mask: nat, irq: nat): seq<Write>
  {
    (if masked then Look(irq) else []) + [ImrWrite(mask, irq)]
    + if irq < 8 then [Write(PIC_MASTER_CMD, 0x60 + irq)]
      else [Write(PIC_SLAVE_CMD, 0x60 + irq % 8), Write(PIC_MASTER_CMD, 0x60 + PIC_CASCADE_IR)]
  }

  lemma ShrPow2(irq: nat)
    requires irq >= 8
    ensures Shr(Pow2(irq), 8) == Pow2(irq - 8)
  {
    assert Pow2(8) == 256;
    hide Pow2;
    Pow2Split(8, irq - 8);
    ShrDiv(Pow2(irq), 8);
    DivUnique(Pow2(irq), 256, Pow2(irq - 8), 0);
  }

  /** An end of interrupt clears one bit. */
  lemma ServiceEnded(isr: nat, n: nat, i: nat)
    requires n < 8 && i < 8
    ensures Bit(ClearLine(isr, n), i) <==> i != n && Bit(isr, i)
  {
    ClearLineBit(isr, n, i);
  }

  lemma ObeyOne(p: Pics, w: Write)
    ensures ObeyAll(p, [w]) == Obey(p, w)
  {
    assert [w][..0] == [];
  }

  lemma {:induction false} ObeyMore(p: Pics, writes: seq<Write>, more: seq<Write>)
    ensures ObeyAll(p, writes + more) == ObeyAll(ObeyAll(p, writes), more)
    decreases |more|
  {
    hide Obey;
    if more == [] {
      assert writes + more == writes;
    } else {
      var k := |more| - 1;
      assert (writes + more)[..|writes| + k] == writes + more[..k];
      ObeyMore(p, writes, more[..k]);
    }
  }

  /** Looking at the in-service register changes no register. */
  lemma LookOnly(p: Pics, irq: nat)
    ensures ObeyAll(p, Look(irq)) == p
  {
    var l := Look(irq);
    assert l == [l[0]] + [l[1]];
    ObeyMore(p, [l[0]], [l[1]]);
    ObeyOne(p, l[0]);
    ObeyOne(p, l[1]);
  }

  /** The controllers after the write of the mask, and after the slave's end of interrupt. */
  lemma AckStages(p: Pics, look: seq<Write>, imr: Write, eoi: Write)
    requires ObeyAll(p, look) == p
    ensures ObeyAll(p, look + [imr]) == Obey(p, imr)
    ensures ObeyAll(p, look + [imr] + [eoi]) == Obey(Obey(p, imr), eoi)
  {
    hide Obey, ObeyAll;
    ObeyMore(p, look, [imr]);
    ObeyOne(p, imr);
    ObeyMore(p, look + [imr], [eoi]);
    ObeyOne(Obey(p, imr), eoi);
  }

  /** The line is masked at its controller before its service is ended there, and for a line of the
      slave that is over before the master hears of it. */
  lemma AckOrder(p: Pics, masked: bool, mask: nat, irq: nat, k: nat)
    requires irq < NR_IRQS && Masked(mask, irq) && k < |Acknowledged(masked, mask, irq)|
    ensures var w := Acknowledged(masked, mask, irq);
            var before := ObeyAll(p, w[..k]);
            && (EndsService(w[k], irq) ==> HeldBack(before, irq))
            && (irq >= 8 && EndsService(w[k], PIC_CASCADE_IR) ==> !InService(before, irq))
  {
    hide Bit, Masked, MasterByte, SlaveByte, ClearLine, ObeyAll;
    var look := if masked then Look(irq) else [];
    var w := Acknowledged(masked, mask, irq);
    LookOnly(p, irq);
    ObeyNone(p);
    if k == |look| + 1 {
      AckStages(p, look, w[k - 1], w[k]);
      assert w[..k] == look + [w[k - 1]];
      ByteBits(mask, irq);
    } else if k == |look| + 2 {
      AckStages(p, look, w[k - 2], w[k - 1]);
      assert w[..k] == look + [w[k - 2]] + [w[k - 1]];
      ServiceEnded(p.slaveIsr, irq - 8, irq - 8);
    }
  }

  lemma ObeyNone(p: Pics)
    ensures ObeyAll(p, []) == p
  {
  }

  lemma AckResult(p: Pics, mask: nat, irq: nat)
    ensures ObeyAll(p, Acknowledged(false, mask, irq))
            == if irq < 8 then Obey(Obey(p, ImrWrite(mask, irq)), Write(PIC_MASTER_CMD, 0x60 + irq))
               else Obey(Obey(Obey(p, ImrWrite(mask, irq)), Write(PIC_SLAVE_CMD, 0x60 + irq % 8)),
                         Write(PIC_MASTER_CMD, 0x60 + PIC_CASCADE_IR))
  {
    hide Obey, ObeyAll;
    var w := Acknowledged(false, mask, irq);
    ObeyNone(p);
    AckStages(p, [], w[0], w[1]);
    assert irq < 8 ==> w == [] + [w[0]] + [w[1]];
    if irq >= 8 {
      assert w == [] + [w[0]] + [w[1]] + [w[2]];
      ObeyMore(p, [] + [w[0]] + [w[1]], [w[2]]);
      ObeyOne(Obey(Obey(p, w[0]), w[1]), w[2]);
    }
  }

  lemma LookFirst(p: Pics, masked: bool, mask: nat, irq: nat)
    ensures ObeyAll(p, Acknowledged(masked, mask, irq)) == ObeyAll(p, Acknowledged(false, mask, irq))
  {
    hide Obey, ObeyAll;
    if masked {
      LookOnly(p, irq);
      ObeyMore(p, Look(irq), Acknowledged(false, mask, irq));
      assert Acknowledged(true, mask, irq) == Look(irq) + Acknowledged(false, mask, irq);
    }
  }

  lemma SameService(p: Pics, q: Pics)
    requires p.masterIsr == q.masterIsr && p.slaveIsr == q.slaveIsr
    ensures forall i :: 0 <= i < NR_IRQS ==> (InService(p, i) <==> InService(q, i))
  {
  }

  lemma StatusTests()
    ensures And(IRQ_DISABLED, IRQ_PER_CPU) == 0 && And(IRQ_PER_CPU, IRQ_PER_CPU) != 0
    ensures And(IRQ_PER_CPU, IRQ_DISABLED + IRQ_INPROGRESS) == 0
  {
    AndSelf(IRQ_PER_CPU);
    assert And(1, 128) == 0;
    assert And(64, 0) == 0;
    assert And(128, 1) == 0;
  }

  lemma StatusMask()
    ensures IRQ_DISABLED + IRQ_AUTODETECT + IRQ_WAITING + IRQ_INPROGRESS < Pow2(32)
  {
    assert Pow2(8) == 256;
    Pow2Mono(8, 32);
  }

  /** `struct irq_desc`, with the chain of its actions and the requests made on it. */
  class IrqDesc {
    var handler: Controller
    var action: IrqAction?
    var status: nat
    var depth: nat
    ghost var chain: seq<IrqAction>
    ghost var requests: seq<IrqAction>

    /** A line before initialisation. */
    constructor ()
      ensures handler == NoIrqType && action == null && chain == [] && requests == []
    {
      handler, action, status, depth := NoIrqType, null, 0, 0;
      chain, requests := [], [];
    }

    /** The chain in memory is what the requests on the line add up to. */
    ghost predicate Chained()
      reads `action, `chain, `requests, chain`next
    {
      Linked(action, chain) && chain == Requested(requests)
    }

    ghost predicate Tagged(irq: nat)
      reads `chain, chain`irq
    {
      forall i :: 0 <= i < |chain| ==> chain[i].irq == irq
    }

    /** The part of `setup_irq` that finds the end of the chain and stores the new action there. */
    method Store(a: IrqAction) returns (shared: bool, refused: bool)
      requires Chained() && a.next == null && a !in chain
      modifies this`action, this`chain, this`requests, chain`next
      ensures Chained() && requests == old(requests) + [a]
      ensures refused <==> !Accepts(old(chain), a)
      ensures chain == if refused then old(chain) else old(chain) + [a]
      ensures chain == [] ==> action == null
      ensures !refused ==> (shared <==> old(chain) != [])
      ensures refused ==> action == old(action)
      ensures shared ==> old(action) != null
    {
      hide Requested;
      RequestedOne(requests, a);
      shared, refused := false, false;
      if action != null {
        BothShare(action, a);
        if And(And(action.flags, a.flags), SA_SHIRQ) == 0 {
          refused := true;
        } else {
          var p := LastAction(action, chain);
          shared := true;
          p.next := a;
          chain := chain + [a];
        }
      } else {
        action := a;
        chain := [a];
      }
      requests := requests + [a];
    }
  }

  /** `irq_desc`, `cached_irq_mask` and the mask registers of the controllers. */
  class IrqTable {
    const descs: seq<IrqDesc>
    var cachedMask: nat
    /** The controllers' registers, and the writes that made them so. */
    var pics: Pics
    var writes: seq<Write>
    /** `irq_err_count`. */
    var errors: nat

    ghost predicate Table()
    {
      |descs| == NR_IRQS && forall i, j :: 0 <= i < j < NR_IRQS ==> descs[i] != descs[j]
    }

    /** The mask registers hold the two bytes of the cached mask. */
    ghost predicate ImrCached()
      reads `cachedMask, `pics
    {
      && Word(cachedMask)
      && pics.masterImr == MasterByte(cachedMask) && pics.slaveImr == SlaveByte(cachedMask)
    }

    /** A line has no controller before initialisation, is disabled from then until first enabled
        and per-CPU ever after; until it is enabled it is masked and has no action. */
    ghost predicate Lines()
      requires Table()
      reads `cachedMask, descs
    {
      forall i :: 0 <= i < NR_IRQS ==>
        || (descs[i].handler == I8259A && descs[i].status == IRQ_PER_CPU)
        || (Masked(cachedMask, i) && descs[i].action == null
            && (descs[i].handler == NoIrqType || descs[i].status == IRQ_DISABLED))
    }

    ghost function Actions(): set<IrqAction>
      requires Table()
      reads descs
    {
      set i, a | 0 <= i < NR_IRQS && a in descs[i].chain :: a
    }

    ghost predicate Chains()
      requires Table()
      reads descs, Actions()
    {
      assert forall i, a :: 0 <= i < NR_IRQS && a in descs[i].chain ==> a in Actions();
      forall i :: 0 <= i < NR_IRQS ==> descs[i].Chained() && descs[i].Tagged(i)
    }

    ghost predicate Valid()
      reads this, descs
      reads if Table() then Actions() else {}
    {
      Table() && ImrCached() && Lines() && Chains()
    }

    method Outb(value: nat, port: nat)
      modifies this`pics, this`writes
      ensures writes == old(writes) + [Write(port, value)] && pics == Obey(old(pics), Write(port, value))
    {
      writes := writes + [Write(port, value)];
      pics := Obey(pics, Write(port, value));
    }

    /** What the controllers hold back is what the cached mask masks, line by line. */
    lemma ImrBits(irq: nat)
      requires ImrCached() && irq < NR_IRQS
      ensures HeldBack(pics, irq) <==> Masked(cachedMask, irq)
    {
      hide Masked, Bit, MasterByte, SlaveByte;
      ByteBits(cachedMask, irq);
    }

    /** An unmasked line is ready for the per-CPU path. */
    lemma UnmaskedIsPerCpu(irq: nat)
      requires Valid() && irq < NR_IRQS && !Masked(cachedMask, irq)
      ensures descs[irq].handler == I8259A && descs[irq].status == IRQ_PER_CPU
    {
    }

    /** The table as the kernel starts: every line masked in the cached copy. */
    constructor (descs: seq<IrqDesc>)
      ensures this.descs == descs && cachedMask == 0xffff
    {
      this.descs := descs;
      cachedMask, pics, writes, errors := 0xffff, Pics(0, 0, 0, 0), [], 0;
    }

    /** `init_ISA_irqs`, with `init_8259A` by its last two writes. */
    method InitIsaIrqs()
      requires Table() && Word(cachedMask)
      modifies this`pics, this`writes, descs
      ensures ImrCached() && Chains()
      ensures Valid() <==> forall i :: 0 <= i < NR_IRQS ==> Masked(cachedMask, i)
      ensures forall i :: 0 <= i < NR_IRQS ==>
                descs[i].handler == I8259A && descs[i].status == IRQ_DISABLED && descs[i].action == null
                && descs[i].chain == [] && descs[i].requests == [] && descs[i].depth == 1
    {
      hide Masked, MasterByte, SlaveByte, Word;
      Outb(MasterByte(cachedMask), PIC_MASTER_IMR);
      Outb(SlaveByte(cachedMask), PIC_SLAVE_IMR);
      var i := 0;
      while i < NR_IRQS
        invariant 0 <= i <= NR_IRQS && ImrCached()
        invariant forall j :: 0 <= j < i ==>
                    && descs[j].status == IRQ_DISABLED && descs[j].action == null && descs[j].depth == 1
                    && descs[j].handler == I8259A && descs[j].chain == [] && descs[j].requests == []
      {
        descs[i].status := IRQ_DISABLED;
        descs[i].action := null;
        descs[i].depth := 1;
        descs[i].handler := if i < 16 then I8259A else NoIrqType;
        descs[i].chain := [];
        descs[i].requests := [];
        i := i + 1;
      }
    }

    /** `enable_8259A_irq`: unmask that line only. */
    method Enable(irq: nat)
      requires Table() && irq < NR_IRQS && ImrCached()
      modifies this`cachedMask, this`pics, this`writes, {descs[irq]}`status
      ensures ImrCached() && cachedMask == ClearLine(old(cachedMask), irq)
      ensures forall i :: 0 <= i < NR_IRQS ==> (Masked(cachedMask, i) <==> i != irq && Masked(old(cachedMask), i))
      ensures descs[irq].status == IRQ_PER_CPU
      ensures writes == old(writes) + [ImrWrite(cachedMask, irq)]
      ensures pics.masterIsr == old(pics).masterIsr && pics.slaveIsr == old(pics).slaveIsr
    {
      hide ClearLine, Masked, MasterByte, SlaveByte, Word;
      ClearLineIs(cachedMask, irq);
      cachedMask := ClearLine(cachedMask, irq);
      if irq / 8 % 2 == 1 {
        Outb(SlaveByte(cachedMask), PIC_SLAVE_IMR);
      } else {
        Outb(MasterByte(cachedMask), PIC_MASTER_IMR);
      }
      descs[irq].status := IRQ_PER_CPU;
    }

    /** `startup_8259A_irq`, and every direct call of `enable_8259A_irq` once the lines have their
        controllers. */
    method Startup(irq: nat) returns (pending: nat)
      requires Valid() && irq < NR_IRQS && descs[irq].handler == I8259A
      modifies this`cachedMask, this`pics, this`writes, {descs[irq]}`status
      ensures Valid() && pending == 0 && descs[irq].status == IRQ_PER_CPU
      ensures cachedMask == ClearLine(old(cachedMask), irq)
      ensures forall i :: 0 <= i < NR_IRQS ==> (Masked(cachedMask, i) <==> i != irq && Masked(old(cachedMask), i))
    {
      hide ClearLine, Masked, MasterByte, SlaveByte, Word, Requested;
      Enable(irq);
      pending := 0;
    }

    /** What `init_IRQ` does to the lines of a table as the kernel starts: it leaves lines 0 and 1
        unmasked and ready for the per-CPU path before any action is requested on them. */
    method InitIrq()
      requires Table() && cachedMask == 0xffff
      modifies this`cachedMask, this`pics, this`writes, descs
      ensures Valid()
      ensures forall i :: 0 <= i < NR_IRQS ==>
                && (Masked(cachedMask, i) <==> i >= 2)
                && descs[i].status == (if i < 2 then IRQ_PER_CPU else IRQ_DISABLED)
                && descs[i].requests == [] && descs[i].action == null
    {
      hide Masked, MasterByte, SlaveByte, Word, ClearLine, Requested;
      InitialMask();
      InitIsaIrqs();
      var pending := Startup(0);
      pending := Startup(1);
    }

    /** `disable_8259A_irq`, also as `shutdown_8259A_irq`: mask that line only. */
    method Disable(irq: nat)
      requires Valid() && irq < NR_IRQS
      modifies this`cachedMask, this`pics, this`writes
      ensures Valid() && cachedMask == SetLine(old(cachedMask), irq)
      ensures forall i :: 0 <= i < NR_IRQS ==> (Masked(cachedMask, i) <==> i == irq || Masked(old(cachedMask), i))
      ensures writes == old(writes) + [ImrWrite(cachedMask, irq)]
      ensures pics.masterIsr == old(pics).masterIsr && pics.slaveIsr == old(pics).slaveIsr
    {
      hide SetLine, Masked, MasterByte, SlaveByte, Word;
      SetLineIs(cachedMask, irq);
      cachedMask := SetLine(cachedMask, irq);
      if irq / 8 % 2 == 1 {
        Outb(SlaveByte(cachedMask), PIC_SLAVE_IMR);
      } else {
        Outb(MasterByte(cachedMask), PIC_MASTER_IMR);
      }
    }

    /** `i8259A_irq_real`: whether the line is in service, by its controller's register. */
    method RealIrq(irq: nat) returns (serving: bool)
      requires irq < NR_IRQS
      modifies this`pics, this`writes
      ensures pics == old(pics) && writes == old(writes) + Look(irq)
      ensures serving <==> InService(pics, irq)
    {
      hide And, Bit, Pow2;
      var value;
      if irq < 8 {
        Outb(READ_ISR, PIC_MASTER_CMD);
        value := And(pics.masterIsr, Pow2(irq));
        AndPow2(pics.masterIsr, irq);
        Outb(READ_IRR, PIC_MASTER_CMD);
      } else {
        Outb(READ_ISR, PIC_SLAVE_CMD);
        value := And(pics.slaveIsr, Shr(Pow2(irq), 8));
        ShrPow2(irq);
        AndPow2(pics.slaveIsr, irq - 8);
        Outb(READ_IRR, PIC_SLAVE_CMD);
      }
      serving := value != 0;
    }

    /** `mask_and_ack_8259A`: mask the line and end its service. Of the in-service bits the line's own
        is cleared, and for a line of the slave the master's bit of the cascade; no other changes. A
        line that was masked already counts as an error if it is not in service. */
    method MaskAndAck(irq: nat)
      requires Table() && irq < NR_IRQS && ImrCached()
      modifies this`cachedMask, this`pics, this`writes, this`errors
      ensures ImrCached() && cachedMask == SetLine(old(cachedMask), irq)
      ensures forall i :: 0 <= i < NR_IRQS ==> (Masked(cachedMask, i) <==> i == irq || Masked(old(cachedMask), i))
      ensures writes == old(writes) + Acknowledged(Masked(old(cachedMask), irq), cachedMask, irq)
      ensures pics == ObeyAll(old(pics), Acknowledged(Masked(old(cachedMask), irq), cachedMask, irq))
      ensures forall i :: 0 <= i < NR_IRQS ==>
                (InService(pics, i) <==> InService(old(pics), i) && i != irq && !(irq >= 8 && i == PIC_CASCADE_IR))
      ensures errors == if Masked(old(cachedMask), irq) && !InService(old(pics), irq) then U32(old(errors) + 1)
                        else old(errors)
    {
      hide SetLine, Masked, MasterByte, SlaveByte, Word, U32, InService;
      SetLineIs(cachedMask, irq);
      ghost var masked := Masked(cachedMask, irq);
      if Masked(cachedMask, irq) {
        SetMasked(cachedMask, irq);
        var serving := RealIrq(irq);
        if !serving {
          errors := U32(errors + 1);
        }
      } else {
        cachedMask := SetLine(cachedMask, irq);
      }
      EndOfInterrupt(irq);
      LookFirst(old(pics), masked, cachedMask, irq);
      assert writes == old(writes) + Acknowledged(masked, cachedMask, irq);
    }

    /** `handle_real_irq`: the mask register first, then the end of interrupt, at the slave first. */
    method EndOfInterrupt(irq: nat)
      requires irq < NR_IRQS
      modifies this`pics, this`writes
      ensures writes == old(writes) + Acknowledged(false, cachedMask, irq)
      ensures pics == ObeyAll(old(pics), Acknowledged(false, cachedMask, irq))
      ensures irq < 8 ==> pics.masterImr == MasterByte(cachedMask) && pics.slaveImr == old(pics).slaveImr
      ensures irq >= 8 ==> pics.slaveImr == SlaveByte(cachedMask) && pics.masterImr == old(pics).masterImr
      ensures forall i :: 0 <= i < NR_IRQS ==>
                (InService(pics, i) <==> InService(old(pics), i) && i != irq && !(irq >= 8 && i == PIC_CASCADE_IR))
    {
      hide MasterByte, SlaveByte, ClearLine, Bit, ObeyAll;
      AckResult(pics, cachedMask, irq);
      if irq / 8 % 2 == 1 {
        Outb(SlaveByte(cachedMask), PIC_SLAVE_IMR);
        Outb(0x60 + irq % 8, PIC_SLAVE_CMD);
        Outb(0x60 + PIC_CASCADE_IR, PIC_MASTER_CMD);
      } else {
        Outb(MasterByte(cachedMask), PIC_MASTER_IMR);
        Outb(0x60 + irq, PIC_MASTER_CMD);
      }
      forall i | 0 <= i < NR_IRQS
        ensures InService(pics, i) <==> InService(old(pics), i) && i != irq && !(irq >= 8 && i == PIC_CASCADE_IR)
      {
        if i < 8 {
          ServiceEnded(old(pics).masterIsr, if irq < 8 then irq else PIC_CASCADE_IR, i);
        } else if irq >= 8 {
          ServiceEnded(old(pics).slaveIsr, irq - 8, i - 8);
        }
      }
    }

    /** `end_8259A_irq`: exactly a line with an action is unmasked. */
    method End(irq: nat)
      requires Valid() && irq < NR_IRQS
      modifies this`cachedMask, this`pics, this`writes, {descs[irq]}`status
      ensures Valid()
      ensures cachedMask == if descs[irq].action != null then ClearLine(old(cachedMask), irq) else old(cachedMask)
      ensures descs[irq].status == if descs[irq].action != null then IRQ_PER_CPU else old(descs[irq].status)
      ensures writes == old(writes) + if descs[irq].action != null then [ImrWrite(cachedMask, irq)] else []
      ensures pics.masterIsr == old(pics).masterIsr && pics.slaveIsr == old(pics).slaveIsr
    {
      StatusTests();
      hide ClearLine, Masked, MasterByte, SlaveByte, Word, And;
      if And(descs[irq].status, IRQ_DISABLED + IRQ_INPROGRESS) == 0 && descs[irq].action != null {
        Enable(irq);
      }
    }

    /** A line has an action exactly if one was ever requested on it. */
    lemma ActionExact(irq: nat)
      requires Valid() && irq < NR_IRQS
      ensures descs[irq].action == null <==> descs[irq].requests == []
    {
      assert descs[irq].Chained();
      if descs[irq].requests != [] {
        RequestedChain(descs[irq].requests);
      }
    }

    /** The per-CPU path of `__do_IRQ`, for actions that leave the controllers alone. It follows a
        NULL pointer, here None, exactly if no action was ever requested on the line. Otherwise
        each action is called once, in order, and the line ends unmasked, so that the mask is as
        it was exactly if the line was unmasked. */
    method DoIrq(irq: nat, result: IrqAction -> nat) returns (ret: Option<nat>, called: seq<IrqAction>)
      requires Valid() && irq < NR_IRQS && descs[irq].status == IRQ_PER_CPU
      modifies this`cachedMask, this`pics, this`writes, this`errors, {descs[irq]}`status
      ensures Valid() && called == descs[irq].chain
      ensures forall i :: 0 <= i < NR_IRQS ==>
                (InService(pics, i) <==> InService(old(pics), i) && i != irq && !(irq >= 8 && i == PIC_CASCADE_IR))
      ensures writes == old(writes) + Acknowledged(Masked(old(cachedMask), irq), SetLine(old(cachedMask), irq), irq)
                        + if ret.Some? then [ImrWrite(cachedMask, irq)] else []
      ensures ret == if descs[irq].requests == [] then None else Some(1)
      ensures ret.Some? ==>
                && cachedMask == ClearLine(old(cachedMask), irq)
                && (cachedMask == old(cachedMask) <==> !Masked(old(cachedMask), irq))
      ensures ret.None? ==> cachedMask == SetLine(old(cachedMask), irq)
    {
      StatusTests();
      hide ClearLine, SetLine, Masked, MasterByte, SlaveByte, And, Requested, Acknowledged, U32, InService;
      MaskUnmask(cachedMask, irq);
      ActionExact(irq);
      assert descs[irq].Chained();
      ret, called := None, [];
      if And(descs[irq].status, IRQ_PER_CPU) != 0 {
        MaskAndAck(irq);
        var action := descs[irq].action;
        if action != null {
          var retval;
          retval, called := HandleIrqEvent(action, result, descs[irq].chain);
          ghost var acknowledged := pics;
          End(irq);
          SameService(pics, acknowledged);
          ret := Some(1);
        }
      }
    }

    /** The chains of the other lines do not meet this line's chain. */
    lemma ChainsApart(irq: nat, i: nat)
      requires Table() && Chains() && irq < NR_IRQS && i < NR_IRQS && i != irq
      ensures descs[i] != descs[irq] && forall b :: b in descs[i].chain ==> b !in descs[irq].chain && b in Actions()
    {
      assert descs[i].Tagged(i) && descs[irq].Tagged(irq);
    }

    lemma NotOnChain(irq: nat, a: IrqAction)
      requires Table() && irq < NR_IRQS && a !in Actions()
      ensures a !in descs[irq].chain
    {
    }

    /** The new action on the end of its line's chain, and the other lines' chains as they were. */
    method Join(irq: nat, a: IrqAction) returns (shared: bool, refused: bool)
      requires Table() && Chains() && irq < NR_IRQS && a.next == null && a !in Actions()
      modifies {descs[irq]}`action, {descs[irq]}`chain, {descs[irq]}`requests, descs[irq].chain`next
      ensures forall i :: 0 <= i < NR_IRQS ==> descs[i].Chained()
      ensures forall i :: 0 <= i < NR_IRQS && i != irq ==> descs[i].Tagged(i) && a !in descs[i].chain
      ensures descs[irq].requests == old(descs[irq].requests) + [a]
      ensures refused <==> !Accepts(old(descs[irq].chain), a)
      ensures descs[irq].chain == if refused then old(descs[irq].chain) else old(descs[irq].chain) + [a]
      ensures forall b :: b in old(descs[irq].chain) ==> b.irq == irq
      ensures !refused ==> (shared <==> old(descs[irq].chain) != [])
      ensures refused ==> descs[irq].action == old(descs[irq].action) && Chains()
      ensures shared ==> old(descs[irq].action) != null
      ensures forall i :: 0 <= i < NR_IRQS && i != irq ==> descs[i] != descs[irq]
    {
      hide Requested, Linked, Shares;
      var desc := descs[irq];
      forall i | 0 <= i < NR_IRQS && i != irq
        ensures descs[i] != desc && a !in descs[i].chain
        ensures forall b :: b in descs[i].chain ==> b !in desc.chain
      {
        ChainsApart(irq, i);
        NotOnChain(i, a);
      }
      NotOnChain(irq, a);
      assert desc.Chained() && desc.Tagged(irq);
      shared, refused := desc.Store(a);
      assert refused ==> desc.Tagged(irq);
    }

    /** What `setup_irq` does for the first action of a line. */
    method Start(irq: nat)
      requires Table() && irq < NR_IRQS && ImrCached()
      modifies this`cachedMask, this`pics, this`writes, {descs[irq]}`status, {descs[irq]}`depth
      ensures ImrCached() && cachedMask == ClearLine(old(cachedMask), irq)
      ensures forall i :: 0 <= i < NR_IRQS ==> (Masked(cachedMask, i) <==> i != irq && Masked(old(cachedMask), i))
      ensures descs[irq].status == IRQ_PER_CPU && descs[irq].depth == 0
    {
      hide And, Not, Masked, MasterByte, SlaveByte, Word, ClearLine;
      descs[irq].depth := 0;
      StatusMask();
      descs[irq].status :=
        And(descs[irq].status, Not(IRQ_DISABLED + IRQ_AUTODETECT + IRQ_WAITING + IRQ_INPROGRESS, 32));
      Enable(irq);
    }

    /** What `setup_irq` stores in an accepted action. */
    method Name(irq: nat, a: IrqAction)
      requires Table() && irq < NR_IRQS
      requires forall i :: 0 <= i < NR_IRQS ==> descs[i].Chained()
      requires forall i :: 0 <= i < NR_IRQS && i != irq ==> descs[i].Tagged(i) && a !in descs[i].chain
      requires forall b :: b in descs[irq].chain ==> b == a || b.irq == irq
      modifies a`irq, a`dir
      ensures Chains() && a.irq == irq && a.dir == null
    {
      hide Linked, Requested;
      a.irq := irq;
      a.dir := null;
      assert descs[irq].Tagged(irq);
      assert forall i :: 0 <= i < NR_IRQS && i != irq ==> descs[i].Tagged(i);
    }

    /** `setup_irq`: the request is refused on a line without controller, or when the line's first
        action or the new one does not allow sharing; otherwise the action joins the end of the
        chain, and the first one of a line enables it. */
    method SetupIrq(irq: nat, a: IrqAction) returns (r: int)
      requires Valid() && irq < NR_IRQS && a.next == null && a !in Actions()
      modifies this`cachedMask, this`pics, this`writes, descs[irq], a, descs[irq].chain
      ensures Valid()
      ensures r == if descs[irq].handler == NoIrqType then -ENOSYS
                   else if Accepts(old(descs[irq].chain), a) then 0 else -EBUSY
      ensures descs[irq].requests == old(descs[irq].requests) + if r == -ENOSYS then [] else [a]
      ensures r == 0 ==> a.irq == irq && a.dir == null && descs[irq].chain == old(descs[irq].chain) + [a]
      ensures r != 0 ==> unchanged(a) && descs[irq].chain == old(descs[irq].chain)
      ensures r == 0 && old(descs[irq].chain) == [] ==>
                && cachedMask == ClearLine(old(cachedMask), irq) && !Masked(cachedMask, irq)
                && descs[irq].status == IRQ_PER_CPU && descs[irq].depth == 0
      ensures r != 0 || old(descs[irq].chain) != [] ==>
                && cachedMask == old(cachedMask)
                && descs[irq].status == old(descs[irq].status) && descs[irq].depth == old(descs[irq].depth)
    {
      hide And, Not, Requested, Linked, Masked, MasterByte, SlaveByte, Word, ClearLine, Shares;
      if descs[irq].handler == NoIrqType {
        return -ENOSYS;
      }
      NotOnChain(irq, a);
      var shared, refused := Join(irq, a);
      if refused {
        assert Lines();
        r := -EBUSY;
      } else {
        if !shared {
          Start(irq);
        }
        assert descs[irq].status == IRQ_PER_CPU;
        assert Lines();
        Name(irq, a);
        r := 0;
      }
    }
  }

  /** The lines from the kernel's static data through `init_IRQ`. */
  method Boot() returns (t: IrqTable)
    ensures fresh(t) && fresh(t.descs) && t.Valid()
    ensures forall i :: 0 <= i < NR_IRQS ==> t.descs[i].requests == []
  {
    var descs: seq<IrqDesc> := [];
    while |descs| < NR_IRQS
      invariant |descs| <= NR_IRQS && fresh(descs)
      invariant forall i, j :: 0 <= i < j < |descs| ==> descs[i] != descs[j]
    {
      var d := new IrqDesc();
      descs := descs + [d];
    }
    t := new IrqTable(descs);
    t.InitIrq();
  }
}
