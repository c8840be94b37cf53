/** The cached mask of the two 8259A controllers: one bit a line, one byte a controller. */
module IrqMask {
  import opened Bits
  import opened BitSets

  const NR_IRQS: nat := 16

  /** A value of `cached_irq_mask`. */
  predicate Word(m: nat)
  {
    m < Pow2(32)
  }

  lemma LineIsWord(irq: nat)
    requires irq < NR_IRQS
    ensures Word(Pow2(irq))
  {
    Pow2Mono(irq + 1, 32);
  }

  /** m | (1 << irq). */
  function SetLine(m: nat, irq: nat): nat
    requires irq < NR_IRQS
  {
    Or(m, Pow2(irq))
  }

  /** m & ~(1 << irq). */
  function ClearLine(m: nat, irq: nat): nat
    requires irq < NR_IRQS
  {
    LineIsWord(irq);
    And(m, Not(Pow2(irq), 32))
  }

  /** m & (1 << irq). */
  predicate Masked(m: nat, irq: nat)
    requires irq < NR_IRQS
  {
    And(m, Pow2(irq)) != 0
  }

  function MasterByte(m: nat): nat { m % 256 }

  function SlaveByte(m: nat): nat { m / 256 % 256 }

  /** Two masks with the same bit for every line but irq: the byte of the controller that does not
      serve irq is the same. */
  lemma OtherByte(m: nat, n: nat, irq: nat)
    requires irq < NR_IRQS && forall i :: 0 <= i < NR_IRQS && i != irq ==> (Bit(m, i) <==> Bit(n, i))
    ensures irq >= 8 ==> MasterByte(m) == MasterByte(n)
    ensures irq < 8 ==> SlaveByte(m) == SlaveByte(n)
  {
    assert Pow2(8) == 256;
    hide Pow2, Bit;
    if irq >= 8 {
      SameLow(m, n, 8);
    } else {
      ShrDiv(m, 8);
      ShrDiv(n, 8);
      forall k | 0 <= k < 8
        ensures Bit(m / 256, k) <==> Bit(n / 256, k)
      {
        BitShifted(m, 8, k);
        BitShifted(n, 8, k);
      }
      SameLow(m / 256, n / 256, 8);
    }
  }

  /** Bit i of the master's byte belongs to line i, bit i of the slave's to line 8 + i. */
  lemma ByteBits(m: nat, i: nat)
    requires i < NR_IRQS
    ensures i < 8 ==> (Bit(MasterByte(m), i) <==> Masked(m, i))
    ensures i >= 8 ==> (Bit(SlaveByte(m), i - 8) <==> Masked(m, i))
  {
    assert Pow2(8) == 256;
    hide Pow2, Bit, And;
    AndPow2(m, i);
    if i < 8 {
      BitLow(m, 8, i);
    } else {
      ShrDiv(m, 8);
      BitLow(m / 256, 8, i - 8);
      BitShifted(m, 8, i - 8);
    }
  }

  lemma SetLineBit(m: nat, irq: nat, i: nat)
    requires irq < NR_IRQS
    ensures Bit(SetLine(m, irq), i) <==> i == irq || Bit(m, i)
  {
    hide Or, Bit, Pow2;
    BitOr(m, Pow2(irq), i);
    BitPow2(irq, i);
  }

  lemma ClearLineBit(m: nat, irq: nat, i: nat)
    requires irq < NR_IRQS && i < 32
    ensures Bit(ClearLine(m, irq), i) <==> i != irq && Bit(m, i)
  {
    hide And, Bit, Pow2, Not;
    LineIsWord(irq);
    BitAnd(m, Not(Pow2(irq), 32), i);
    BitNot(Pow2(irq), 32, i);
    BitPow2(irq, i);
  }

  /** The value `cached_irq_mask` starts with masks every line. */
  lemma InitialMask()
    ensures Word(0xffff) && forall irq :: 0 <= irq < NR_IRQS ==> Masked(0xffff, irq)
  {
    LowWord();
    hide Pow2, Bit, And, Not, Masked;
    forall irq | 0 <= irq < NR_IRQS
      ensures Masked(0xffff, irq)
    {
      InitialMaskBit(irq);
    }
  }

  lemma LowWord()
    ensures Word(0xffff) && Pow2(16) == 0x1_0000
  {
    assert Pow2(8) == 256;
    hide Pow2;
    Pow2Split(8, 8);
    WordIsPow2();
  }

  lemma InitialMaskBit(irq: nat)
    requires irq < NR_IRQS
    ensures Masked(0xffff, irq)
  {
    LowWord();
    assert 0xffff == Not(0, 16);
    hide Pow2, Bit, And, Not;
    BitNot(0, 16, irq);
    BitZero(irq);
    AndPow2(0xffff, irq);
  }

  /** Setting a line's bit masks that line only, and leaves the other controller's byte alone. */
  lemma SetLineIs(m: nat, irq: nat)
    requires irq < NR_IRQS && Word(m)
    ensures Word(SetLine(m, irq))
    ensures forall i :: 0 <= i < NR_IRQS ==> (Masked(SetLine(m, irq), i) <==> i == irq || Masked(m, i))
    ensures irq >= 8 ==> MasterByte(SetLine(m, irq)) == MasterByte(m)
    ensures irq < 8 ==> SlaveByte(SetLine(m, irq)) == SlaveByte(m)
  {
    hide And, Or, Bit, Pow2, MasterByte, SlaveByte;
    LineIsWord(irq);
    OrLess(m, Pow2(irq), 32);
    var n := SetLine(m, irq);
    forall i | 0 <= i < NR_IRQS
      ensures Bit(n, i) <==> i == irq || Bit(m, i)
      ensures Masked(n, i) <==> i == irq || Masked(m, i)
    {
      SetLineBit(m, irq, i);
      AndPow2(m, i);
      AndPow2(n, i);
    }
    OtherByte(m, n, irq);
  }

  /** Clearing a line's bit unmasks that line only, and leaves the other controller's byte alone. */
  lemma ClearLineIs(m: nat, irq: nat)
    requires irq < NR_IRQS && Word(m)
    ensures Word(ClearLine(m, irq))
    ensures forall i :: 0 <= i < NR_IRQS ==> (Masked(ClearLine(m, irq), i) <==> i != irq && Masked(m, i))
    ensures irq >= 8 ==> MasterByte(ClearLine(m, irq)) == MasterByte(m)
    ensures irq < 8 ==> SlaveByte(ClearLine(m, irq)) == SlaveByte(m)
  {
    hide And, Bit, Pow2, Not, MasterByte, SlaveByte;
    LineIsWord(irq);
    AndLess(m, Not(Pow2(irq), 32));
    var n := ClearLine(m, irq);
    forall i | 0 <= i < NR_IRQS
      ensures Bit(n, i) <==> i != irq && Bit(m, i)
      ensures Masked(n, i) <==> i != irq && Masked(m, i)
    {
      ClearLineBit(m, irq, i);
      AndPow2(m, i);
      AndPow2(n, i);
    }
    OtherByte(m, n, irq);
  }

  /** Masking an unmasked line and unmasking it again restores the mask; a line that was masked
      before ends unmasked. */
  lemma MaskUnmask(m: nat, irq: nat)
    requires irq < NR_IRQS && Word(m)
    ensures ClearLine(SetLine(m, irq), irq) == ClearLine(m, irq)
    ensures ClearLine(m, irq) == m <==> !Masked(m, irq)
  {
    SetLineIs(m, irq);
    ClearLineIs(m, irq);
    ClearLineIs(SetLine(m, irq), irq);
    hide ClearLine, SetLine, Bit, Pow2, And;
    forall i | 0 <= i < 32
      ensures Bit(ClearLine(SetLine(m, irq), irq), i) <==> Bit(ClearLine(m, irq), i)
      ensures !Masked(m, irq) ==> (Bit(ClearLine(m, irq), i) <==> Bit(m, i))
    {
      ClearLineBit(m, irq, i);
      SetLineBit(m, irq, i);
      ClearLineBit(SetLine(m, irq), irq, i);
      AndPow2(m, irq);
    }
    SameBits(ClearLine(SetLine(m, irq), irq), ClearLine(m, irq), 32);
    if !Masked(m, irq) {
      SameBits(ClearLine(m, irq), m, 32);
    }
  }

  /** Setting the bit of a masked line changes nothing. */
  lemma SetMasked(m: nat, irq: nat)
    requires irq < NR_IRQS && Word(m) && Masked(m, irq)
    ensures SetLine(m, irq) == m
  {
    SetLineIs(m, irq);
    hide SetLine, Bit, Pow2, And;
    forall i | 0 <= i < 32
      ensures Bit(SetLine(m, irq), i) <==> Bit(m, i)
    {
      SetLineBit(m, irq, i);
      AndPow2(m, irq);
    }
    SameBits(SetLine(m, irq), m, 32);
  }
}
