/** The bit-fields of the TRNG registers the driver uses, one module per
    `register_bitfields!` group of chips/imxrt10xx/src/trng.rs, each listing
    its fields from the most significant down, as the source does. */

/** Miscellaneous control register (MCTL). */
module Control {
  import opened Bits

  const PRGM := Field(16, 1)
  const TSTOP_OK := Field(13, 1)
  const ERR := Field(12, 1)
  const TST_OUT := Field(11, 1)
  const ENT_VAL := Field(10, 1)
  const FCT_VAL := Field(9, 1)
  const FCT_FAIL := Field(8, 1)
  const FOR_SCLK := Field(7, 1)
  const RST_DEF := Field(6, 1)
  const TRNG_ACC := Field(5, 1)
  const UNUSED := Field(4, 1)
  const OSC_DIV := Field(2, 2)
  const SAMP_MODE := Field(0, 2)

  /** Named values of the fields. */
  const PROGRAM_MODE: bv32 := 1
  const RUN_MODE: bv32 := 0
  const OK: bv32 := 1
  const ACC: bv32 := 1
  const DENY: bv32 := 0
  const VON: bv32 := 2

  /** Each named value writes its number into exactly its field's bits:
      the one-bit values 1 and 0 are the field set and cleared, and
      `SAMP_MODE::VON` puts 2 into bits 0-1. */
  lemma NamedValues()
    ensures Val(PRGM, PROGRAM_MODE) == SetField(PRGM)
    ensures Val(PRGM, RUN_MODE) == ClearField(PRGM)
    ensures Val(TSTOP_OK, OK) == SetField(TSTOP_OK)
    ensures Val(TRNG_ACC, ACC) == SetField(TRNG_ACC)
    ensures Val(TRNG_ACC, DENY) == ClearField(TRNG_ACC)
    ensures Val(SAMP_MODE, VON) == FieldValue(0x3, 0x2)
  {
    Masks();
    assert Mask(TSTOP_OK) == 0x2000 && Mask(TRNG_ACC) == 0x20;
  }

  /** The masks of the fields the driver touches. */
  lemma Masks()
    ensures Mask(PRGM) == 0x1_0000 && Mask(RST_DEF) == 0x40
    ensures Mask(SAMP_MODE) == 0x3 && Mask(ENT_VAL) == 0x400
  {
  }

  const Fields: seq<Field> := [PRGM, TSTOP_OK, ERR, TST_OUT, ENT_VAL, FCT_VAL,
    FCT_FAIL, FOR_SCLK, RST_DEF, TRNG_ACC, UNUSED, OSC_DIV, SAMP_MODE]

  /** Every field fits in the register and no two overlap. */
  lemma Layout()
    ensures AllValid(Fields) && PairwiseDisjoint(Fields)
    ensures forall i, j :: 0 <= i < |Fields| && 0 <= j < |Fields| && i != j ==>
      Mask(Fields[i]) & Mask(Fields[j]) == 0
  {
    DescendingDisjoint(Fields);
  }
}

/** Statistical check miscellaneous register (SCMISC). */
module Check {
  import opened Bits

  const RTY_CT := Field(16, 4)
  const LRUN_MAX := Field(0, 8)

  const Fields: seq<Field> := [RTY_CT, LRUN_MAX]

  /** Every field fits in the register and no two overlap. */
  lemma Layout()
    ensures AllValid(Fields) && PairwiseDisjoint(Fields)
  {
    DescendingDisjoint(Fields);
  }
}

/** Status register. */
module Status {
  import opened Bits

  const RETRY_CT := Field(16, 4)
  const TFMB := Field(15, 1)
  const TFP := Field(14, 1)
  const TFLR := Field(13, 1)
  const TFSB := Field(12, 1)
  const TF6PBR1 := Field(11, 1)
  const TF6PBR0 := Field(10, 1)
  const TF5BR1 := Field(9, 1)
  const TF5BR0 := Field(8, 1)
  const TF4BR1 := Field(7, 1)
  const TF4BR0 := Field(6, 1)
  const TF3BR1 := Field(5, 1)
  const TF3BR0 := Field(4, 1)
  const TF2BR1 := Field(3, 1)
  const TF2BR0 := Field(2, 1)
  const TF1BR1 := Field(1, 1)
  const TF1BR0 := Field(0, 1)

  const Fields: seq<Field> := [RETRY_CT, TFMB, TFP, TFLR, TFSB, TF6PBR1, TF6PBR0,
    TF5BR1, TF5BR0, TF4BR1, TF4BR0, TF3BR1, TF3BR0, TF2BR1, TF2BR0, TF1BR1, TF1BR0]

  /** Every field fits in the register and no two overlap. */
  lemma Layout()
    ensures AllValid(Fields) && PairwiseDisjoint(Fields)
    ensures forall i, j :: 0 <= i < |Fields| && 0 <= j < |Fields| && i != j ==>
      Mask(Fields[i]) & Mask(Fields[j]) == 0
  {
    DescendingDisjoint(Fields);
  }
}

/** Entropy read registers ENT0 .. ENT15. */
module EntropyRead {
  import opened Bits

  const ENT := Field(0, 32)

  /** The one field is the whole register: reading it returns the word. */
  lemma WholeWord(r: bv32)
    ensures ENT.Valid() && Read(r, ENT) == r
  {
    SpanToTop(0);
  }
}

/** Interrupt control register (INT_CTRL). */
module InterruptControl {
  import opened Bits

  const UNUSED := Field(3, 29)
  const FRQ_CT_FAIL := Field(2, 1)
  const ENT_VAL := Field(1, 1)
  const HW_ERR := Field(0, 1)

  const Fields: seq<Field> := [UNUSED, FRQ_CT_FAIL, ENT_VAL, HW_ERR]

  /** Every field fits in the register, no two overlap, and together they
      cover all 32 bits. */
  lemma Layout()
    ensures AllValid(Fields) && PairwiseDisjoint(Fields)
    ensures Mask(UNUSED) | Mask(FRQ_CT_FAIL) | Mask(ENT_VAL) | Mask(HW_ERR) == 0xFFFF_FFFF
  {
    DescendingDisjoint(Fields);
    SpanToTop(3);
  }
}

/** Interrupt mask register (INT_MASK). */
module InterruptMask {
  import opened Bits

  const FRQ_CT_FAIL := Field(2, 1)
  const ENT_VAL := Field(1, 1)
  const HW_ERR := Field(0, 1)

  const Fields: seq<Field> := [FRQ_CT_FAIL, ENT_VAL, HW_ERR]

  /** Every field fits in the register and no two overlap. */
  lemma Layout()
    ensures AllValid(Fields) && PairwiseDisjoint(Fields)
  {
    DescendingDisjoint(Fields);
  }
}

/** Interrupt status register (INT_STATUS). */
module InterruptStatus {
  import opened Bits

  const FRQ_CT_FAIL := Field(2, 1)
  const ENT_VAL := Field(1, 1)
  const HW_ERR := Field(0, 1)

  const Fields: seq<Field> := [FRQ_CT_FAIL, ENT_VAL, HW_ERR]

  /** Every field fits in the register and no two overlap. */
  lemma Layout()
    ensures AllValid(Fields) && PairwiseDisjoint(Fields)
  {
    DescendingDisjoint(Fields);
  }
}
