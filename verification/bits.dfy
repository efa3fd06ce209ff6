/** Bit-field algebra on 32-bit register values, following the
    `register_bitfields!` fields the driver declares.

    A field is an offset and a width. Its mask is built bit by bit, so the
    facts about masks (which bits a field covers, when two fields' masks
    overlap) are proved once, by induction, for every field.

    A field value, like the register library's `FieldValue`, carries the
    field's mask together with the new bits already shifted into place, and a
    "modify" is the masked read-modify-write `(r & !mask) | value`. */
module Bits {

  /** A bit-field of a 32-bit register: `width` bits starting at bit `offset`. */
  datatype Field = Field(offset: nat, width: nat) {

    /** The field is non-empty and lies inside a 32-bit register. */
    predicate Valid() {
      1 <= width && offset + width <= 32
    }

    /** Bit `i` belongs to the field. */
    predicate Covers(i: nat) {
      offset <= i < offset + width
    }
  }

  /** Two fields share no bit position. */
  predicate Disjoint(f: Field, g: Field) {
    f.offset + f.width <= g.offset || g.offset + g.width <= f.offset
  }

  /** The register value with only bit `i` set. */
  function BitAt(i: nat): bv32
    requires i < 32
  {
    1 << i
  }

  /** The bits `lo .. lo + n - 1` set, all others clear. */
  function Span(lo: nat, n: nat): bv32
    requires lo + n <= 32
    decreases n
  {
    if n == 0 then 0 else BitAt(lo) | Span(lo + 1, n - 1)
  }

  /** The field's bits set in place. */
  function Mask(f: Field): bv32
    requires f.Valid()
  {
    Span(f.offset, f.width)
  }

  /** Bit `i` of `r` is one. */
  predicate Bit(r: bv32, i: nat)
    requires i < 32
  {
    r & BitAt(i) != 0
  }

  lemma BitsApart(i: nat, j: nat)
    requires i < 32 && j < 32 && i != j
    ensures BitAt(i) & BitAt(j) == 0
  {
    if i < j { BitsBelow(i, j); } else { BitsBelow(j, i); }
  }

  lemma BitsBelow(i: nat, j: nat)
    requires i < j < 32
    ensures BitAt(i) & BitAt(j) == 0
  {
  }

  /** Bit `i` is in the span exactly when `i` lies in its range. */
  lemma {:induction false} SpanBit(lo: nat, n: nat, i: nat)
    requires lo + n <= 32 && i < 32
    ensures Bit(Span(lo, n), i) <==> lo <= i < lo + n
    decreases n
  {
    if n > 0 {
      SpanBit(lo + 1, n - 1, i);
      var rest := Span(lo + 1, n - 1);
      if i == lo {
        assert (BitAt(lo) | rest) & BitAt(i) == BitAt(i);
      } else {
        BitsApart(lo, i);
        assert (BitAt(lo) | rest) & BitAt(i) == rest & BitAt(i);
      }
    }
  }

  /** The span from bit `lo` to the top of the register is all ones shifted
      up by `lo`. */
  lemma {:induction false} SpanToTop(lo: nat)
    requires lo <= 32
    ensures Span(lo, 32 - lo) == 0xFFFF_FFFF << lo
    decreases 32 - lo
  {
    if lo < 32 {
      SpanToTop(lo + 1);
      TopStep(lo);
    }
  }

  lemma TopStep(lo: nat)
    requires lo < 32
    ensures BitAt(lo) | (0xFFFF_FFFF << (lo + 1)) == 0xFFFF_FFFF << lo
  {
  }

  /** A span shares no bit with a bit outside its range. */
  lemma {:induction false} SpanMissesBit(lo: nat, n: nat, i: nat)
    requires lo + n <= 32 && i < 32
    requires !(lo <= i < lo + n)
    ensures Span(lo, n) & BitAt(i) == 0
  {
    SpanBit(lo, n, i);
  }

  /** Spans over disjoint ranges share no bit. */
  lemma {:induction false} SpansApart(lo: nat, n: nat, lo': nat, n': nat)
    requires lo + n <= 32 && lo' + n' <= 32
    requires lo + n <= lo' || lo' + n' <= lo
    ensures Span(lo, n) & Span(lo', n') == 0
    decreases n
  {
    if n > 0 {
      SpansApart(lo + 1, n - 1, lo', n');
      SpanApartStep(lo, n, lo', n');
    }
  }

  lemma SpanApartStep(lo: nat, n: nat, lo': nat, n': nat)
    requires 0 < n && lo + n <= 32 && lo' + n' <= 32
    requires lo + n <= lo' || lo' + n' <= lo
    requires Span(lo + 1, n - 1) & Span(lo', n') == 0
    ensures Span(lo, n) & Span(lo', n') == 0
  {
    SpanMissesBit(lo', n', lo);
    SpanStepMisses(lo, n, Span(lo', n'));
  }

  /** A span misses `c` when its lowest bit and the rest of it both do. */
  lemma SpanStepMisses(lo: nat, n: nat, c: bv32)
    requires 0 < n && lo + n <= 32
    requires Span(lo + 1, n - 1) & c == 0 && c & BitAt(lo) == 0
    ensures Span(lo, n) & c == 0
  {
    OrMisses(BitAt(lo), Span(lo + 1, n - 1), c);
  }

  lemma OrMisses(a: bv32, b: bv32, c: bv32)
    requires c & a == 0 && b & c == 0
    ensures (a | b) & c == 0
  {
  }

  lemma BothHaveBit(a: bv32, b: bv32, i: nat)
    requires i < 32 && Bit(a, i) && Bit(b, i)
    ensures a & b != 0
  {
    var c := BitAt(i);
    assert c & c == c;
    assert (a & b) & c == (a & c) & (b & c);
  }

  /** A field's mask has bit `i` set exactly when the field covers `i`. */
  lemma MaskBit(f: Field, i: nat)
    requires f.Valid() && i < 32
    ensures Bit(Mask(f), i) <==> f.Covers(i)
  {
    SpanBit(f.offset, f.width, i);
  }

  /** Fields that share a bit position have masks that share a bit. */
  lemma OverlapSharesBit(f: Field, g: Field)
    requires f.Valid() && g.Valid() && !Disjoint(f, g)
    ensures Mask(f) & Mask(g) != 0
  {
    var i := if f.offset <= g.offset then g.offset else f.offset;
    MaskBit(f, i);
    MaskBit(g, i);
    BothHaveBit(Mask(f), Mask(g), i);
  }

  /** Two fields are disjoint exactly when their masks share no bit. */
  lemma DisjointMasks(f: Field, g: Field)
    requires f.Valid() && g.Valid()
    ensures Disjoint(f, g) <==> Mask(f) & Mask(g) == 0
  {
    if Disjoint(f, g) {
      SpansApart(f.offset, f.width, g.offset, g.width);
    } else {
      OverlapSharesBit(f, g);
    }
  }

  /** A field value: the field's mask and the new bits in place, as the
      register library stores them. */
  datatype FieldValue = FieldValue(mask: bv32, value: bv32) {

    /** No bit of the value lies outside the mask. */
    predicate Valid() {
      value & !mask == 0
    }
  }

  /** The field value that writes `v` into field `f`; the bits of `v` that do
      not fit in the field are dropped, as the register library does. */
  function Val(f: Field, v: bv32): (fv: FieldValue)
    requires f.Valid()
    ensures fv.Valid() && fv.mask == Mask(f)
    ensures f.offset == 0 ==> fv.value == v & Mask(f)
  {
    FieldValue(Mask(f), (v << f.offset) & Mask(f))
  }

  /** The field set to all ones (the library's `SET`). */
  function SetField(f: Field): (fv: FieldValue)
    requires f.Valid()
    ensures fv.Valid() && fv.mask == Mask(f) && fv.value == Mask(f)
  {
    FieldValue(Mask(f), Mask(f))
  }

  /** The field set to all zeros (the library's `CLEAR`). */
  function ClearField(f: Field): (fv: FieldValue)
    requires f.Valid()
    ensures fv.Valid() && fv.mask == Mask(f) && fv.value == 0
  {
    FieldValue(Mask(f), 0)
  }

  /** Writing zero into a field clears it. */
  lemma ValZero(f: Field)
    requires f.Valid()
    ensures Val(f, 0) == ClearField(f)
  {
    ShiftZero(f.offset);
  }

  /** Shifting zero gives zero. */
  lemma ShiftZero(n: nat)
    requires n < 32
    ensures (0 as bv32) << n == 0
  {
  }

  /** The register holds the field value (the library's `matches_all`). */
  predicate Matches(r: bv32, fv: FieldValue) {
    r & fv.mask == fv.value
  }

  /** A field modify: a read-modify-write that replaces the masked bits. */
  function Modify(r: bv32, fv: FieldValue): (r': bv32)
    ensures fv.Valid() ==> Matches(r', fv)
    ensures fv.Valid() ==> r' & !fv.mask == r & !fv.mask
  {
    MaskedWrite(r, fv.mask, fv.value);
    (r & !fv.mask) | fv.value
  }

  lemma MaskedWrite(r: bv32, m: bv32, v: bv32)
    ensures v & !m == 0 ==> ((r & !m) | v) & m == v
    ensures v & !m == 0 ==> ((r & !m) | v) & !m == r & !m
  {
  }

  /** The modify is the only value that holds the field value and agrees with
      `r` outside the mask. */
  lemma ModifyUnique(r: bv32, fv: FieldValue, r': bv32)
    requires fv.Valid()
    requires Matches(r', fv) && r' & !fv.mask == r & !fv.mask
    ensures r' == Modify(r, fv)
  {
    var m := fv.mask;
    assert r' == (r' & !m) | (r' & m);
  }

  /** A modify is idempotent, and a second modify of the same mask overrides
      the first. */
  lemma ModifyModify(r: bv32, fv: FieldValue, gv: FieldValue)
    requires fv.Valid() && gv.Valid() && fv.mask == gv.mask
    ensures Modify(Modify(r, fv), gv) == Modify(r, gv)
  {
  }

  /** Modifies of fields with disjoint masks commute. */
  lemma ModifyCommute(r: bv32, fv: FieldValue, gv: FieldValue)
    requires fv.Valid() && gv.Valid() && fv.mask & gv.mask == 0
    ensures Modify(Modify(r, fv), gv) == Modify(Modify(r, gv), fv)
  {
  }

  /** A modify leaves the bits under any disjoint mask as they were; with
      `DisjointMasks`, it leaves every field disjoint from its own as it was. */
  lemma ModifyKeepsMask(r: bv32, fv: FieldValue, n: bv32)
    requires fv.Valid() && fv.mask & n == 0
    ensures Modify(r, fv) & n == r & n
  {
    MaskedWriteOther(r, fv.mask, fv.value, n);
  }

  lemma MaskedWriteOther(r: bv32, m: bv32, v: bv32, n: bv32)
    requires v & !m == 0 && m & n == 0
    ensures ((r & !m) | v) & n == r & n
  {
  }

  /** Some bit of the field is one (the library's `is_set`). */
  predicate IsSet(r: bv32, f: Field)
    requires f.Valid()
  {
    r & Mask(f) != 0
  }

  /** A one-bit field is set exactly when its bit is one. */
  lemma IsSetOneBit(r: bv32, f: Field)
    requires f.Valid() && f.width == 1
    ensures IsSet(r, f) <==> Bit(r, f.offset)
  {
    assert Span(f.offset, 1) == BitAt(f.offset) | Span(f.offset + 1, 0);
  }

  /** After `SET` the field reads as set; after `CLEAR` it does not. */
  lemma IsSetAfterModify(r: bv32, f: Field)
    requires f.Valid()
    ensures IsSet(Modify(r, SetField(f)), f)
    ensures !IsSet(Modify(r, ClearField(f)), f)
  {
    MaskBit(f, f.offset);
  }

  /** The field's value shifted down to bit 0 (the library's `read`). */
  function Read(r: bv32, f: Field): bv32
    requires f.Valid()
  {
    (r & Mask(f)) >> f.offset
  }

  /** Reading back a field at offset 0 after writing `v` into it gives `v`
      cut to the field's width. */
  lemma ReadValAtZero(r: bv32, f: Field, v: bv32)
    requires f.Valid() && f.offset == 0
    ensures Read(Modify(r, Val(f, v)), f) == v & Mask(f)
  {
  }

  /** Reading back a one-bit field after writing `v` into it gives the low
      bit of `v`. */
  lemma ReadValOneBit(r: bv32, f: Field, v: bv32)
    requires f.Valid() && f.width == 1
    ensures Read(Modify(r, Val(f, v)), f) == v & 1
  {
    var o := f.offset;
    OneBitMask(f);
    ShiftBridge((v << o) & Mask(f), o);
    ShiftBridge(v, o);
    ShiftBridge(1, o);
    OneBitBack(v, o as bv32);
  }

  /** Reading back a two-bit field after writing `v` into it gives the low
      two bits of `v`. */
  lemma ReadValTwoBits(r: bv32, f: Field, v: bv32)
    requires f.Valid() && f.width == 2
    ensures Read(Modify(r, Val(f, v)), f) == v & 3
  {
    var o := f.offset;
    TwoBitsMask(f);
    ShiftBridge((v << o) & Mask(f), o);
    ShiftBridge(v, o);
    ShiftBridge(3, o);
    TwoBitsBack(v, o as bv32);
  }

  /** Reading back a four-bit field after writing `v` into it gives the low
      four bits of `v`. */
  lemma ReadValFourBits(r: bv32, f: Field, v: bv32)
    requires f.Valid() && f.width == 4
    ensures Read(Modify(r, Val(f, v)), f) == v & 0xF
  {
    var o := f.offset;
    FourBitsMask(f);
    ShiftBridge((v << o) & Mask(f), o);
    ShiftBridge(v, o);
    ShiftBridge(0xF, o);
    FourBitsBack(v, o as bv32);
  }

  /** A shift by a natural number is the shift by the same amount as a
      bit-vector. */
  lemma ShiftBridge(x: bv32, o: nat)
    requires o < 32
    ensures x << o == x << (o as bv32) && x >> o == x >> (o as bv32)
  {
  }

  lemma OneBitBack(v: bv32, s: bv32)
    requires s < 32
    ensures ((v << s) & ((1 as bv32) << s)) >> s == v & 1
  {
  }

  lemma TwoBitsBack(v: bv32, s: bv32)
    requires s < 31
    ensures ((v << s) & ((3 as bv32) << s)) >> s == v & 3
  {
  }

  lemma FourBitsBack(v: bv32, s: bv32)
    requires s < 29
    ensures ((v << s) & ((0xF as bv32) << s)) >> s == v & 0xF
  {
  }

  lemma OneBitMask(f: Field)
    requires f.Valid() && f.width == 1
    ensures Mask(f) == (1 as bv32) << f.offset
  {
    assert Span(f.offset, 1) == BitAt(f.offset) | Span(f.offset + 1, 0);
  }

  lemma TwoBitsMask(f: Field)
    requires f.Valid() && f.width == 2
    ensures Mask(f) == (3 as bv32) << f.offset
  {
    var o := f.offset;
    assert Span(o, 2) == BitAt(o) | (BitAt(o + 1) | Span(o + 2, 0));
    BitAtNext(o);
    TwoBitsFrom(BitAt(o), o);
  }

  lemma FourBitsMask(f: Field)
    requires f.Valid() && f.width == 4
    ensures Mask(f) == (0xF as bv32) << f.offset
  {
    var o := f.offset;
    assert Span(o, 4) == BitAt(o) | (BitAt(o + 1) | (BitAt(o + 2) | (BitAt(o + 3) | Span(o + 4, 0))));
    BitAtNext(o);
    BitAtNext(o + 1);
    BitAtNext(o + 2);
    FourBitsFrom(BitAt(o), o);
  }

  /** The next bit up is this bit shifted by one. */
  lemma BitAtNext(i: nat)
    requires i + 1 < 32
    ensures BitAt(i + 1) == BitAt(i) << 1
  {
  }

  lemma TwoBitsFrom(b: bv32, o: nat)
    requires o + 2 <= 32 && b == (1 as bv32) << o
    ensures b | (b << 1) == (3 as bv32) << o
  {
  }

  lemma FourBitsFrom(b: bv32, o: nat)
    requires o + 4 <= 32 && b == (1 as bv32) << o
    ensures b | ((b << 1) | (((b << 1) << 1) | (((b << 1) << 1) << 1))) == (0xF as bv32) << o
  {
  }

  /** Every field of a register lies inside it. */
  predicate AllValid(fs: seq<Field>) {
    forall i :: 0 <= i < |fs| ==> fs[i].Valid()
  }

  /** Each field ends at or below the start of the one listed before it, the
      order in which the driver lists a register's fields. */
  predicate Descending(fs: seq<Field>) {
    forall i :: 0 < i < |fs| ==> fs[i].offset + fs[i].width <= fs[i - 1].offset
  }

  /** No two fields of the list share a bit position. */
  predicate PairwiseDisjoint(fs: seq<Field>) {
    forall i, j :: 0 <= i < |fs| && 0 <= j < |fs| && i != j ==> Disjoint(fs[i], fs[j])
  }

  /** In a descending list every field lies wholly below every field listed
      before it. */
  lemma {:induction false} DescendingBelow(fs: seq<Field>, i: nat, j: nat)
    requires Descending(fs) && i < j < |fs|
    ensures fs[j].offset + fs[j].width <= fs[i].offset
    decreases j - i
  {
    if i + 1 < j {
      DescendingBelow(fs, i + 1, j);
      assert fs[i + 1].offset + fs[i + 1].width <= fs[i].offset;
    }
  }

  /** A descending list of fields is pairwise disjoint, in bit positions and
      therefore in masks. */
  lemma DescendingDisjoint(fs: seq<Field>)
    requires AllValid(fs) && Descending(fs)
    ensures PairwiseDisjoint(fs)
    ensures forall i, j :: 0 <= i < |fs| && 0 <= j < |fs| && i != j ==> Mask(fs[i]) & Mask(fs[j]) == 0
  {
    forall i, j | 0 <= i < |fs| && 0 <= j < |fs| && i != j
      ensures Disjoint(fs[i], fs[j]) && Mask(fs[i]) & Mask(fs[j]) == 0
    {
      DescendingPair(fs, i, j);
    }
  }

  lemma DescendingPair(fs: seq<Field>, i: nat, j: nat)
    requires AllValid(fs) && Descending(fs)
    requires i < |fs| && j < |fs| && i != j
    ensures Disjoint(fs[i], fs[j]) && Mask(fs[i]) & Mask(fs[j]) == 0
  {
    var f, g := fs[i], fs[j];
    assert f.Valid() && g.Valid();
    if i < j {
      DescendingBelow(fs, i, j);
    } else {
      DescendingBelow(fs, j, i);
    }
    assert Disjoint(f, g);
    DisjointMasks(f, g);
  }
}
