/** `TRNGIter`, the cursor over the sixteen entropy words ENT0 .. ENT15.

    Each `next` reads MCTL afresh, so the hardware may set or clear ENT_VAL,
    or refill the entropy words, between two calls. A run of calls is
    therefore modelled against a sequence of register views, one per call. */
module Entropy {
  import opened Wrappers
  import opened Bits
  import opened Layout
  import Control
  import EntropyRead

  /** The last entropy word index. */
  const LAST: nat := ENT_COUNT - 1

  /** The cursor's state: the index of the next word to read (`idx: usize`). */
  datatype Iter = Iter(idx: nat)

  /** The index names an entropy word. */
  predicate Valid(it: Iter) {
    it.idx <= LAST
  }

  /** What one call of `next` returns and the cursor after it. */
  datatype Step = Step(item: Option<bv32>, iter: Iter)

  /** `TRNGIter::next`: while MCTL's ENT_VAL bit is set, return the word at the
      cursor and advance it, wrapping from ENT15 back to ENT0. The ENT field
      is the whole word (`EntropyRead.WholeWord`), so reading it returns the
      register value. */
  function Next(it: Iter, rf: RegisterFile): (s: Step)
    ensures s.item.None? <==> !IsSet(rf.mctl, Control.ENT_VAL) || it.idx > LAST
    ensures s.item.None? ==> s.iter == it
    ensures s.item.Some? ==> s.item.value == rf.ent[it.idx]
    ensures s.item.Some? ==> s.iter.idx == (it.idx + 1) % ENT_COUNT
  {
    if IsSet(rf.mctl, Control.ENT_VAL) then
      if it.idx < LAST then
        Step(Some(rf.ent[it.idx]), Iter(it.idx + 1))
      else if it.idx == LAST then
        Step(Some(rf.ent[it.idx]), Iter(0))
      else
        Step(None, it)
    else
      Step(None, it)
  }

  /** The word `next` returns is the ENT field read from the entropy
      register at the cursor. */
  lemma NextReadsEnt(it: Iter, rf: RegisterFile)
    requires Next(it, rf).item.Some?
    ensures it.idx < ENT_COUNT
    ensures Next(it, rf).item.value == Read(rf.ent[it.idx], EntropyRead.ENT)
  {
    EntropyRead.WholeWord(rf.ent[it.idx]);
  }

  /** From a valid cursor `next` stays valid, and with ENT_VAL set it always
      yields a word: its last `None` branch is unreachable. */
  lemma NextValid(it: Iter, rf: RegisterFile)
    requires Valid(it)
    ensures Valid(Next(it, rf).iter)
    ensures IsSet(rf.mctl, Control.ENT_VAL) ==> Next(it, rf).item.Some?
  {
  }

  /** The items of successive `next` calls and the cursor after them. */
  datatype RunResult = RunResult(items: seq<Option<bv32>>, iter: Iter)

  /** One `next` call per register view, in order. */
  function Run(it: Iter, views: seq<RegisterFile>): (r: RunResult)
    ensures |r.items| == |views|
    decreases |views|
  {
    if views == [] then RunResult([], it)
    else
      var s := Next(it, views[0]);
      var rest := Run(s.iter, views[1..]);
      RunResult([s.item] + rest.items, rest.iter)
  }

  /** A valid cursor (such as one started at ENT0) stays valid after any
      number of calls. */
  lemma {:induction false} RunValid(it: Iter, views: seq<RegisterFile>)
    requires Valid(it)
    ensures Valid(Run(it, views).iter)
    decreases |views|
  {
    if views != [] {
      NextValid(it, views[0]);
      RunValid(Next(it, views[0]).iter, views[1..]);
    }
  }

  /** ENT_VAL is set in every view. */
  predicate AllReady(views: seq<RegisterFile>) {
    forall k :: 0 <= k < |views| ==> IsSet(views[k].mctl, Control.ENT_VAL)
  }

  /** ENT_VAL is clear in every view. */
  predicate NoneReady(views: seq<RegisterFile>) {
    forall k :: 0 <= k < |views| ==> !IsSet(views[k].mctl, Control.ENT_VAL)
  }

  lemma WrapAdd(a: nat, b: nat)
    ensures ((a + 1) % ENT_COUNT + b) % ENT_COUNT == (a + 1 + b) % ENT_COUNT
  {
  }

  /** While entropy stays valid, the k-th call returns the word at the k-th
      position after the start, modulo sixteen, from whatever the words hold
      at that call, and the cursor ends that many positions on. */
  lemma RunAllReady(it: Iter, views: seq<RegisterFile>)
    requires Valid(it) && AllReady(views)
    ensures forall k :: 0 <= k < |views| ==>
      Run(it, views).items[k] == Some(views[k].ent[(it.idx + k) % ENT_COUNT])
    ensures Run(it, views).iter.idx == (it.idx + |views|) % ENT_COUNT
  {
    forall k | 0 <= k < |views|
      ensures Run(it, views).items[k] == Some(views[k].ent[(it.idx + k) % ENT_COUNT])
    {
      ItemAt(it, views, k);
    }
    CursorAfter(it, views);
  }

  lemma AllReadyTail(views: seq<RegisterFile>)
    requires views != [] && AllReady(views)
    ensures AllReady(views[1..])
  {
    forall k | 0 <= k < |views| - 1 ensures IsSet(views[1..][k].mctl, Control.ENT_VAL) {
      assert views[1..][k] == views[k + 1];
    }
  }

  /** The `k`-th item of a run in which entropy stays valid. */
  lemma {:induction false} ItemAt(it: Iter, views: seq<RegisterFile>, k: nat)
    requires Valid(it) && AllReady(views) && k < |views|
    ensures Run(it, views).items[k] == Some(views[k].ent[(it.idx + k) % ENT_COUNT])
    decreases k
  {
    NextValid(it, views[0]);
    if k == 0 {
      RunCons(it, views);
      Here(it.idx);
    } else {
      var s, rest := Next(it, views[0]), views[1..];
      AllReadyTail(views);
      ItemAt(s.iter, rest, k - 1);
      RunShift(it, views, k);
      assert rest[k - 1] == views[k];
      Advance(it.idx, k);
    }
  }

  /** Item `k > 0` of a run is item `k - 1` of the run after the first call. */
  lemma RunShift(it: Iter, views: seq<RegisterFile>, k: nat)
    requires 0 < k < |views|
    ensures Run(it, views).items[k] == Run(Next(it, views[0]).iter, views[1..]).items[k - 1]
  {
    RunCons(it, views);
  }

  lemma Here(i: nat)
    requires i <= LAST
    ensures (i + 0) % ENT_COUNT == i
  {
  }

  lemma Advance(i: nat, k: nat)
    requires i <= LAST && 0 < k
    ensures ((i + 1) % ENT_COUNT + (k - 1)) % ENT_COUNT == (i + k) % ENT_COUNT
  {
    WrapAdd(i, k - 1);
  }

  /** The cursor after a run in which entropy stays valid. */
  lemma {:induction false} CursorAfter(it: Iter, views: seq<RegisterFile>)
    requires Valid(it) && AllReady(views)
    ensures Run(it, views).iter.idx == (it.idx + |views|) % ENT_COUNT
    decreases |views|
  {
    if views != [] {
      NextValid(it, views[0]);
      AllReadyTail(views);
      CursorAfter(Next(it, views[0]).iter, views[1..]);
      RunCons(it, views);
      WrapAdd(it.idx, |views| - 1);
    }
  }

  /** The first call of a run, then the rest of the run from where it left
      the cursor. */
  lemma RunCons(it: Iter, views: seq<RegisterFile>)
    requires views != []
    ensures Run(it, views).items[0] == Next(it, views[0]).item
    ensures Run(it, views).items[1..] == Run(Next(it, views[0]).iter, views[1..]).items
    ensures Run(it, views).iter == Run(Next(it, views[0]).iter, views[1..]).iter
  {
  }

  /** While entropy is never valid, every call returns `None` and the cursor
      does not move. */
  lemma {:induction false} RunNoneReady(it: Iter, views: seq<RegisterFile>)
    requires NoneReady(views)
    ensures forall k :: 0 <= k < |views| ==> Run(it, views).items[k] == None
    ensures Run(it, views).iter == it
    decreases |views|
  {
    if views != [] {
      var rest := views[1..];
      assert NoneReady(rest) by {
        forall k | 0 <= k < |rest| ensures !IsSet(rest[k].mctl, Control.ENT_VAL) {
          assert rest[k] == views[k + 1];
        }
      }
      RunNoneReady(it, rest);
      var r := Run(it, views);
      forall k | 0 <= k < |views| ensures r.items[k] == None {
        if k > 0 {
          assert r.items[k] == Run(it, rest).items[k - 1];
        }
      }
    }
  }

  /** The words a run yields, in order, dropping the `None`s. */
  function Yielded(items: seq<Option<bv32>>): (ws: seq<bv32>)
    ensures |ws| <= |items|
  {
    if items == [] then []
    else match items[0]
      case Some(w) => [w] + Yielded(items[1..])
      case None => Yielded(items[1..])
  }

  /** The number of views in which ENT_VAL is set. */
  function CountValid(views: seq<RegisterFile>): (n: nat)
    ensures n <= |views|
  {
    if views == [] then 0
    else (if IsSet(views[0].mctl, Control.ENT_VAL) then 1 else 0) + CountValid(views[1..])
  }

  /** With the entropy words unchanged, a run yields one word per call that
      sees ENT_VAL set, the words in cursor order from the start, wrapping
      after ENT15, and the cursor ends that many positions on. */
  lemma {:induction false} RunYields(it: Iter, views: seq<RegisterFile>, ent: EntBank)
    requires Valid(it)
    requires forall k :: 0 <= k < |views| ==> views[k].ent == ent
    ensures |Yielded(Run(it, views).items)| == CountValid(views)
    ensures forall k :: 0 <= k < CountValid(views) ==>
      Yielded(Run(it, views).items)[k] == ent[(it.idx + k) % ENT_COUNT]
    ensures Run(it, views).iter.idx == (it.idx + CountValid(views)) % ENT_COUNT
    decreases |views|
  {
    if views != [] {
      SameEntTail(views, ent);
      NextValid(it, views[0]);
      RunYields(Next(it, views[0]).iter, views[1..], ent);
      YieldsCons(it, views, ent);
    }
  }

  /** A run from `it` yielded one word per view with ENT_VAL set, in cursor
      order, and moved the cursor that many positions on. */
  predicate YieldsInOrder(it: Iter, views: seq<RegisterFile>, ent: EntBank) {
    && |Yielded(Run(it, views).items)| == CountValid(views)
    && (forall k :: 0 <= k < CountValid(views) ==>
         Yielded(Run(it, views).items)[k] == ent[(it.idx + k) % ENT_COUNT])
    && Run(it, views).iter.idx == (it.idx + CountValid(views)) % ENT_COUNT
  }

  lemma SameEntTail(views: seq<RegisterFile>, ent: EntBank)
    requires views != []
    requires forall k :: 0 <= k < |views| ==> views[k].ent == ent
    ensures forall k :: 0 <= k < |views| - 1 ==> views[1..][k].ent == ent
  {
    forall k | 0 <= k < |views| - 1 ensures views[1..][k].ent == ent {
      assert views[1..][k] == views[k + 1];
    }
  }

  /** One call in front of a run that yields in order. */
  lemma YieldsCons(it: Iter, views: seq<RegisterFile>, ent: EntBank)
    requires Valid(it) && views != [] && views[0].ent == ent
    requires YieldsInOrder(Next(it, views[0]).iter, views[1..], ent)
    ensures YieldsInOrder(it, views, ent)
  {
    if IsSet(views[0].mctl, Control.ENT_VAL) {
      YieldsConsValid(it, views, ent);
    } else {
      YieldsConsSkip(it, views, ent);
    }
  }

  lemma YieldsConsValid(it: Iter, views: seq<RegisterFile>, ent: EntBank)
    requires Valid(it) && views != [] && views[0].ent == ent
    requires IsSet(views[0].mctl, Control.ENT_VAL)
    requires YieldsInOrder(Next(it, views[0]).iter, views[1..], ent)
    ensures YieldsInOrder(it, views, ent)
  {
    var s := Next(it, views[0]);
    NextValid(it, views[0]);
    YieldedCons(it, views);
    YieldedStep(it, s.iter, ent, Yielded(Run(s.iter, views[1..]).items));
  }

  lemma YieldsConsSkip(it: Iter, views: seq<RegisterFile>, ent: EntBank)
    requires views != [] && !IsSet(views[0].mctl, Control.ENT_VAL)
    requires YieldsInOrder(Next(it, views[0]).iter, views[1..], ent)
    ensures YieldsInOrder(it, views, ent)
  {
    YieldedCons(it, views);
  }

  /** The words a run yields: the first call's, if any, then the rest's. */
  lemma YieldedCons(it: Iter, views: seq<RegisterFile>)
    requires views != []
    ensures Next(it, views[0]).item.Some? ==>
              Yielded(Run(it, views).items) ==
              [Next(it, views[0]).item.value] + Yielded(Run(Next(it, views[0]).iter, views[1..]).items)
    ensures Next(it, views[0]).item.None? ==>
              Yielded(Run(it, views).items) == Yielded(Run(Next(it, views[0]).iter, views[1..]).items)
  {
    RunCons(it, views);
    var items := Run(it, views).items;
    assert items[0] == Next(it, views[0]).item;
    assert items[1..] == Run(Next(it, views[0]).iter, views[1..]).items;
  }

  /** Putting the word at the cursor in front of the words yielded from the
      next position gives the words yielded from the cursor. */
  lemma YieldedStep(it: Iter, it': Iter, ent: EntBank, tail: seq<bv32>)
    requires Valid(it) && it'.idx == (it.idx + 1) % ENT_COUNT
    requires forall k :: 0 <= k < |tail| ==> tail[k] == ent[(it'.idx + k) % ENT_COUNT]
    ensures forall k :: 0 <= k < |tail| + 1 ==>
      ([ent[it.idx]] + tail)[k] == ent[(it.idx + k) % ENT_COUNT]
    ensures (it'.idx + |tail|) % ENT_COUNT == (it.idx + |tail| + 1) % ENT_COUNT
  {
    forall k | 0 < k < |tail| + 1
      ensures ([ent[it.idx]] + tail)[k] == ent[(it.idx + k) % ENT_COUNT]
    {
      WrapAdd(it.idx, k - 1);
    }
    WrapAdd(it.idx, |tail|);
  }

  /** From ENT0, sixteen calls that all see ENT_VAL yield ENT0 .. ENT15 in
      order and return the cursor to ENT0, so the next call starts over. */
  lemma Batch(views: seq<RegisterFile>)
    requires |views| == ENT_COUNT && AllReady(views)
    ensures forall k :: 0 <= k < ENT_COUNT ==> Run(Iter(0), views).items[k] == Some(views[k].ent[k])
    ensures Run(Iter(0), views).iter == Iter(0)
  {
    forall k | 0 <= k < ENT_COUNT ensures Run(Iter(0), views).items[k] == Some(views[k].ent[k]) {
      ItemAt(Iter(0), views, k);
      FromStart(views[k].ent, k);
    }
    RunAllReady(Iter(0), views);
  }

  /** From ENT0, the `k`-th call reads word `k`. */
  lemma FromStart(ent: EntBank, k: nat)
    requires k < ENT_COUNT
    ensures ent[(0 + k) % ENT_COUNT] == ent[k]
  {
  }
}
