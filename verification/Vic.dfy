/** Interrupt priorities: one byte for each interrupt, four to a register, of
    which the controller keeps the top two bits. */
module Vic {

  const PRIO_BITS: bv32 := 2

  /** The position of an interrupt's byte in its register. */
  function Shift(irq: nat): (s: bv32)
    ensures s <= 24
  {
    var k := irq % 4;
    if k == 0 then 0 else if k == 1 then 8 else if k == 2 then 16 else 24
  }

  function Field(w: bv32, s: bv32): bv32
    requires s <= 24
  {
    (w >> s) & 0xFF
  }

  function Stored(w: bv32, s: bv32, priority: bv32): bv32
    requires s <= 24
  {
    (w & !(0xFF << s)) | (((priority << (8 - PRIO_BITS)) & 0xFF) << s)
  }

  function Priority(w: bv32, s: bv32): bv32
    requires s <= 24
  {
    Field(w, s) >> (8 - PRIO_BITS)
  }

  /** A stored priority reads back modulo four. */
  lemma StoredOwn(w: bv32, s: bv32, priority: bv32)
    requires s == 0 || s == 8 || s == 16 || s == 24
    ensures Priority(Stored(w, s, priority), s) == priority % 4
  {
  }

  lemma StoredAt0(w: bv32, priority: bv32)
    ensures Field(Stored(w, 0, priority), 8) == Field(w, 8)
    ensures Field(Stored(w, 0, priority), 16) == Field(w, 16)
    ensures Field(Stored(w, 0, priority), 24) == Field(w, 24)
  {
  }

  lemma StoredAt8(w: bv32, priority: bv32)
    ensures Field(Stored(w, 8, priority), 0) == Field(w, 0)
    ensures Field(Stored(w, 8, priority), 16) == Field(w, 16)
    ensures Field(Stored(w, 8, priority), 24) == Field(w, 24)
  {
  }

  lemma StoredAt16(w: bv32, priority: bv32)
    ensures Field(Stored(w, 16, priority), 0) == Field(w, 0)
    ensures Field(Stored(w, 16, priority), 8) == Field(w, 8)
    ensures Field(Stored(w, 16, priority), 24) == Field(w, 24)
  {
  }

  lemma StoredAt24(w: bv32, priority: bv32)
    ensures Field(Stored(w, 24, priority), 0) == Field(w, 0)
    ensures Field(Stored(w, 24, priority), 8) == Field(w, 8)
    ensures Field(Stored(w, 24, priority), 16) == Field(w, 16)
  {
  }

  /** The other bytes of the register keep all their bits. */
  lemma StoredOther(w: bv32, i: nat, priority: bv32, j: nat)
    requires i != j && i / 4 == j / 4
    ensures Field(Stored(w, Shift(i), priority), Shift(j)) == Field(w, Shift(j))
  {
    PlacesDiffer(i, j);
    ShiftsKept(w, i % 4, priority, j % 4);
  }

  lemma PlacesDiffer(i: nat, j: nat)
    requires i != j && i / 4 == j / 4
    ensures i % 4 != j % 4 && Shift(i) == Shift(i % 4) && Shift(j) == Shift(j % 4)
  {
  }

  lemma ShiftsKept(w: bv32, p: nat, priority: bv32, q: nat)
    requires p < 4 && q < 4 && p != q
    ensures Field(Stored(w, Shift(p), priority), Shift(q)) == Field(w, Shift(q))
  {
    if p == 0 {
      Kept0(w, priority, q);
    } else if p == 1 {
      Kept1(w, priority, q);
    } else if p == 2 {
      Kept2(w, priority, q);
    } else {
      Kept3(w, priority, q);
    }
  }

  lemma Kept0(w: bv32, priority: bv32, q: nat)
    requires q == 1 || q == 2 || q == 3
    ensures Field(Stored(w, 0, priority), Shift(q)) == Field(w, Shift(q))
  {
    StoredAt0(w, priority);
    if q == 1 {
      assert Shift(q) == 8;
    } else if q == 2 {
      assert Shift(q) == 16;
    } else {
      assert Shift(q) == 24;
    }
  }

  lemma Kept1(w: bv32, priority: bv32, q: nat)
    requires q == 0 || q == 2 || q == 3
    ensures Field(Stored(w, 8, priority), Shift(q)) == Field(w, Shift(q))
  {
    StoredAt8(w, priority);
    if q == 0 {
      assert Shift(q) == 0;
    } else if q == 2 {
      assert Shift(q) == 16;
    } else {
      assert Shift(q) == 24;
    }
  }

  lemma Kept2(w: bv32, priority: bv32, q: nat)
    requires q == 0 || q == 1 || q == 3
    ensures Field(Stored(w, 16, priority), Shift(q)) == Field(w, Shift(q))
  {
    StoredAt16(w, priority);
    if q == 0 {
      assert Shift(q) == 0;
    } else if q == 1 {
      assert Shift(q) == 8;
    } else {
      assert Shift(q) == 24;
    }
  }

  lemma Kept3(w: bv32, priority: bv32, q: nat)
    requires q == 0 || q == 1 || q == 2
    ensures Field(Stored(w, 24, priority), Shift(q)) == Field(w, Shift(q))
  {
    StoredAt24(w, priority);
    if q == 0 {
      assert Shift(q) == 0;
    } else if q == 1 {
      assert Shift(q) == 8;
    } else {
      assert Shift(q) == 16;
    }
  }

  /** Where each interrupt's byte is, and what is left in it: the priority's two
      low bits at its top. */
  lemma Stored0(w: bv32, priority: bv32)
    ensures Stored(w, 0, priority) == (w & 0xFFFF_FF00) | ((priority % 4) << 6)
  {
    LowTwo(priority);
  }

  lemma Stored1(w: bv32, priority: bv32)
    ensures Stored(w, 8, priority) == (w & 0xFFFF_00FF) | ((priority % 4) << 14)
  {
    LowTwo(priority);
  }

  lemma Stored2(w: bv32, priority: bv32)
    ensures Stored(w, 16, priority) == (w & 0xFF00_FFFF) | ((priority % 4) << 22)
  {
    LowTwo(priority);
  }

  lemma Stored3(w: bv32, priority: bv32)
    ensures Stored(w, 24, priority) == (w & 0x00FF_FFFF) | ((priority % 4) << 30)
  {
    LowTwo(priority);
  }

  lemma LowTwo(priority: bv32)
    ensures priority % 4 == priority & 3
  {
  }

  lemma PriorityBits(w: bv32)
    ensures Priority(w, 0) == (w & 0xC0) >> 6
    ensures Priority(w, 8) == (w & 0xC000) >> 14
    ensures Priority(w, 16) == (w & 0xC0_0000) >> 22
    ensures Priority(w, 24) == (w & 0xC000_0000) >> 30
  {
  }

  /** The register with an interrupt's priority in its byte: the two low bits of
      the number at the top of the byte, whose other bits are clear. */
  ghost function Rewritten(w: bv32, place: nat, priority: bv32): bv32 {
    if place == 0 then (w & 0xFFFF_FF00) | ((priority % 4) << 6)
    else if place == 1 then (w & 0xFFFF_00FF) | ((priority % 4) << 14)
    else if place == 2 then (w & 0xFF00_FFFF) | ((priority % 4) << 22)
    else (w & 0x00FF_FFFF) | ((priority % 4) << 30)
  }

  lemma StoredAs(w: bv32, irq: nat, priority: bv32)
    ensures Stored(w, Shift(irq), priority) == Rewritten(w, irq % 4, priority)
  {
    if irq % 4 == 0 {
      Stored0(w, priority);
    } else if irq % 4 == 1 {
      Stored1(w, priority);
    } else if irq % 4 == 2 {
      Stored2(w, priority);
    } else {
      Stored3(w, priority);
    }
  }

  lemma StoredReads(w: bv32, irq: nat, priority: bv32)
    ensures Priority(Stored(w, Shift(irq), priority), Shift(irq)) == priority % 4
    ensures forall j: nat :: j / 4 == irq / 4 && j != irq ==>
              Field(Stored(w, Shift(irq), priority), Shift(j)) == Field(w, Shift(j))
  {
    StoredOwn(w, Shift(irq), priority);
    forall j: nat | j / 4 == irq / 4 && j != irq
      ensures Field(Stored(w, Shift(irq), priority), Shift(j)) == Field(w, Shift(j))
    {
      StoredOther(w, irq, priority, j);
    }
  }

  method StorePriority(w: bv32, irq: nat, priority: bv32) returns (r: bv32)
    ensures r == Rewritten(w, irq % 4, priority)
    ensures Priority(r, Shift(irq)) == priority % 4
    ensures forall j: nat :: j / 4 == irq / 4 && j != irq ==> Field(r, Shift(j)) == Field(w, Shift(j))
  {
    r := Stored(w, Shift(irq), priority);
    StoredAs(w, irq, priority);
    StoredReads(w, irq, priority);
  }

  /** The interrupt's number in the registers. */
  ghost function PriorityIn(ipr: seq<bv32>, irq: nat): bv32
    requires irq / 4 < |ipr|
  {
    Priority(ipr[irq / 4], Shift(irq))
  }

  datatype Op = Set(irq: nat, priority: bv32) | Get(irq: nat)

  /** What an interrupt's priority is after a run: the last one set for it, modulo
      four, or what it was. */
  ghost function LastSet(was: bv32, irq: nat, ops: seq<Op>): bv32 {
    if ops == [] then was
    else
      var last := ops[|ops| - 1];
      if last.Set? && last.irq == irq then last.priority % 4 else LastSet(was, irq, ops[..|ops| - 1])
  }

  lemma LastSetNext(was: bv32, irq: nat, ops: seq<Op>, k: nat)
    requires k < |ops|
    ensures LastSet(was, irq, ops[..k + 1]) == LastSet(LastSet(was, irq, ops[..k]), irq, [ops[k]])
  {
    assert ops[..k + 1][..k] == ops[..k] && [ops[k]][..0] == [];
  }

  ghost predicate Has(ipr: seq<bv32>, op: Op) {
    op.irq / 4 < |ipr|
  }

  /** What the gets of a run return, in order. */
  ghost function Answers(ipr: seq<bv32>, ops: seq<Op>): seq<bv32>
    requires forall op :: op in ops ==> Has(ipr, op)
  {
    if ops == [] then []
    else
      var before, last := ops[..|ops| - 1], ops[|ops| - 1];
      assert last in ops && Has(ipr, last);
      Answers(ipr, before) + (if last.Get? then [LastSet(PriorityIn(ipr, last.irq), last.irq, before)] else [])
  }

  class VicUnit {
    var ipr: seq<bv32>

    constructor (ipr: seq<bv32>)
      ensures this.ipr == ipr
    {
      this.ipr := ipr;
    }

    ghost function ByteOf(irq: nat): bv32
      requires irq / 4 < |ipr|
      reads this
    {
      Field(ipr[irq / 4], Shift(irq))
    }

    ghost function PriorityOf(irq: nat): bv32
      requires irq / 4 < |ipr|
      reads this
    {
      PriorityIn(ipr, irq)
    }

    /** `csi_vic_set_prio`: the priority's two low bits go to the top of the
        interrupt's byte, whose other bits are cleared, and nothing else changes;
        so the interrupt's priority is set modulo four and the others' are kept. */
    method SetPrio(irq: nat, priority: bv32)
      requires irq / 4 < |ipr|
      modifies this
      ensures |ipr| == |old(ipr)| && ipr == old(ipr)[irq / 4 := ipr[irq / 4]]
      ensures irq % 4 == 0 ==> ipr[irq / 4] == (old(ipr)[irq / 4] & 0xFFFF_FF00) | ((priority % 4) << 6)
      ensures irq % 4 == 1 ==> ipr[irq / 4] == (old(ipr)[irq / 4] & 0xFFFF_00FF) | ((priority % 4) << 14)
      ensures irq % 4 == 2 ==> ipr[irq / 4] == (old(ipr)[irq / 4] & 0xFF00_FFFF) | ((priority % 4) << 22)
      ensures irq % 4 == 3 ==> ipr[irq / 4] == (old(ipr)[irq / 4] & 0x00FF_FFFF) | ((priority % 4) << 30)
      ensures PriorityOf(irq) == priority % 4
      ensures forall j: nat :: j / 4 < |ipr| && j != irq ==> ByteOf(j) == old(ByteOf(j))
      ensures forall j: nat :: j / 4 < |ipr| && j != irq ==> PriorityOf(j) == old(PriorityOf(j))
    {
      var w := StorePriority(ipr[irq / 4], irq, priority);
      ipr := ipr[irq / 4 := w];
    }

    /** `csi_vic_get_prio`: the top two bits of the interrupt's byte. */
    method GetPrio(irq: nat) returns (priority: bv32)
      requires irq / 4 < |ipr|
      ensures irq % 4 == 0 ==> priority == (ipr[irq / 4] & 0xC0) >> 6
      ensures irq % 4 == 1 ==> priority == (ipr[irq / 4] & 0xC000) >> 14
      ensures irq % 4 == 2 ==> priority == (ipr[irq / 4] & 0xC0_0000) >> 22
      ensures irq % 4 == 3 ==> priority == (ipr[irq / 4] & 0xC000_0000) >> 30
      ensures priority == PriorityOf(irq)
    {
      priority := Priority(ipr[irq / 4], Shift(irq));
      PriorityBits(ipr[irq / 4]);
    }

    method Do(op: Op) returns (got: seq<bv32>)
      requires Has(ipr, op)
      modifies this
      ensures |ipr| == |old(ipr)|
      ensures forall j: nat :: j / 4 < |ipr| ==> PriorityOf(j) == LastSet(old(PriorityOf(j)), j, [op])
      ensures got == if op.Get? then [old(PriorityOf(op.irq))] else []
    {
      got := [];
      match op {
        case Set(irq, priority) =>
          SetPrio(irq, priority);
        case Get(irq) =>
          var p := GetPrio(irq);
          got := [p];
      }
    }

    /** Over any run of sets and gets, each get returns the last priority set for
        its interrupt before it, modulo four, or the one it began with; and so do
        the registers in the end. */
    method Run(ops: seq<Op>) returns (got: seq<bv32>)
      requires forall op :: op in ops ==> Has(ipr, op)
      modifies this
      ensures |ipr| == |old(ipr)|
      ensures forall j: nat :: j / 4 < |ipr| ==> PriorityOf(j) == LastSet(old(PriorityOf(j)), j, ops)
      ensures got == Answers(old(ipr), ops)
    {
      got := [];
      for k := 0 to |ops|
        invariant |ipr| == |old(ipr)|
        invariant forall j: nat :: j / 4 < |ipr| ==> PriorityOf(j) == LastSet(old(PriorityOf(j)), j, ops[..k])
        invariant got == Answers(old(ipr), ops[..k])
      {
        assert ops[..k + 1][..k] == ops[..k] && ops[k] in ops;
        assert Has(ipr, ops[k]);
        forall j: nat | j / 4 < |ipr|
          ensures LastSet(old(PriorityOf(j)), j, ops[..k + 1]) == LastSet(PriorityOf(j), j, [ops[k]])
        {
          LastSetNext(old(PriorityOf(j)), j, ops, k);
        }
        var more := Do(ops[k]);
        got := got + more;
      }
      assert ops[..|ops|] == ops;
    }
  }
}
