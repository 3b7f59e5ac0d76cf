/** What the object pool means: slots with a generation byte, and runs of operations on them (cpp/game/CPool.h). */
module PoolSpec {
  import opened Wrappers
  import opened Bits

  // ---------- the flags byte: seven bits of generation, one bit of emptiness ----------

  function IdOf(b: Byte): nat {
    b % 128
  }

  predicate IsEmpty(b: Byte) {
    b / 128 == 1
  }

  function WithEmpty(b: Byte, empty: bool): (r: Byte)
    ensures IsEmpty(r) == empty && IdOf(r) == IdOf(b)
  {
    b % 128 + if empty then 128 else 0
  }

  /** Incrementing the generation does not carry into the bit of emptiness. */
  function WithNextId(b: Byte): (r: Byte)
    ensures IsEmpty(r) == IsEmpty(b) && IdOf(r) == (IdOf(b) + 1) % 128
  {
    b / 128 * 128 + (b % 128 + 1) % 128
  }

  lemma ByteIs(a: Byte, b: Byte)
    ensures a == b <==> IdOf(a) == IdOf(b) && IsEmpty(a) == IsEmpty(b)
  {
  }

  // ---------- states and operations ----------

  /** The flags of all slots, and where the last search ended. */
  datatype State = State(flags: seq<Byte>, first: int)

  predicate Ok(s: State) {
    |s.flags| > 0 && -1 <= s.first < |s.flags|
  }

  function Live(s: State): set<nat> {
    set i: nat | i < |s.flags| && !IsEmpty(s.flags[i])
  }

  /** The first empty slot from k on. */
  function EmptyFrom(flags: seq<Byte>, k: nat): (r: Option<nat>)
    ensures r.Some? ==> k <= r.value < |flags| && IsEmpty(flags[r.value])
    ensures r.Some? ==> forall i :: k <= i < r.value ==> !IsEmpty(flags[i])
    ensures r.None? ==> forall i :: k <= i < |flags| ==> !IsEmpty(flags[i])
    decreases |flags| - k
  {
    if k >= |flags| then None else if IsEmpty(flags[k]) then Some(k) else EmptyFrom(flags, k + 1)
  }

  /** The slot that New picks: the next empty one after the last search, going round once. */
  function Pick(s: State): Option<nat>
    requires Ok(s)
  {
    var a := EmptyFrom(s.flags, s.first + 1);
    if a.Some? then a else EmptyFrom(s.flags, 0)
  }

  datatype Op = New | Delete(slot: nat) | Clear

  predicate Allowed(s: State, op: Op) {
    op.Delete? ==> op.slot < |s.flags|
  }

  function AfterNew(s: State): (r: State)
    requires Ok(s)
    ensures Ok(r) && |r.flags| == |s.flags|
  {
    match Pick(s)
    case None => State(s.flags, -1)
    case Some(i) => State(s.flags[i := WithNextId(WithEmpty(s.flags[i], false))], i)
  }

  function AfterDelete(s: State, i: nat): (r: State)
    requires Ok(s) && i < |s.flags|
    ensures Ok(r) && |r.flags| == |s.flags|
  {
    State(s.flags[i := WithEmpty(s.flags[i], true)], if i < s.first then i else s.first)
  }

  function AfterClear(s: State): (r: State)
    requires Ok(s)
    ensures Ok(r) && |r.flags| == |s.flags|
  {
    State(seq(|s.flags|, i requires 0 <= i < |s.flags| => WithEmpty(s.flags[i], true)), s.first)
  }

  function After(s: State, op: Op): (r: State)
    requires Ok(s) && Allowed(s, op)
    ensures Ok(r) && |r.flags| == |s.flags|
  {
    match op
    case New => AfterNew(s)
    case Delete(i) => AfterDelete(s, i)
    case Clear => AfterClear(s)
  }

  /**
   New fails exactly when the pool is full; otherwise it takes one slot that was not live, and no other slot
   changes.
   */
  lemma NewIsExact(s: State)
    requires Ok(s)
    ensures Pick(s).None? <==> |Live(s)| == |s.flags|
    ensures Pick(s).Some? ==> Pick(s).value !in Live(s) && Live(AfterNew(s)) == Live(s) + {Pick(s).value}
    ensures Pick(s).None? ==> Live(AfterNew(s)) == Live(s)
  {
    var all := Slots(|s.flags|);
    if Pick(s).None? {
      assert Live(s) == all;
    } else {
      assert Live(s) <= all - {Pick(s).value};
      SubsetSize(Live(s), all - {Pick(s).value});
      assert Pick(s).value in all;
    }
  }

  /** Slot e is in use when slot i has been released. */
  predicate UsedBut(s: State, i: nat, e: nat) {
    e in Live(s) && e != i
  }

  /**
   Which slot New gives after Delete: the first one free behind the slot released, or behind the one given last if that
   is lower; when there is none up to the end, the first one free from the start.
   */
  lemma NewAfterDelete(s: State, i: nat)
    requires Ok(s) && i < |s.flags|
    ensures var start, r := if i < s.first then i else s.first, Pick(AfterDelete(s, i));
            && r.Some? && r.value < |s.flags| && !UsedBut(s, i, r.value)
            && (if r.value > start then forall e: nat :: start < e < r.value ==> UsedBut(s, i, e)
                else
                  && (forall e: nat :: start < e < |s.flags| ==> UsedBut(s, i, e))
                  && (forall e: nat :: e < r.value ==> UsedBut(s, i, e)))
  {
    var t := AfterDelete(s, i);
    assert forall e: nat :: e < |s.flags| ==> (!IsEmpty(t.flags[e]) <==> UsedBut(s, i, e));
    assert IsEmpty(t.flags[i]);
  }

  /** Slots 0 to 5 of eight are in use, the last one given last; after releasing 2 and then 3, New gives 3. */
  lemma SecondReleasedComesFirst(s: State)
    requires |s.flags| == 8 && s.first == 5 && Live(s) == {0, 1, 2, 3, 4, 5}
    ensures Pick(AfterDelete(AfterDelete(s, 2), 3)) == Some(3)
  {
    var t := AfterDelete(s, 2);
    assert forall e: nat :: e < 8 ==> (e in Live(t) <==> UsedBut(s, 2, e));
    NewAfterDelete(t, 3);
  }

  lemma LiveFits(s: State)
    ensures |Live(s)| <= |s.flags|
  {
    SubsetSize(Live(s), Slots(|s.flags|));
  }

  function Slots(n: nat): (r: set<nat>)
    ensures |r| == n && forall i: nat :: i in r <==> i < n
  {
    if n == 0 then {} else Slots(n - 1) + {n - 1}
  }

  lemma {:induction false} SubsetSize(a: set<nat>, b: set<nat>)
    requires a <= b
    ensures |a| <= |b|
  {
    if a == {} {
    } else {
      var x :| x in a;
      SubsetSize(a - {x}, b - {x});
    }
  }

  lemma DeleteIsExact(s: State, i: nat)
    requires Ok(s) && i < |s.flags|
    ensures Live(AfterDelete(s, i)) == Live(s) - {i}
  {
  }

  lemma ClearIsExact(s: State)
    requires Ok(s)
    ensures Live(AfterClear(s)) == {}
  {
  }

  // ---------- handles ----------

  /** The handle of slot i: its index and its flags. */
  function RefOf(s: State, i: nat): int
    requires i < |s.flags|
  {
    256 * i + s.flags[i]
  }

  /** The slot a handle stands for. */
  function Resolve(s: State, ref: int): Option<nat> {
    var i := ref / 256;
    if 0 <= i < |s.flags| && s.flags[i] == ref % 256 then Some(i) else None
  }

  /** A handle resolves to a slot exactly if it is that slot's handle. */
  lemma RefResolves(s: State, ref: int, i: nat)
    ensures Resolve(s, ref) == Some(i) <==> i < |s.flags| && ref == RefOf(s, i)
  {
  }

  // ---------- runs ----------

  predicate Runs(s: State, ops: seq<Op>)
    requires Ok(s)
  {
    forall k :: 0 <= k < |ops| ==> Allowed(s, ops[k])
  }

  /** The state after the operations, one after the other. */
  function Run(s: State, ops: seq<Op>): (r: State)
    requires Ok(s) && Runs(s, ops)
    ensures Ok(r) && |r.flags| == |s.flags|
    decreases |ops|
  {
    if ops == [] then s else Run(After(s, ops[0]), ops[1..])
  }

  /** How often the operations allocate slot i. */
  function Allocations(s: State, ops: seq<Op>, i: nat): nat
    requires Ok(s) && Runs(s, ops)
    decreases |ops|
  {
    if ops == [] then 0
    else (if ops[0] == New && Pick(s) == Some(i) then 1 else 0) + Allocations(After(s, ops[0]), ops[1..], i)
  }

  lemma {:induction false} GenerationCounts(s: State, ops: seq<Op>, i: nat)
    requires Ok(s) && Runs(s, ops) && i < |s.flags|
    ensures IdOf(Run(s, ops).flags[i]) == (IdOf(s.flags[i]) + Allocations(s, ops, i)) % 128
    decreases |ops|
  {
    hide After, Pick, IdOf;
    IdBound(s.flags[i]);
    if ops == [] {
    } else {
      GenerationCounts(After(s, ops[0]), ops[1..], i);
      GenerationStep(s, ops[0], i);
      AddModulo(IdOf(s.flags[i]), if ops[0] == New && Pick(s) == Some(i) then 1 else 0,
                Allocations(After(s, ops[0]), ops[1..], i));
    }
  }

  lemma GenerationStep(s: State, op: Op, i: nat)
    requires Ok(s) && Allowed(s, op) && i < |s.flags|
    ensures IdOf(After(s, op).flags[i]) == (IdOf(s.flags[i]) + if op == New && Pick(s) == Some(i) then 1 else 0) % 128
  {
  }

  lemma IdBound(b: Byte)
    ensures IdOf(b) < 128
  {
  }

  lemma AddModulo(a: nat, b: nat, c: nat)
    requires a < 128
    ensures ((a + b) % 128 + c) % 128 == (a + (b + c)) % 128
  {
  }

  /**
   A handle, whenever it is taken, resolves after any run exactly if the slot is as live as it was then and has been
   allocated a multiple of 128 times since; it never resolves to another slot.
   */
  lemma HandleResolvesIff(s: State, ops: seq<Op>, i: nat)
    requires Ok(s) && Runs(s, ops) && i < |s.flags|
    ensures Resolve(Run(s, ops), RefOf(s, i)) ==
            if (i in Live(Run(s, ops)) <==> i in Live(s)) && Allocations(s, ops, i) % 128 == 0 then Some(i) else None
  {
    hide Run, Allocations;
    var b, b' := s.flags[i], Run(s, ops).flags[i];
    GenerationCounts(s, ops, i);
    ByteIs(b, b');
    assert RefOf(s, i) / 256 == i && RefOf(s, i) % 256 == b;
    Congruent(IdOf(b), Allocations(s, ops, i));
  }

  lemma Congruent(a: nat, n: nat)
    requires a < 128
    ensures (a + n) % 128 == a <==> n % 128 == 0
  {
  }

  /** As long as nothing releases a live slot, it is not handed out again and its handle stays good. */
  lemma {:induction false} KeptSlotStays(s: State, ops: seq<Op>, i: nat)
    requires Ok(s) && Runs(s, ops) && i in Live(s)
    requires forall k :: 0 <= k < |ops| ==> ops[k] != Delete(i) && ops[k] != Clear
    ensures Allocations(s, ops, i) == 0 && i in Live(Run(s, ops)) && Resolve(Run(s, ops), RefOf(s, i)) == Some(i)
    decreases |ops|
  {
    hide EmptyFrom;
    if ops == [] {
    } else {
      NewIsExact(s);
      KeptSlotStays(After(s, ops[0]), ops[1..], i);
      SameFlags(s, ops[0], i);
    }
  }

  lemma SameFlags(s: State, op: Op, i: nat)
    requires Ok(s) && Allowed(s, op) && i in Live(s) && op != Delete(i) && op != Clear
    ensures After(s, op).flags[i] == s.flags[i]
  {
  }
}
