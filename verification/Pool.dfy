/** The object pool (cpp/game/CPool.h, CPool). Objects are represented by the number of their slot. */
module Pool {
  import opened Wrappers
  import opened Bits
  import opened PoolSpec

  class CPool {
    var byteMap: array<Byte>
    var size: nat
    var firstFree: int

    /** A pool over the given flags. */
    constructor Init(size: nat, infos: array<Byte>)
      requires size > 0 && infos.Length == size
      modifies infos
      ensures Valid() && byteMap == infos && this.size == size && Live(Abstract()) == {}
      ensures forall i :: 0 <= i < size ==> IdOf(byteMap[i]) == 0
    {
      byteMap, this.size, firstFree := infos, size, -1;
      new;
      var i := 0;
      while i < size
        invariant i <= size && byteMap == infos && this.size == size && firstFree == -1
        invariant forall k :: 0 <= k < i ==> infos[k] == 128
      {
        infos[i] := WithEmpty(infos[i], true);
        infos[i] := infos[i] - infos[i] % 128;
        i := i + 1;
      }
    }

    ghost predicate Valid()
      reads this, byteMap
    {
      byteMap.Length == size && Ok(Abstract())
    }

    ghost function Abstract(): State
      reads this, byteMap
    {
      State(byteMap[..], firstFree)
    }

    method Clear()
      requires Valid()
      modifies byteMap
      ensures Valid() && Abstract() == AfterClear(old(Abstract()))
    {
      var i := 0;
      while i < size
        invariant i <= size
        invariant forall k :: 0 <= k < i ==> byteMap[k] == WithEmpty(old(byteMap[k]), true)
        invariant forall k :: i <= k < size ==> byteMap[k] == old(byteMap[k])
      {
        byteMap[i] := WithEmpty(byteMap[i], true);
        i := i + 1;
      }
      assert byteMap[..] == AfterClear(old(Abstract())).flags;
    }

    method IsFreeSlotAtIndex(i: nat) returns (r: bool)
      requires Valid() && i < size
      ensures r <==> i !in Live(Abstract())
    {
      r := IsEmpty(byteMap[i]);
    }

    /** Allocates an object; looks at no more slots than two sweeps over the pool. */
    method New() returns (r: Option<nat>, ghost looks: nat)
      requires Valid()
      modifies this`firstFree, byteMap
      ensures Valid() && Abstract() == AfterNew(old(Abstract())) && r == Pick(old(Abstract()))
      ensures looks <= 2 * size
    {
      var reachedTop := false;
      looks := 0;
      ghost var s := Abstract();
      ghost var a := EmptyFrom(s.flags, s.first + 1);
      while true
        invariant -1 <= firstFree < size && byteMap.Length == size && byteMap[..] == s.flags
        invariant looks <= (if reachedTop then size else 0) + firstFree + 1
        invariant !reachedTop ==> EmptyFrom(s.flags, firstFree + 1) == a
        invariant reachedTop ==> a == None && EmptyFrom(s.flags, firstFree + 1) == EmptyFrom(s.flags, 0)
        decreases !reachedTop, size - firstFree
      {
        firstFree := firstFree + 1;
        if firstFree >= size {
          if reachedTop {
            firstFree := -1;
            return None, looks;
          }
          reachedTop := true;
          firstFree := 0;
        }
        looks := looks + 1;
        if IsEmpty(byteMap[firstFree]) {
          break;
        }
      }
      byteMap[firstFree] := WithEmpty(byteMap[firstFree], false);
      byteMap[firstFree] := WithNextId(byteMap[firstFree]);
      r := Some(firstFree);
    }

    method Delete(i: nat)
      requires Valid() && i < size
      modifies this`firstFree, byteMap
      ensures Valid() && Abstract() == AfterDelete(old(Abstract()), i)
    {
      byteMap[i] := WithEmpty(byteMap[i], true);
      if i < firstFree {
        firstFree := i;
      }
    }

    method GetRef(i: nat) returns (ref: int)
      requires Valid() && i < size
      ensures ref == RefOf(Abstract(), i) && Resolve(Abstract(), ref) == Some(i)
      ensures ref / 256 == i && ref % 256 == byteMap[i]
    {
      RefResolves(Abstract(), RefOf(Abstract(), i), i);
      ref := 256 * i + byteMap[i];
    }

    method GetAtRef(ref: int) returns (r: Option<nat>)
      requires Valid()
      ensures r == Resolve(Abstract(), ref)
      ensures forall i: nat :: i < size ==> (r == Some(i) <==> ref == RefOf(Abstract(), i))
      ensures r.Some? ==> r.value < size
    {
      forall i: nat | i < size ensures Resolve(Abstract(), ref) == Some(i) <==> ref == RefOf(Abstract(), i) {
        RefResolves(Abstract(), ref, i);
      }
      var i := ref / 256;
      r := if i >= 0 && i < size && byteMap[i] == ref % 256 then Some(i) else None;
    }

    method GetNoOfUsedSpaces() returns (n: nat)
      requires Valid()
      ensures n == |Live(Abstract())|
    {
      n := 0;
      var i := 0;
      ghost var seen: set<nat> := {};
      while i < size
        invariant i <= size && n == |seen| && seen == set k: nat | k < i && !IsEmpty(byteMap[k])
      {
        var free := IsFreeSlotAtIndex(i);
        if !free {
          n := n + 1;
          seen := seen + {i};
        }
        i := i + 1;
      }
      assert seen == Live(Abstract());
    }

    /** There are none exactly when nothing can be allocated. */
    method GetNoOfFreeSpaces() returns (n: int)
      requires Valid()
      ensures n == size - |Live(Abstract())| >= 0 && (n == 0 <==> Pick(Abstract()) == None)
    {
      NewIsExact(Abstract());
      LiveFits(Abstract());
      var used := GetNoOfUsedSpaces();
      n := size - used;
    }
  }
}
