/** The bitmap of node ids in use, with its count of free ids and the lowest free id. */
module BtIds {
  import opened Bits

  lemma {:induction false} NumClearZero(bits: seq<bool>)
    ensures NumClear(bits) == 0 <==> forall i :: 0 <= i < |bits| ==> bits[i]
  {
    if bits != [] {
      var n := |bits| - 1;
      NumClearZero(bits[..n]);
      assert forall i :: 0 <= i < n ==> bits[i] == bits[..n][i];
    }
  }

  class NodeIds {
    var bits: seq<bool>
    var freeNum: nat
    var firstFree: nat

    /** The counter counts the clear bits and `firstFree` is the lowest of them. */
    ghost predicate Valid()
      reads this
    {
      && freeNum == NumClear(bits) && firstFree <= |bits|
      && (forall i :: 0 <= i < firstFree ==> bits[i])
      && (firstFree < |bits| ==> !bits[firstFree])
    }

    /** Counts the set bits and looks for the first clear one. */
    constructor (data: seq<bool>)
      ensures Valid() && bits == data
    {
      bits := data;
      freeNum := 0;
      firstFree := 0;
      new;
      var i := 0;
      while i < |bits|
        invariant i <= |bits| && bits == data && freeNum == NumClear(bits[..i]) && firstFree == 0
      {
        assert bits[..i + 1][..i] == bits[..i];
        if !bits[i] {
          freeNum := freeNum + 1;
        }
        i := i + 1;
      }
      assert bits[..i] == bits;
      FindNextZero(0);
    }

    /** Moves `firstFree` to the first clear bit from `start` on. */
    method FindNextZero(start: nat)
      requires start <= |bits| && forall i :: 0 <= i < start ==> bits[i]
      modifies this`firstFree
      ensures firstFree <= |bits| && (forall i :: 0 <= i < firstFree ==> bits[i])
              && (firstFree < |bits| ==> !bits[firstFree])
    {
      firstFree := start;
      while firstFree < |bits| && bits[firstFree]
        invariant firstFree <= |bits| && forall i :: 0 <= i < firstFree ==> bits[i]
      {
        firstFree := firstFree + 1;
      }
    }

    /** Takes the lowest free id; fails exactly when there is none. */
    method Alloc() returns (ok: bool, id: nat)
      requires Valid()
      modifies this
      ensures Valid() && (ok <==> exists i :: 0 <= i < |old(bits)| && !old(bits)[i])
      ensures ok <==> old(freeNum) > 0
      ensures !ok ==> bits == old(bits) && freeNum == old(freeNum)
      ensures ok ==> id < |old(bits)| && !old(bits)[id] && (forall i :: 0 <= i < id ==> old(bits)[i])
      ensures ok ==> bits == old(bits)[id := true] && freeNum == old(freeNum) - 1
    {
      NumClearZero(bits);
      if freeNum == 0 {
        return false, 0;
      }
      // the test half of test-and-set never trips
      assert firstFree < |bits| && !bits[firstFree];
      ok, id := true, firstFree;
      NumClearUpdate(bits, id, true);
      bits := bits[id := true];
      freeNum := freeNum - 1;
      FindNextZero(id);
    }

    /** Gives an id back. */
    method Destroy(id: nat)
      requires Valid() && id < |bits| && bits[id]
      modifies this
      ensures Valid() && bits == old(bits)[id := false] && freeNum == old(freeNum) + 1
    {
      NumClearUpdate(bits, id, false);
      bits := bits[id := false];
      if firstFree > id {
        firstFree := id;
      }
      freeNum := freeNum + 1;
    }
  }
}
