/** The list of live requests over whole runs of its operations. */
module RegistryRuns {
  import opened Bytes
  import opened ListSpec
  import opened Nodes
  import opened Registry

  ghost predicate Accounted(list: Registry, foreign: set<nat>)
    reads list
  {
    Accounts(list.Contents(), list.live, foreign)
  }

  /** An insertion, the memory of the entry being allocated first. */
  method PerformInsert(list: Registry, e: Entry, ghost foreign: set<nat>)
    requires list.Valid() && Accounted(list, foreign)
    requires Distinct([e.ptr] + e.children) && Owns(e) !! foreign + AllOwned(list.Contents())
    modifies list, list.spine
    ensures list.Valid() && Accounted(list, foreign)
    ensures forall n :: n in list.spine ==> n in old(list.spine) || fresh(n)
    ensures list.Contents() == old(list.Contents()) + [e] && list.freed == old(list.freed)
  {
    AllBlocksOwned(list.spine);
    ghost var live := list.live;
    list.Allocate(Owns(e));
    ghost var n := list.ListInsert(e.ptr, e.children);
    BlocksOwned(n);
    assert list.live == live + Blocks(n);
    InsertAccounts(old(list.Contents()), live, foreign, n);
  }

  method PerformDelete(list: Registry, ptr: nat, ghost foreign: set<nat>)
    requires list.Valid() && Accounted(list, foreign)
    modifies list, list.spine
    ensures list.Valid() && Accounted(list, foreign)
    ensures forall n :: n in list.spine ==> n in old(list.spine)
    ensures list.Contents() == RemoveFirst(old(list.Contents()), ptr)
    ensures list.freed == old(list.freed) + FirstEntry(old(list.Contents()), ptr)
  {
    ghost var k := FirstFor(list.spine, ptr);
    if k < |list.spine| {
      DeleteAccounts(list.spine, list.live, foreign, k);
    }
    list.ListDeleteNode(ptr);
  }

  method PerformClear(list: Registry, ghost foreign: set<nat>)
    requires list.Valid() && Accounted(list, foreign)
    modifies list
    ensures list.Valid() && Accounted(list, foreign) && list.spine == []
    ensures list.Contents() == [] && list.freed == old(list.freed) + old(list.Contents())
  {
    ClearAccounts(list.spine, list.live, foreign);
    list.ListFree();
  }

  method Perform(list: Registry, op: Op, ghost foreign: set<nat>)
    requires list.Valid() && Accounted(list, foreign) && Playable(list.Contents(), [op], foreign)
    modifies list, list.spine
    ensures list.Valid() && Accounted(list, foreign)
    ensures forall n :: n in list.spine ==> n in old(list.spine) || fresh(n)
    ensures list.Contents() == Apply(old(list.Contents()), op)
    ensures list.freed == old(list.freed) + Freed(old(list.Contents()), op)
  {
    match op
    case Insert(e) => PerformInsert(list, e, foreign);
    case Delete(ptr) => PerformDelete(list, ptr, foreign);
    case Clear => PerformClear(list, foreign);
  }

  /**
   Any run of operations: the list is the sequence they describe, the memory
   given back is that of exactly the entries they free, in order, and all other
   memory stays.
   */
  method Play(list: Registry, ops: seq<Op>, ghost foreign: set<nat>)
    requires list.Valid() && Accounted(list, foreign) && Playable(list.Contents(), ops, foreign)
    modifies list, list.spine
    ensures list.Valid() && Accounted(list, foreign)
    ensures list.Contents() == RunOf(old(list.Contents()), ops)
    ensures list.freed == old(list.freed) + FreedBy(old(list.Contents()), ops)
  {
    ghost var start, before := list.Contents(), list.freed;
    assert ops[0..] == ops;
    for i := 0 to |ops|
      invariant list.Valid() && Accounted(list, foreign) && Playable(list.Contents(), ops[i..], foreign)
      invariant forall k :: 0 <= k < |list.spine| ==> list.spine[k] in old(list.spine) || fresh(list.spine[k])
      invariant RunOf(list.Contents(), ops[i..]) == RunOf(start, ops)
      invariant list.freed + FreedBy(list.Contents(), ops[i..]) == before + FreedBy(start, ops)
    {
      ghost var contents, freed, nodes := list.Contents(), list.freed, list.spine;
      PlayStep(contents, ops, i, foreign);
      Perform(list, ops[i], foreign);
      forall k | 0 <= k < |list.spine|
        ensures list.spine[k] in old(list.spine) || fresh(list.spine[k])
      {
        if list.spine[k] in nodes {
          var j :| 0 <= j < |nodes| && nodes[j] == list.spine[k];
        }
      }
      Associates(freed, Freed(contents, ops[i]), FreedBy(list.Contents(), ops[i + 1..]));
    }
    assert list.freed + [] == list.freed;
  }
}
