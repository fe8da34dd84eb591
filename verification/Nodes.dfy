/** The nodes of the list of live requests, how they are linked, and the memory they own. */
module Nodes {
  import opened ListSpec

  /** Something `malloc` has returned. */
  datatype Block = Data(address: nat) | Struct(node: Node) | Table(owner: Node)

  /** Only the link of a node ever changes after `create_node`. */
  class Node {
    const ptr: nat
    const children: seq<Node>
    var next: Node?

    constructor (ptr: nat, children: seq<Node>)
      ensures this.ptr == ptr && this.children == children && next == null
    {
      this.ptr := ptr;
      this.children := children;
      next := null;
    }
  }

  function Pointers(nodes: seq<Node>): seq<nat> {
    seq(|nodes|, i requires 0 <= i < |nodes| => nodes[i].ptr)
  }

  function EntryOf(n: Node): Entry {
    Entry(n.ptr, Pointers(n.children))
  }

  function Entries(spine: seq<Node>): seq<Entry> {
    seq(|spine|, i requires 0 <= i < |spine| => EntryOf(spine[i]))
  }

  /** What belongs to the first `k` children. */
  ghost function ChildBlocks(children: seq<Node>, k: nat): set<Block>
    requires k <= |children|
  {
    (set i | 0 <= i < k :: Data(children[i].ptr)) + (set i | 0 <= i < k :: Struct(children[i]))
  }

  /** Everything `free_node` has to give back. */
  ghost function Blocks(n: Node): set<Block> {
    {Struct(n), Data(n.ptr)} + ChildBlocks(n.children, |n.children|) + (if n.children == [] then {} else {Table(n)})
  }

  /**
   The node, its pointer, each child and its pointer, and the table of
   children if there are any: nothing else is given back, and nothing less.
   */
  lemma BlocksExact(n: Node, b: Block)
    ensures b in Blocks(n) <==>
      || b == Struct(n) || b == Data(n.ptr)
      || (b == Table(n) && |n.children| > 0)
      || (exists c :: c in n.children && (b == Struct(c) || b == Data(c.ptr)))
  {
    if b in ChildBlocks(n.children, |n.children|) {
      var i :| 0 <= i < |n.children| && (b == Struct(n.children[i]) || b == Data(n.children[i].ptr));
      assert n.children[i] in n.children;
    }
    if c :| c in n.children && (b == Struct(c) || b == Data(c.ptr)) {
      var i :| 0 <= i < |n.children| && n.children[i] == c;
    }
  }

  lemma PointersApart(n: Node, i: nat, j: nat)
    requires WellFormed(n) && i < |n.children| && j < |n.children| && i != j
    ensures n.children[i].ptr != n.children[j].ptr
  {
    var all := [n.ptr] + Pointers(n.children);
    assert all[i + 1] == n.children[i].ptr && all[j + 1] == n.children[j].ptr;
  }

  lemma OwnPointerApart(n: Node, i: nat)
    requires WellFormed(n) && i < |n.children|
    ensures n.children[i].ptr != n.ptr
  {
    var all := [n.ptr] + Pointers(n.children);
    assert all[0] == n.ptr && all[i + 1] == n.children[i].ptr;
  }

  lemma ChildBlocksNext(n: Node, k: nat)
    requires WellFormed(n) && k < |n.children|
    ensures ChildBlocks(n.children, k + 1) == ChildBlocks(n.children, k) + {Data(n.children[k].ptr), Struct(n.children[k])}
    ensures ChildBlocks(n.children, k) !! {Data(n.children[k].ptr), Struct(n.children[k])}
    ensures {Data(n.children[k].ptr), Struct(n.children[k])} <= Blocks(n)
  {
    forall i | 0 <= i < k
      ensures n.children[i].ptr != n.children[k].ptr
    {
      PointersApart(n, i, k);
    }
  }

  lemma ChildBlocksApart(n: Node)
    requires WellFormed(n)
    ensures ChildBlocks(n.children, |n.children|) !! {Data(n.ptr), Struct(n), Table(n)}
  {
    forall i | 0 <= i < |n.children|
      ensures n.children[i].ptr != n.ptr
    {
      OwnPointerApart(n, i);
    }
  }

  /** No block of a node is listed twice. */
  ghost predicate WellFormed(n: Node) {
    && Distinct(n.children) && n !in n.children
    && Distinct([n.ptr] + Pointers(n.children))
  }

  /** The node at `k`, or the end of the list. */
  function NodeAt(spine: seq<Node>, k: nat): Node? {
    if k < |spine| then spine[k] else null
  }

  /** The nodes are linked in this order, from `first`. */
  ghost predicate Linked(first: Node?, spine: seq<Node>)
    reads spine
  {
    && first == NodeAt(spine, 0)
    && forall i :: 0 <= i < |spine| ==> spine[i].next == NodeAt(spine, i + 1)
  }

  lemma LinkedTail(first: Node?, spine: seq<Node>)
    requires Linked(first, spine) && spine != []
    ensures Linked(spine[0].next, spine[1..])
  {
    forall i | 0 <= i < |spine[1..]|
      ensures spine[1..][i].next == NodeAt(spine[1..], i + 1)
    {
      assert spine[i + 1].next == NodeAt(spine, i + 2);
    }
  }

  /** Every node owns its blocks alone, all of them are live, and no node was left behind unlinked. */
  ghost predicate Owning(spine: seq<Node>, live: set<Block>) {
    if spine == [] then forall b :: b in live ==> b.Data?
    else WellFormed(spine[0]) && Blocks(spine[0]) <= live && Owning(spine[1..], live - Blocks(spine[0]))
  }

  ghost function AllBlocks(spine: seq<Node>): set<Block> {
    if spine == [] then {} else Blocks(spine[0]) + AllBlocks(spine[1..])
  }

  /** The nodes themselves may still be read. */
  ghost predicate Readable(spine: seq<Node>, live: set<Block>) {
    forall i :: 0 <= i < |spine| ==> Struct(spine[i]) in live
  }

  /** Memory of others does not matter. */
  lemma {:induction false} OwningGrows(spine: seq<Node>, live: set<Block>, more: set<Block>)
    requires Owning(spine, live) && live <= more && forall b :: b in more - live ==> b.Data?
    ensures Owning(spine, more)
  {
    if spine != [] {
      OwningGrows(spine[1..], live - Blocks(spine[0]), more - Blocks(spine[0]));
    }
  }

  lemma {:induction false} OwningOneMore(spine: seq<Node>, live: set<Block>, n: Node)
    requires Owning(spine, live) && WellFormed(n) && Blocks(n) !! AllBlocks(spine)
    ensures Owning(spine + [n], live + Blocks(n))
    ensures AllBlocks(spine + [n]) == AllBlocks(spine) + Blocks(n)
  {
    if spine == [] {
      assert spine + [n] == [n] && [n][1..] == [];
    } else {
      var first := Blocks(spine[0]);
      OwningOneMore(spine[1..], live - first, n);
      assert (spine + [n])[1..] == spine[1..] + [n];
      assert (live + Blocks(n)) - first == (live - first) + Blocks(n);
    }
  }

  lemma {:induction false} BlocksLive(spine: seq<Node>, live: set<Block>)
    requires Owning(spine, live)
    ensures AllBlocks(spine) <= live
  {
    if spine != [] {
      BlocksLive(spine[1..], live - Blocks(spine[0]));
    }
  }

  lemma BlocksAddresses(n: Node)
    ensures forall b :: b in Blocks(n) && b.Data? ==> b.address in [n.ptr] + Pointers(n.children)
  {
    forall b | b in Blocks(n) && b.Data?
      ensures b.address in [n.ptr] + Pointers(n.children)
    {
      if b.address != n.ptr {
        var i :| 0 <= i < |n.children| && b.address == n.children[i].ptr;
        assert ([n.ptr] + Pointers(n.children))[i + 1] == b.address;
      }
    }
  }

  lemma {:induction false} OwningDistinct(spine: seq<Node>, live: set<Block>)
    requires Owning(spine, live)
    ensures Distinct(spine) && Readable(spine, live)
  {
    if spine != [] {
      OwningDistinct(spine[1..], live - Blocks(spine[0]));
      assert Struct(spine[0]) in Blocks(spine[0]);
      assert forall i :: 1 <= i < |spine| ==> spine[i] == spine[1..][i - 1];
    }
  }

  lemma EntriesAppend(spine: seq<Node>, n: Node)
    ensures Entries(spine + [n]) == Entries(spine) + [EntryOf(n)]
  {
  }

  lemma EntriesCons(n: Node, spine: seq<Node>)
    ensures Entries([n] + spine) == [EntryOf(n)] + Entries(spine)
  {
  }

  /** The index of the first node for `ptr`. */
  function FirstFor(spine: seq<Node>, ptr: nat): (k: nat)
    ensures k <= |spine|
  {
    if spine == [] || spine[0].ptr == ptr then 0 else 1 + FirstFor(spine[1..], ptr)
  }

  lemma {:induction false} FirstForIs(spine: seq<Node>, ptr: nat, k: nat)
    requires k <= |spine| && (k < |spine| ==> spine[k].ptr == ptr)
    requires forall i :: 0 <= i < k ==> spine[i].ptr != ptr
    ensures FirstFor(spine, ptr) == k
  {
    if k > 0 {
      FirstForIs(spine[1..], ptr, k - 1);
    }
  }

  function Without(spine: seq<Node>, k: nat): seq<Node>
    requires k < |spine|
  {
    spine[..k] + spine[k + 1..]
  }

  /** Unlinking the first node for `ptr` removes the first entry for it. */
  lemma {:induction false} RemoveFirstFor(spine: seq<Node>, ptr: nat)
    ensures var k := FirstFor(spine, ptr);
      RemoveFirst(Entries(spine), ptr) == if k < |spine| then Entries(Without(spine, k)) else Entries(spine)
  {
    if spine != [] {
      assert Entries(spine)[1..] == Entries(spine[1..]);
      RemoveFirstFor(spine[1..], ptr);
      var k := FirstFor(spine[1..], ptr);
      if spine[0].ptr != ptr && k < |spine[1..]| {
        assert Without(spine, k + 1) == [spine[0]] + Without(spine[1..], k);
        EntriesCons(spine[0], Without(spine[1..], k));
      }
    }
  }

  /** A chain that skips the node at `k`. */
  lemma LinkedWithout(first: Node?, spine: seq<Node>, k: nat)
    requires 0 < k < |spine| && first == spine[0]
    requires forall i :: 0 <= i < |spine| ==> spine[i].next == NodeAt(spine, if i + 1 == k then k + 1 else i + 1)
    ensures Linked(first, Without(spine, k))
  {
    var after := Without(spine, k);
    forall i | 0 <= i < |after|
      ensures after[i].next == NodeAt(after, i + 1)
    {
      var j := if i < k then i else i + 1;
      assert after[i] == spine[j];
    }
  }

  lemma {:induction false} OwningWithout(spine: seq<Node>, live: set<Block>, k: nat)
    requires Owning(spine, live) && k < |spine|
    ensures WellFormed(spine[k]) && Blocks(spine[k]) <= live
    ensures Owning(Without(spine, k), live - Blocks(spine[k]))
  {
    if k == 0 {
      assert Without(spine, 0) == spine[1..];
    } else {
      var first, gone := Blocks(spine[0]), Blocks(spine[k]);
      OwningWithout(spine[1..], live - first, k - 1);
      assert Without(spine, k)[1..] == Without(spine[1..], k - 1);
      assert (live - first) - gone == (live - gone) - first;
    }
  }

  lemma {:induction false} AllBlocksWithout(spine: seq<Node>, live: set<Block>, k: nat)
    requires Owning(spine, live) && k < |spine|
    ensures AllBlocks(spine) == AllBlocks(Without(spine, k)) + Blocks(spine[k])
    ensures AllBlocks(Without(spine, k)) !! Blocks(spine[k])
  {
    var first := Blocks(spine[0]);
    BlocksLive(spine[1..], live - first);
    if k == 0 {
      assert Without(spine, 0) == spine[1..];
    } else {
      AllBlocksWithout(spine[1..], live - first, k - 1);
      assert Without(spine, k)[1..] == Without(spine[1..], k - 1);
    }
  }

  /** Freeing the first node leaves the others what they own. */
  lemma FirstOwned(spine: seq<Node>, live: set<Block>)
    requires Owning(spine, live) && spine != []
    ensures WellFormed(spine[0]) && Blocks(spine[0]) <= live && Struct(spine[0]) in live
    ensures var left := live - Blocks(spine[0]);
      Owning(spine[1..], left) && left - AllBlocks(spine[1..]) == live - AllBlocks(spine)
  {
  }

  /** What the freed node was listed as. */
  lemma {:induction false} FirstEntryFor(spine: seq<Node>, ptr: nat)
    ensures var k := FirstFor(spine, ptr);
      FirstEntry(Entries(spine), ptr) == if k < |spine| then [EntryOf(spine[k])] else []
  {
    if spine != [] {
      assert Entries(spine)[1..] == Entries(spine[1..]);
      FirstEntryFor(spine[1..], ptr);
    }
  }

  lemma BlocksOwned(n: Node)
    ensures forall a :: Data(a) in Blocks(n) <==> a in Owns(EntryOf(n))
  {
    forall a
      ensures Data(a) in Blocks(n) <==> a in Owns(EntryOf(n))
    {
      if a in Pointers(n.children) {
        var i :| 0 <= i < |n.children| && Pointers(n.children)[i] == a;
        assert Data(n.children[i].ptr) in ChildBlocks(n.children, |n.children|);
      }
      if Data(a) in ChildBlocks(n.children, |n.children|) {
        var i :| 0 <= i < |n.children| && n.children[i].ptr == a;
        assert Pointers(n.children)[i] == a;
      }
    }
  }

  /** The addresses the nodes own are those of their entries. */
  lemma {:induction false} AllBlocksOwned(spine: seq<Node>)
    ensures forall a :: Data(a) in AllBlocks(spine) <==> a in AllOwned(Entries(spine))
  {
    if spine != [] {
      BlocksOwned(spine[0]);
      AllBlocksOwned(spine[1..]);
      assert Entries(spine)[1..] == Entries(spine[1..]);
    }
  }

  /** The memory in use is that of the entries and what is foreign to them, and these are apart. */
  ghost predicate Accounts(entries: seq<Entry>, live: set<Block>, foreign: set<nat>) {
    && (forall a :: Data(a) in live <==> a in foreign || a in AllOwned(entries))
    && foreign !! AllOwned(entries)
  }

  lemma {:induction false} AllOwnedAppend(entries: seq<Entry>, e: Entry)
    ensures AllOwned(entries + [e]) == AllOwned(entries) + Owns(e)
  {
    if entries == [] {
      assert [] + [e] == [e] && [e][1..] == [];
    } else {
      AllOwnedAppend(entries[1..], e);
      assert (entries + [e])[1..] == entries[1..] + [e];
    }
  }

  lemma InsertAccounts(entries: seq<Entry>, live: set<Block>, foreign: set<nat>, n: Node)
    requires Accounts(entries, live, foreign) && Owns(EntryOf(n)) !! foreign
    ensures Accounts(entries + [EntryOf(n)], live + Blocks(n), foreign)
  {
    BlocksOwned(n);
    AllOwnedAppend(entries, EntryOf(n));
  }

  lemma DeleteAccounts(spine: seq<Node>, live: set<Block>, foreign: set<nat>, k: nat)
    requires Owning(spine, live) && k < |spine| && Accounts(Entries(spine), live, foreign)
    ensures Accounts(Entries(Without(spine, k)), live - Blocks(spine[k]), foreign)
  {
    AllBlocksWithout(spine, live, k);
    AllBlocksOwned(spine);
    AllBlocksOwned(Without(spine, k));
  }

  lemma ClearAccounts(spine: seq<Node>, live: set<Block>, foreign: set<nat>)
    requires Owning(spine, live) && Accounts(Entries(spine), live, foreign)
    ensures Accounts([], live - AllBlocks(spine), foreign)
  {
    AllBlocksOwned(spine);
  }
}
