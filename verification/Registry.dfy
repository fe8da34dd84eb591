/** The linked list of live requests: it owns every request and every chunk it is given, until it frees them. */
module Registry {
  import opened Bytes
  import opened ListSpec
  import opened Nodes

  class Registry {
    var head: Node?
    /** The linked nodes, in order. */
    ghost var spine: seq<Node>
    /** Everything allocated and not yet freed. */
    ghost var live: set<Block>
    /** The entries whose memory has been given back, in order. */
    ghost var freed: seq<Entry>

    ghost function Contents(): seq<Entry>
      reads this
    {
      Entries(spine)
    }

    /** The list is acyclic, owns its blocks, and no node was left behind unlinked. */
    ghost predicate Valid()
      reads this, spine
    {
      Linked(head, spine) && Owning(spine, live)
    }

    constructor ()
      ensures Valid() && Contents() == [] && live == {} && freed == []
    {
      head := null;
      spine := [];
      live := {};
      freed := [];
    }

    /** Reading a node is allowed only until it is freed. */
    function Next(n: Node): Node?
      requires Struct(n) in live
      reads this`live, n`next
    {
      n.next
    }

    function Ptr(n: Node): nat
      requires Struct(n) in live
      reads this`live
    {
      n.ptr
    }

    /** `free`: of a live block only, so never twice. */
    ghost method Free(b: Block)
      requires b in live
      modifies this`live
      ensures live == old(live) - {b}
    {
      live := live - {b};
    }

    /** `malloc` in the caller. */
    ghost method Allocate(addresses: set<nat>)
      requires Valid() && forall a :: a in addresses ==> Data(a) !in live
      modifies this`live
      ensures Valid() && live == old(live) + set a | a in addresses :: Data(a)
    {
      OwningGrows(spine, live, live + set a | a in addresses :: Data(a));
      live := live + set a | a in addresses :: Data(a);
    }

    method CreateNode(ptr: nat, children: seq<nat>) returns (n: Node)
      requires Distinct([ptr] + children) && forall a :: a in [ptr] + children ==> Data(a) in live
      modifies this`live
      ensures fresh(n) && n.next == null && (forall c :: c in n.children ==> fresh(c))
      ensures WellFormed(n) && EntryOf(n) == Entry(ptr, children)
      ensures live == old(live) + Blocks(n)
      ensures forall b :: b in Blocks(n) && !b.Data? ==> b !in old(live)
    {
      var nodes: seq<Node> := [];
      for i := 0 to |children|
        invariant |nodes| == i && (forall k :: 0 <= k < i ==> fresh(nodes[k]) && nodes[k].ptr == children[k])
        invariant Distinct(nodes) && live == old(live)
      {
        var child := new Node(children[i], []);
        nodes := nodes + [child];
      }
      n := new Node(ptr, nodes);
      assert Pointers(nodes) == children;
      live := live + Blocks(n);
    }

    /** The walk to the end of the list. */
    method Last() returns (temp: Node)
      requires Linked(head, spine) && Readable(spine, live) && head != null
      ensures temp == spine[|spine| - 1]
    {
      temp := head;
      ghost var k := 0;
      while Next(temp) != null
        invariant 0 <= k < |spine| && temp == spine[k]
        invariant temp.next == NodeAt(spine, k + 1)
        decreases |spine| - k
      {
        temp := Next(temp);
        k := k + 1;
      }
    }

    /** Linking a new node behind the last one. */
    method Append(node: Node)
      requires Linked(head, spine) && Readable(spine, live) && Distinct(spine) && node.next == null && node !in spine
      modifies this`head, this`spine, spine
      ensures spine == old(spine) + [node] && Linked(head, spine) && live == old(live) && freed == old(freed)
    {
      if head == null {
        head := node;
      } else {
        var temp := Last();
        temp.next := node;
      }
      spine := spine + [node];
    }

    method ListInsert(ptr: nat, children: seq<nat>) returns (ghost n: Node)
      requires Valid() && Distinct([ptr] + children)
      requires forall a :: a in [ptr] + children ==> Data(a) in live && Data(a) !in AllBlocks(spine)
      modifies this, spine
      ensures Valid() && Contents() == old(Contents()) + [Entry(ptr, children)]
      ensures spine == old(spine) + [n] && fresh(n) && EntryOf(n) == Entry(ptr, children)
      ensures live == old(live) + Blocks(n) && freed == old(freed)
    {
      BlocksLive(spine, live);
      var node := CreateNode(ptr, children);
      n := node;
      BlocksAddresses(n);
      OwningOneMore(spine, old(live), n);
      EntriesAppend(spine, n);
      OwningDistinct(spine, old(live));
      Append(node);
    }

    method FreeNode(n: Node)
      requires WellFormed(n) && Blocks(n) <= live
      modifies this`live, this`freed
      ensures live == old(live) - Blocks(n) && freed == old(freed) + [EntryOf(n)]
    {
      ChildBlocksApart(n);
      if |n.children| > 0 {
        for i := 0 to |n.children|
          invariant live == old(live) - ChildBlocks(n.children, i) && freed == old(freed)
        {
          ChildBlocksNext(n, i);
          Free(Data(n.children[i].ptr));
          Free(Struct(n.children[i]));
        }
        Free(Table(n));
      }
      Free(Data(n.ptr));
      Free(Struct(n));
      freed := freed + [EntryOf(n)];
    }

    /** The walk to the first node for `ptr`, and the node before it. */
    method Find(ptr: nat) returns (prev: Node?, current: Node?, ghost k: nat)
      requires Linked(head, spine) && Readable(spine, live)
      ensures k == FirstFor(spine, ptr)
      ensures current == NodeAt(spine, k)
      ensures prev == if k == 0 then null else spine[k - 1]
    {
      prev, current := null, head;
      k := 0;
      while current != null && Ptr(current) != ptr
        invariant k <= |spine| && forall i :: 0 <= i < k ==> spine[i].ptr != ptr
        invariant current == NodeAt(spine, k)
        invariant prev == if k == 0 then null else spine[k - 1]
        decreases |spine| - k
      {
        assert spine[k].next == NodeAt(spine, k + 1);
        prev := current;
        current := Next(current);
        k := k + 1;
      }
      FirstForIs(spine, ptr, k);
    }

    /** Taking the node at `k` out of the chain. */
    method Unlink(prev: Node?, current: Node, ghost k: nat)
      requires Linked(head, spine) && Distinct(spine) && Struct(current) in live
      requires k < |spine| && current == spine[k] && prev == if k == 0 then null else spine[k - 1]
      modifies this`head, this`spine, if prev == null then {} else {prev}
      ensures spine == Without(old(spine), k) && Linked(head, spine) && live == old(live) && freed == old(freed)
    {
      ghost var before := spine;
      assert spine[k].next == NodeAt(spine, k + 1);
      if prev == null {
        head := Next(current);
        LinkedTail(current, before);
        assert Without(before, 0) == before[1..];
      } else {
        prev.next := Next(current);
        assert forall i :: 0 <= i < |before| && i != k - 1 ==> before[i] != prev;
        LinkedWithout(head, before, k);
      }
      spine := Without(spine, k);
    }

    /** Unlinking a node, then freeing it. */
    method Remove(prev: Node?, current: Node, ghost k: nat)
      requires Valid() && k < |spine| && current == spine[k] && prev == if k == 0 then null else spine[k - 1]
      modifies this`head, this`spine, this`live, this`freed, spine
      ensures Valid() && spine == Without(old(spine), k) && live == old(live) - Blocks(current)
      ensures freed == old(freed) + [EntryOf(current)]
    {
      OwningDistinct(spine, live);
      OwningWithout(spine, live, k);
      Unlink(prev, current, k);
      FreeNode(current);
    }

    /** Only the first entry for `ptr` goes, and with it all its memory and nothing else's. */
    method ListDeleteNode(ptr: nat)
      requires Valid()
      modifies this, spine
      ensures Valid() && Contents() == RemoveFirst(old(Contents()), ptr)
      ensures var k := FirstFor(old(spine), ptr);
        if k == |old(spine)| then live == old(live) && spine == old(spine)
        else live == old(live) - Blocks(old(spine)[k]) && spine == Without(old(spine), k)
      ensures freed == old(freed) + Freed(old(Contents()), Delete(ptr))
    {
      OwningDistinct(spine, live);
      var prev, current, k := Find(ptr);
      RemoveFirstFor(spine, ptr);
      FirstEntryFor(spine, ptr);
      if current == null {
        return;
      }
      Remove(prev, current, k);
    }

    /** Every node goes, with everything it owns. */
    method ListFree()
      requires Valid()
      modifies this
      ensures Valid() && Contents() == []
      ensures live == old(live) - old(AllBlocks(spine))
      ensures freed == old(freed) + old(Contents())
    {
      var current := head;
      ghost var rest := spine;
      while current != null
        invariant Linked(current, rest) && Owning(rest, live)
        invariant live - AllBlocks(rest) == old(live) - old(AllBlocks(spine))
        invariant freed + Entries(rest) == old(freed) + old(Contents())
        decreases |rest|
      {
        assert Entries(rest) == [EntryOf(current)] + Entries(rest[1..]);
        Associates(freed, [EntryOf(current)], Entries(rest[1..]));
        FirstOwned(rest, live);
        LinkedTail(current, rest);
        var next := Next(current);
        FreeNode(current);
        rest := rest[1..];
        current := next;
      }
      assert live == old(live) - old(AllBlocks(spine));
      assert freed + [] == freed;
      head := null;
      spine := [];
    }
  }
}
