/** The list of live requests as a sequence, and what its operations do over whole runs. */
module ListSpec {
  /** A request and the chunks that belong to it, by address. */
  datatype Entry = Entry(ptr: nat, children: seq<nat>)

  predicate Distinct<T(==)>(s: seq<T>) {
    forall i, j :: 0 <= i < j < |s| ==> s[i] != s[j]
  }

  /** The list without its first entry for `ptr`. */
  function RemoveFirst(entries: seq<Entry>, ptr: nat): seq<Entry> {
    if entries == [] then []
    else if entries[0].ptr == ptr then entries[1..]
    else [entries[0]] + RemoveFirst(entries[1..], ptr)
  }

  datatype Op = Insert(entry: Entry) | Delete(ptr: nat) | Clear

  /** What the list holds after an operation: the contracts of the three methods. */
  function Apply(entries: seq<Entry>, op: Op): seq<Entry> {
    match op
    case Insert(e) => entries + [e]
    case Delete(ptr) => RemoveFirst(entries, ptr)
    case Clear => []
  }

  /** The first entry for a pointer, if there is one. */
  function FirstEntry(entries: seq<Entry>, ptr: nat): seq<Entry> {
    if entries == [] then [] else if entries[0].ptr == ptr then [entries[0]] else FirstEntry(entries[1..], ptr)
  }

  /** What an operation frees. */
  function Freed(entries: seq<Entry>, op: Op): seq<Entry> {
    match op
    case Insert(_) => []
    case Delete(ptr) => FirstEntry(entries, ptr)
    case Clear => entries
  }

  function RunOf(entries: seq<Entry>, ops: seq<Op>): seq<Entry>
    decreases |ops|
  {
    if ops == [] then entries else RunOf(Apply(entries, ops[0]), ops[1..])
  }

  function FreedBy(entries: seq<Entry>, ops: seq<Op>): seq<Entry>
    decreases |ops|
  {
    if ops == [] then [] else Freed(entries, ops[0]) + FreedBy(Apply(entries, ops[0]), ops[1..])
  }

  function InsertedBy(op: Op): seq<Entry> {
    if op.Insert? then [op.entry] else []
  }

  function Inserted(ops: seq<Op>): seq<Entry> {
    if ops == [] then [] else InsertedBy(ops[0]) + Inserted(ops[1..])
  }

  lemma {:induction false} RemoveFirstConserves(entries: seq<Entry>, ptr: nat, e: Entry)
    ensures multiset(entries)[e] == multiset(RemoveFirst(entries, ptr))[e] + multiset(FirstEntry(entries, ptr))[e]
  {
    if entries != [] {
      assert entries == [entries[0]] + entries[1..];
      if entries[0].ptr != ptr {
        RemoveFirstConserves(entries[1..], ptr, e);
      }
    }
  }

  /**
   Over every run, what was in the list or inserted is exactly what is in the
   list or was freed: nothing is freed twice, freed while linked, or lost.
   */
  lemma {:induction false} RunsConserve(entries: seq<Entry>, ops: seq<Op>, e: Entry)
    ensures multiset(entries)[e] + multiset(Inserted(ops))[e] == multiset(RunOf(entries, ops))[e] + multiset(FreedBy(entries, ops))[e]
    decreases |ops|
  {
    if ops != [] {
      RunsConserve(Apply(entries, ops[0]), ops[1..], e);
      if ops[0].Delete? {
        RemoveFirstConserves(entries, ops[0].ptr, e);
      }
    }
  }

  /** How many entries there are for a pointer. */
  function CountFor(entries: seq<Entry>, ptr: nat): nat {
    if entries == [] then 0 else (if entries[0].ptr == ptr then 1 else 0) + CountFor(entries[1..], ptr)
  }

  lemma {:induction false} CountForZero(entries: seq<Entry>, ptr: nat)
    ensures CountFor(entries, ptr) == 0 <==> forall e :: e in entries ==> e.ptr != ptr
  {
    if entries != [] {
      CountForZero(entries[1..], ptr);
      assert entries == [entries[0]] + entries[1..];
    }
  }

  lemma {:induction false} CountForRemoved(entries: seq<Entry>, ptr: nat)
    ensures CountFor(RemoveFirst(entries, ptr), ptr) == if CountFor(entries, ptr) == 0 then 0 else CountFor(entries, ptr) - 1
  {
    if entries != [] && entries[0].ptr != ptr {
      CountForRemoved(entries[1..], ptr);
    }
  }

  /** A deleted pointer is gone from the list exactly when it was not in it twice. */
  lemma DeleteExact(entries: seq<Entry>, ptr: nat)
    ensures (forall e :: e in RemoveFirst(entries, ptr) ==> e.ptr != ptr) <==> CountFor(entries, ptr) <= 1
  {
    CountForRemoved(entries, ptr);
    CountForZero(RemoveFirst(entries, ptr), ptr);
  }

  /** Everything else stays, in its order. */
  lemma {:induction false} DeleteKeepsOrder(entries: seq<Entry>, ptr: nat)
    requires Distinct(Addresses(entries))
    ensures RemoveFirst(entries, ptr) == Others(entries, ptr)
  {
    if entries != [] {
      assert Addresses(entries)[1..] == Addresses(entries[1..]);
      DeleteKeepsOrder(entries[1..], ptr);
      if entries[0].ptr == ptr {
        forall i | 0 <= i < |entries[1..]|
          ensures entries[1..][i].ptr != ptr
        {
          assert Addresses(entries)[0] == ptr && Addresses(entries)[i + 1] == entries[1..][i].ptr;
        }
        OthersUnchanged(entries[1..], ptr);
      }
    }
  }

  function Addresses(entries: seq<Entry>): seq<nat> {
    seq(|entries|, i requires 0 <= i < |entries| => entries[i].ptr)
  }

  /** The entries for other pointers. */
  function Others(entries: seq<Entry>, ptr: nat): seq<Entry> {
    if entries == [] then [] else (if entries[0].ptr == ptr then [] else [entries[0]]) + Others(entries[1..], ptr)
  }

  lemma {:induction false} OthersUnchanged(entries: seq<Entry>, ptr: nat)
    requires forall i :: 0 <= i < |entries| ==> entries[i].ptr != ptr
    ensures Others(entries, ptr) == entries
  {
    if entries != [] {
      OthersUnchanged(entries[1..], ptr);
    }
  }

  // ---- Memory ----

  /** The addresses an entry owns. */
  function Owns(e: Entry): set<nat> {
    {e.ptr} + set a | a in e.children
  }

  function AllOwned(entries: seq<Entry>): set<nat> {
    if entries == [] then {} else Owns(entries[0]) + AllOwned(entries[1..])
  }

  /** Every insertion brings memory that is neither in the list at that time nor foreign to it. */
  predicate Playable(entries: seq<Entry>, ops: seq<Op>, foreign: set<nat>)
    decreases |ops|
  {
    ops == [] ||
    ((ops[0].Insert? ==>
        Distinct([ops[0].entry.ptr] + ops[0].entry.children) && Owns(ops[0].entry) !! foreign + AllOwned(entries))
     && Playable(Apply(entries, ops[0]), ops[1..], foreign))
  }

  /** The first of some operations, and the others. */
  lemma PlayStep(entries: seq<Entry>, ops: seq<Op>, i: nat, foreign: set<nat>)
    requires i < |ops| && Playable(entries, ops[i..], foreign)
    ensures var after := Apply(entries, ops[i]);
      && Playable(entries, [ops[i]], foreign) && Playable(after, ops[i + 1..], foreign)
      && RunOf(entries, ops[i..]) == RunOf(after, ops[i + 1..])
      && FreedBy(entries, ops[i..]) == Freed(entries, ops[i]) + FreedBy(after, ops[i + 1..])
  {
    assert ops[i..][0] == ops[i] && ops[i..][1..] == ops[i + 1..];
    assert [ops[i]][1..] == [];
  }
}
