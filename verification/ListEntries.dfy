/**
 The intrusive circular lists of bootloader/gnu-efi/inc/efilink.h.

 A list is a ring of entries that starts at its head.  Each macro rewires a few links of entries that
 the list shares with its users; the ring's order is the ghost sequence of entries.
 */
module ListEntries {

  class Entry {
    var flink: Entry?
    var blink: Entry?

    constructor ()
      ensures flink == null && blink == null
    {
      flink, blink := null, null;
    }
  }

  ghost predicate Distinct(es: seq<Entry>) {
    forall i, j :: 0 <= i < j < |es| ==> es[i] != es[j]
  }

  ghost function Next(es: seq<Entry>, i: nat): Entry
    requires i < |es|
  {
    if i + 1 == |es| then es[0] else es[i + 1]
  }

  /** Entry i's forward link goes to the next entry around the ring, whose backward link comes back. */
  ghost predicate Linked(es: seq<Entry>, i: nat)
    requires i < |es|
    reads es
  {
    es[i].flink == Next(es, i) && Next(es, i).blink == es[i]
  }

  /** The entries form a ring in this order. */
  ghost predicate Ring(es: seq<Entry>)
    reads es
  {
    |es| > 0 && Distinct(es) && forall i :: 0 <= i < |es| ==> Linked(es, i)
  }

  method InitializeListHead(head: Entry)
    modifies head
    ensures Ring([head])
  {
    head.flink := head;
    head.blink := head;
  }

  method IsListEmpty(head: Entry, ghost es: seq<Entry>) returns (r: bool)
    requires Ring(es) && es[0] == head
    ensures r <==> es == [head]
  {
    r := head.flink == head;
    assert Linked(es, 0);
  }

  ghost function Without(es: seq<Entry>, k: nat): seq<Entry>
    requires k < |es|
  {
    es[..k] + es[k + 1..]
  }

  /** Takes an entry out of its ring.  The entry keeps its own links, as in builds without EFI_DEBUG; debug builds
      overwrite them with a bad pointer. */
  method RemoveEntryList(entry: Entry, ghost es: seq<Entry>, ghost k: nat)
    requires Ring(es) && 0 < k < |es| && es[k] == entry
    modifies es
    ensures Ring(Without(es, k))
    ensures entry.flink == old(entry.flink) && entry.blink == old(entry.blink)
  {
    assert Linked(es, k) && Linked(es, k - 1);
    var flink, blink := entry.flink, entry.blink;
    blink.flink := flink;
    flink.blink := blink;
    ghost var r := Without(es, k);
    forall i | 0 <= i < |r| ensures Linked(r, i) {
      assert old(Linked(es, if i < k then i else i + 1));
    }
  }

  method InsertTailList(head: Entry, entry: Entry, ghost es: seq<Entry>)
    requires Ring(es) && es[0] == head && entry !in es
    modifies es, entry
    ensures Ring(es + [entry])
  {
    ghost var last := |es| - 1;
    assert Linked(es, last);
    var blink := head.blink;
    entry.flink := head;
    entry.blink := blink;
    blink.flink := entry;
    head.blink := entry;
    ghost var r := es + [entry];
    forall i | 0 <= i < |r| ensures Linked(r, i) {
      if i < last {
        assert old(Linked(es, i));
      }
    }
  }

  method InsertHeadList(head: Entry, entry: Entry, ghost es: seq<Entry>)
    requires Ring(es) && es[0] == head && entry !in es
    modifies es, entry
    ensures Ring([head, entry] + es[1..])
  {
    assert Linked(es, 0);
    var flink := head.flink;
    entry.flink := flink;
    entry.blink := head;
    flink.blink := entry;
    head.flink := entry;
    ghost var r := [head, entry] + es[1..];
    forall i | 0 <= i < |r| ensures Linked(r, i) {
      if i > 1 {
        assert old(Linked(es, i - 1));
      }
    }
  }

  /** A ring with an entry put in at an index; at index 0 it goes to the end, before the head. */
  ghost function With(r: seq<Entry>, entry: Entry, k: nat): seq<Entry>
    requires k < |r|
  {
    if k == 0 then r + [entry] else r[..k] + [entry] + r[k..]
  }

  /** Stores the four links that put entry2 between entry1Blink and entry1. */
  method LinkBefore(entry1: Entry, entry2: Entry, entry1Blink: Entry, ghost r: seq<Entry>, ghost k: nat)
    modifies entry1, entry2, entry1Blink
    ensures entry1.blink == entry2 && entry1Blink.flink == entry2
    ensures old(Ring(r) && k < |r| && r[k] == entry1 && entry1.blink == entry1Blink && entry2 !in r)
            ==> Ring(With(r, entry2, k))
  {
    ghost var ok := Ring(r) && k < |r| && r[k] == entry1 && entry1.blink == entry1Blink && entry2 !in r;
    entry2.flink := entry1;
    entry2.blink := entry1Blink;
    entry1Blink.flink := entry2;
    entry1.blink := entry2;
    if ok {
      ghost var w := With(r, entry2, k);
      ghost var prev: nat := if k == 0 then |r| - 1 else k - 1;
      assert old(Linked(r, prev));
      forall i | 0 <= i < |w| ensures Linked(w, i) {
        if k == 0 || i < k {
          assert i < |r| ==> old(Linked(r, i));
        } else if i > k {
          assert old(Linked(r, i - 1));
        }
      }
    }
  }

  /** The entry at index k2 taken out and put before the entry at index k1. */
  ghost function Moved(es: seq<Entry>, k1: nat, k2: nat): seq<Entry>
    requires k1 < |es| && 0 < k2 < |es| && k1 != k2
  {
    With(Without(es, k2), es[k2], if k1 < k2 then k1 else k1 - 1)
  }

  /** The entry at index k2 directly precedes the one at index k1. */
  ghost predicate Precedes(es: seq<Entry>, k2: nat, k1: nat) {
    k2 + 1 == k1 || (k2 + 1 == |es| && k1 == 0)
  }

  /** Removing an entry keeps the others in their order. */
  lemma WithoutKeeps(es: seq<Entry>, k: nat)
    requires k < |es| && Distinct(es)
    ensures |Without(es, k)| == |es| - 1 && es[k] !in Without(es, k)
    ensures forall i :: 0 <= i < k ==> Without(es, k)[i] == es[i]
    ensures forall i :: k < i < |es| ==> Without(es, k)[i - 1] == es[i]
  {}

  /** After the move the second entry directly precedes the first; without it, the ring is as it was without it. */
  lemma MovedBefore(es: seq<Entry>, k1: nat, k2: nat) returns (j1: nat, j2: nat)
    requires k1 < |es| && 0 < k2 < |es| && k1 != k2
    ensures var m := Moved(es, k1, k2);
            && j1 < |m| && 0 < j2 < |m| && m[j1] == es[k1] && m[j2] == es[k2]
            && Precedes(m, j2, j1) && Without(m, j2) == Without(es, k2)
  {
    var at := if k1 < k2 then k1 else k1 - 1;
    j1, j2 := if at == 0 then 0 else at + 1, if at == 0 then |es| - 1 else at;
  }

  /** Puts the second entry before the first.  When it is already there, the links are broken: the first
      entry then points back to an entry that no longer points to it. */
  method SwapListEntries(entry1: Entry, entry2: Entry, ghost es: seq<Entry>, ghost k1: nat, ghost k2: nat)
    requires Ring(es) && k1 < |es| && 0 < k2 < |es| && k1 != k2
    requires es[k1] == entry1 && es[k2] == entry2
    modifies es
    ensures !Precedes(es, k2, k1) ==> Ring(Moved(es, k1, k2))
    ensures Precedes(es, k2, k1) ==> entry1.blink == entry2 && entry2.flink == entry2
    ensures Precedes(es, k2, k1) ==> forall r :: Ring(r) ==> entry1 !in r
  {
    var entry1Blink := entry1.blink;
    BlinkOf(es, k1);
    ghost var r := Without(es, k2);
    ghost var at: nat := if k1 < k2 then k1 else k1 - 1;
    RemoveEntryList(entry2, es, k2);
    WithoutOthers(es, k1, k2);
    if !Precedes(es, k2, k1) {
      BlinkOf(r, at);
    }
    LinkBefore(entry1, entry2, entry1Blink, r, at);
    if Precedes(es, k2, k1) {
      NotInRing(entry1);
    }
  }

  /** The entry before the one at index k. */
  ghost function Previous(es: seq<Entry>, k: nat): Entry
    requires k < |es|
  {
    if k == 0 then es[|es| - 1] else es[k - 1]
  }

  lemma BlinkOf(es: seq<Entry>, k: nat)
    requires Ring(es) && k < |es|
    ensures es[k].blink == Previous(es, k)
  {
    assert Linked(es, if k == 0 then |es| - 1 else k - 1);
  }

  /** Taking out the entry at index k2 keeps the one at index k1 and, unless it was taken out, the one before it. */
  lemma WithoutOthers(es: seq<Entry>, k1: nat, k2: nat)
    requires Distinct(es) && k1 < |es| && 0 < k2 < |es| && k1 != k2
    ensures var r, at := Without(es, k2), if k1 < k2 then k1 else k1 - 1;
            && at < |r| && r[at] == es[k1] && es[k2] !in r
            && (!Precedes(es, k2, k1) ==> Previous(r, at) == Previous(es, k1))
            && (Precedes(es, k2, k1) ==> Previous(es, k1) == es[k2])
  {}

  /** In a ring, going back and forth leads to where one started. */
  lemma BackAndForth(es: seq<Entry>, e: Entry)
    requires Ring(es) && e in es
    ensures e.blink != null && e.blink.flink == e
  {
    var i :| 0 <= i < |es| && es[i] == e;
    assert Linked(es, if i == 0 then |es| - 1 else i - 1);
  }

  lemma NotInRing(e: Entry)
    requires e.blink != null && e.blink.flink != e
    ensures forall r :: Ring(r) ==> e !in r
  {
    forall r | Ring(r) ensures e !in r {
      if e in r {
        BackAndForth(r, e);
      }
    }
  }

  /** A head and one entry: moving the entry before the head, where it is already, breaks the ring. */
  method SwapBreaksRing() returns (head: Entry, entry: Entry)
    ensures fresh(head) && fresh(entry) && head.blink == entry && entry.flink == entry
    ensures forall r :: Ring(r) ==> head !in r
  {
    head := new Entry();
    entry := new Entry();
    InitializeListHead(head);
    InsertTailList(head, entry, [head]);
    assert [head] + [entry] == [head, entry];
    SwapListEntries(head, entry, [head, entry], 0, 1);
  }

  // ----- whole runs -----

  datatype Op = InsertHead(entry: Entry) | InsertTail(entry: Entry) | Remove(entry: Entry) | Swap(entry: Entry, moved: Entry)

  ghost function IndexOf(es: seq<Entry>, e: Entry): (k: nat)
    requires e in es
    ensures k < |es| && es[k] == e
  {
    if es[0] == e then 0 else 1 + IndexOf(es[1..], e)
  }

  /** The operation is one its macro allows on a ring in this order. */
  ghost predicate Allowed(es: seq<Entry>, op: Op) {
    match op
    case InsertHead(e) => e !in es
    case InsertTail(e) => e !in es
    case Remove(e) => e in es && IndexOf(es, e) > 0
    case Swap(e1, e2) =>
      && e1 in es && e2 in es && e1 != e2 && IndexOf(es, e2) > 0
      && !Precedes(es, IndexOf(es, e2), IndexOf(es, e1))
  }

  /** Its effect on the order. */
  ghost function Effect(es: seq<Entry>, op: Op): (r: seq<Entry>)
    requires |es| > 0 && Allowed(es, op)
    ensures |r| > 0 && r[0] == es[0]
  {
    match op
    case InsertHead(e) => [es[0], e] + es[1..]
    case InsertTail(e) => es + [e]
    case Remove(e) => Without(es, IndexOf(es, e))
    case Swap(e1, e2) => Moved(es, IndexOf(es, e1), IndexOf(es, e2))
  }

  ghost predicate AllAllowed(es: seq<Entry>, ops: seq<Op>)
    requires |es| > 0
    decreases |ops|
  {
    |ops| == 0 || (Allowed(es, ops[0]) && AllAllowed(Effect(es, ops[0]), ops[1..]))
  }

  /** The order a sequence of operations leaves. */
  ghost function Order(es: seq<Entry>, ops: seq<Op>): (r: seq<Entry>)
    requires |es| > 0 && AllAllowed(es, ops)
    ensures |r| > 0 && r[0] == es[0]
    decreases |ops|
  {
    if |ops| == 0 then es else Order(Effect(es, ops[0]), ops[1..])
  }

  ghost predicate Within(es: seq<Entry>, universe: set<Entry>) {
    forall e :: e in es ==> e in universe
  }

  ghost function Operands(op: Op): set<Entry> {
    if op.Swap? then {op.entry, op.moved} else {op.entry}
  }

  lemma EffectWithin(es: seq<Entry>, op: Op, universe: set<Entry>)
    requires |es| > 0 && Allowed(es, op) && Within(es, universe) && Operands(op) <= universe
    ensures Within(Effect(es, op), universe)
  {}

  method Apply(head: Entry, op: Op, ghost es: seq<Entry>, ghost universe: set<Entry>)
    requires Ring(es) && es[0] == head && Allowed(es, op)
    requires Within(es, universe) && Operands(op) <= universe
    modifies universe
    ensures Ring(Effect(es, op))
  {
    match op
    case InsertHead(e) => InsertHeadList(head, e, es);
    case InsertTail(e) => InsertTailList(head, e, es);
    case Remove(e) => RemoveEntryList(e, es, IndexOf(es, e));
    case Swap(e1, e2) => SwapListEntries(e1, e2, es, IndexOf(es, e1), IndexOf(es, e2));
  }

  /** Any sequence of allowed operations keeps one ring whose order is the model's. */
  method Run(head: Entry, ops: seq<Op>, ghost es: seq<Entry>, ghost universe: set<Entry>)
    requires Ring(es) && es[0] == head && AllAllowed(es, ops)
    requires Within(es, universe) && forall k :: 0 <= k < |ops| ==> Operands(ops[k]) <= universe
    modifies universe
    ensures Ring(Order(es, ops))
  {
    ghost var order := es;
    var n := 0;
    assert ops[0..] == ops;
    while n < |ops|
      invariant n <= |ops| && Ring(order) && order[0] == head && Within(order, universe)
      invariant AllAllowed(order, ops[n..]) && Order(order, ops[n..]) == Order(es, ops)
    {
      assert ops[n..][0] == ops[n] && ops[n..][1..] == ops[n + 1..];
      Apply(head, ops[n], order, universe);
      EffectWithin(order, ops[n], universe);
      order := Effect(order, ops[n]);
      n := n + 1;
    }
  }
}
