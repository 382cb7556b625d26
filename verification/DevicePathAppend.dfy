/**
 AppendDevicePath and AppendDevicePathNode (bootloader/gnu-efi/lib/dpath.c).

 The copy loop writes the second path, end node included, after every instance of the first.  The
 result therefore ends at the second path's own end node: it is the first instance followed by the
 second path, whatever the number of instances.
 */
module DevicePathAppend {
  import opened Basics
  import opened DevicePath
  import opened DevicePathWalk

  /** The appended path. */
  ghost function Appended(p: Path, q: Path): Path {
    match p
    case Last(_) => q
    case Step(n, r) => if n.EndType() then q else Step(n, Appended(r, q))
  }

  /** It consists of the first instance of p followed by the nodes of q. */
  lemma {:induction false} AppendedNodes(p: Path, q: Path)
    requires p.Valid() && q.Valid()
    ensures Appended(p, q).Valid()
    ensures Appended(p, q).Nodes() == p.First() + q.Nodes()
    ensures Encode(Appended(p, q)) == EncodeNodes(p.First()) + Encode(q)
    ensures p.Packed() && q.Packed() ==> Appended(p, q).Packed()
    decreases p
  {
    if p.Step? && !p.node.EndType() {
      AppendedNodes(p.rest, q);
      EncodeCons(p.node, p.rest.First());
      ConcatAssociative([p.node], p.rest.First(), q.Nodes());
      ConcatAssociative(p.node.bytes, EncodeNodes(p.rest.First()), Encode(q));
    }
  }

  lemma {:induction false} AppendedInstances(p: Path, q: Path)
    ensures Appended(p, q).Instances() == [p.First() + q.Instances()[0]] + q.Instances()[1..]
    decreases p
  {
    if p.Step? && !p.node.EndType() {
      AppendedInstances(p.rest, q);
      ConcatAssociative([p.node], p.rest.First(), q.Instances()[0]);
    } else {
      assert [] + q.Instances()[0] == q.Instances()[0];
      assert [q.Instances()[0]] + q.Instances()[1..] == q.Instances();
    }
  }

  /** Appending is associative. */
  lemma {:induction false} AppendAssociative(p: Path, q: Path, r: Path)
    ensures Appended(Appended(p, q), r) == Appended(p, Appended(q, r))
    decreases p
  {
    if p.Step? && !p.node.EndType() {
      AppendAssociative(p.rest, q, r);
    }
  }

  /** For a single-instance second path, every instance of the first is extended, as the source's comment
      promises, exactly when the first has one instance. */
  lemma AppendsToEveryInstance(p: Path, q: Path)
    requires |q.Instances()| == 1
    ensures (&& |Appended(p, q).Instances()| == |p.Instances()|
             && forall k :: 0 <= k < |p.Instances()| ==>
                  Appended(p, q).Instances()[k] == p.Instances()[k] + q.Instances()[0])
            <==> |p.Instances()| == 1
  {
    AppendedInstances(p, q);
    InstancesPeel(p);
  }

  /** A path of two one-node instances: the second is lost. */
  lemma SecondInstanceLost()
    ensures var pci := Node([0x01, 0x01, 6, 0, 0, 0]);
            var one := Step(pci, Last(END));
            var two := Step(pci, Step(END_INSTANCE, one));
            && one.Valid() && two.Valid()
            && two.Instances() == [[pci], [pci]]
            && Appended(two, one).Instances() == [[pci, pci]]
  {
    var pci := Node([0x01, 0x01, 6, 0, 0, 0]);
    var one := Step(pci, Last(END));
    var two := Step(pci, Step(END_INSTANCE, one));
    assert [pci] + [] == [pci];
    assert Last(END).Instances() == [[]];
    assert [[pci] + []] + Last(END).Instances()[1..] == [[pci]];
    assert one.Instances() == [[pci]];
    assert [[]] + one.Instances() == [[], [pci]];
    assert [[pci] + []] + Step(END_INSTANCE, one).Instances()[1..] == [[pci], [pci]];
    AppendedInstances(two, one);
    assert two.First() == [pci];
    assert [pci] + [pci] == [pci, pci];
    assert [[pci] + [pci]] + one.Instances()[1..] == [[pci, pci]];
  }

  // ----- what the copy loop writes -----

  /** The bytes written: each instance, the second path and an instance end, the last one an end. */
  ghost function Written(p: Path, tail: seq<Byte>): seq<Byte>
    decreases p.Size()
  {
    EncodeNodes(p.First()) + tail + (if p.More() then END_INSTANCE.bytes + Written(p.Later(), tail) else END.bytes)
  }

  lemma {:induction false} EncodeSplit(p: Path)
    requires p.Valid() && p.Packed()
    ensures |Encode(p)| == |EncodeNodes(p.First())| + HEADER + (if p.More() then |Encode(p.Later())| else 0)
    decreases p
  {
    if p.Step? && !p.node.EndType() {
      EncodeSplit(p.rest);
      EncodeCons(p.node, p.rest.First());
    }
  }

  /** The loop writes the size of the first path plus, for each of its instances, that of the second. */
  lemma {:induction false} WrittenLength(p: Path, tail: seq<Byte>)
    requires p.Valid() && p.Packed()
    ensures |Written(p, tail)| == |Encode(p)| + |p.Instances()| * |tail|
    decreases p.Size()
  {
    EncodeSplit(p);
    InstancesPeel(p);
    if p.More() {
      ValidLater(p);
      WrittenLength(p.Later(), tail);
      MulStep(|p.Later().Instances()|, |tail|);
    }
  }

  lemma MulStep(n: nat, x: nat)
    ensures (n + 1) * x == n * x + x
  {}

  lemma SignOfProduct(m: nat, d: int)
    requires m > 0
    ensures m * d >= 0 <==> d >= 0
  {}

  lemma CrossProducts(n: nat, s1: nat, s2: nat)
    requires n > 0
    ensures s1 + n * s2 <= s1 * n + s2 <==> n == 1 || s2 <= s1
  {
    var m, d := n - 1, s1 - s2;
    MulStep(m, s1);
    MulStep(m, s2);
    assert (s1 * n + s2) - (s1 + n * s2) == m * s1 - m * s2;
    assert m * s1 - m * s2 == m * d;
    if m > 0 {
      SignOfProduct(m, d);
    }
  }

  /** What the loop writes fits what is allocated exactly when the first path has one instance or the second
      path is no longer than the first. */
  lemma AllocationSuffices(p: Path, q: Path)
    requires p.Valid() && p.Packed()
    ensures |Written(p, Encode(q))| <= |Encode(p)| * |p.Instances()| + |Encode(q)|
            <==> |p.Instances()| == 1 || |Encode(q)| <= |Encode(p)|
  {
    WrittenLength(p, Encode(q));
    CrossProducts(|p.Instances()|, |Encode(p)|, |Encode(q)|);
  }

  lemma WrittenFits(p: Path, q: Path)
    requires p.Valid() && p.Packed() && (|p.Instances()| == 1 || |Encode(q)| <= |Encode(p)|)
    ensures |Written(p, Encode(q))| == |Encode(p)| + |p.Instances()| * |Encode(q)|
    ensures |Written(p, Encode(q))| <= |Encode(p)| * |p.Instances()| + |Encode(q)|
  {
    WrittenLength(p, Encode(q));
    AllocationSuffices(p, q);
  }

  /** Two one-node instances of 20 bytes together, and a path of 28 bytes appended to them: 76 bytes are written
      to an allocation of 68. */
  lemma AllocationOverrun()
    ensures var pci := Node([0x01, 0x01, 6, 0, 0, 0]);
            var two := Step(pci, Step(END_INSTANCE, Step(pci, Last(END))));
            var vendor := Node([0x01, 0x04, 24, 0] + [0, 0, 0, 0, 0, 0, 0, 0, 0, 0] + [0, 0, 0, 0, 0, 0, 0, 0, 0, 0]);
            var longer := Step(vendor, Last(END));
            && two.Valid() && two.Packed() && longer.Valid() && longer.Packed()
            && |Written(two, Encode(longer))| == 76
            && |Encode(two)| * |two.Instances()| + |Encode(longer)| == 68
  {
    var pci := Node([0x01, 0x01, 6, 0, 0, 0]);
    var one := Step(pci, Last(END));
    var second := Step(END_INSTANCE, one);
    var two := Step(pci, second);
    var vendor := Node([0x01, 0x04, 24, 0] + [0, 0, 0, 0, 0, 0, 0, 0, 0, 0] + [0, 0, 0, 0, 0, 0, 0, 0, 0, 0]);
    var longer := Step(vendor, Last(END));
    assert Last(END).Valid() && Last(END).Packed() && |Encode(Last(END))| == 4;
    assert one.Valid() && one.Packed() && |Encode(one)| == 10;
    assert second.Valid() && second.Packed() && |Encode(second)| == 14;
    assert two.Valid() && two.Packed() && |Encode(two)| == 20;
    assert longer.Valid() && longer.Packed() && |Encode(longer)| == 28;
    SecondInstanceLost();
    WrittenLength(two, Encode(longer));
  }

  // ----- the operation -----

  method WriteInstance(r: array<Byte>, dstPos: nat, b: seq<Byte>, at: nat, size: nat, src2: seq<Byte>, src2Size: nat)
    returns (newPos: nat)
    requires at + size <= |b| && src2Size <= |src2|
    requires dstPos + size + src2Size + HEADER <= r.Length
    modifies r
    ensures newPos == dstPos + size + src2Size + HEADER
    ensures r[..newPos] == old(r[..dstPos]) + b[at..at + size] + src2[..src2Size] + END_INSTANCE.bytes
  {
    newPos := dstPos;
    CopyMem(r, newPos, b, at, size);
    newPos := newPos + size;
    assert r[..newPos] == old(r[..dstPos]) + b[at..at + size];
    CopyMem(r, newPos, src2, 0, src2Size);
    newPos := newPos + src2Size;
    assert r[..newPos] == old(r[..dstPos]) + b[at..at + size] + src2[..src2Size];
    CopyMem(r, newPos, END_INSTANCE.bytes, 0, HEADER);
    newPos := newPos + HEADER;
  }

  lemma Regroup<T>(done: seq<T>, a: seq<T>, b: seq<T>, c: seq<T>, d: seq<T>)
    ensures done + (a + b + (c + d)) == (done + a + b + c) + d
    ensures (done + a + b + c)[..|done| + |a| + |b|] == done + a + b
    ensures done + (a + b + c) == (done + a + b) + c
  {}

  /** One instance further. */
  lemma CopyNext(done: seq<Byte>, left: Path, body: seq<Byte>, tail: seq<Byte>, goal: seq<Byte>, after: seq<Byte>)
    requires done + Written(left, tail) == goal && body == EncodeNodes(left.First())
    requires after == done + body + tail + END_INSTANCE.bytes
    ensures left.More() ==> after + Written(left.Later(), tail) == goal
    ensures !left.More() ==> |after| == |goal| && after[..|after| - HEADER] + END.bytes == goal
  {
    if left.More() {
      Regroup(done, body, tail, END_INSTANCE.bytes, Written(left.Later(), tail));
    } else {
      Regroup(done, body, tail, END_INSTANCE.bytes, []);
      Regroup(done, body, tail, END.bytes, []);
    }
  }

  lemma WrittenBound(done: seq<Byte>, left: Path, tail: seq<Byte>, goal: seq<Byte>)
    requires done + Written(left, tail) == goal
    ensures |done| + |EncodeNodes(left.First())| + |tail| + HEADER <= |goal|
  {}

  /** The copy loop's body. */
  method CopyInstance(r: array<Byte>, dstPos: nat, b: seq<Byte>, at: nat, ghost left: Path,
                      src2: seq<Byte>, src2Size: nat, ghost goal: seq<Byte>)
    returns (next: Option<nat>, newPos: nat)
    requires Holds(b, at, left) && |left.First()| <= MAX_NODES
    requires src2Size <= |src2| && |goal| <= r.Length && dstPos <= r.Length
    requires r[..dstPos] + Written(left, src2[..src2Size]) == goal
    modifies r
    ensures newPos <= r.Length && next.Some? == left.More()
    ensures left.More() ==>
              Holds(b, next.value, left.Later()) && r[..newPos] + Written(left.Later(), src2[..src2Size]) == goal
    ensures !left.More() ==> newPos == |goal| && HEADER <= newPos && r[..newPos - HEADER] + END.bytes == goal
  {
    ghost var done := r[..dstPos];
    var inst, following, size := DevicePathInstance(b, Some(at), left);
    WrittenBound(done, left, src2[..src2Size], goal);
    newPos := WriteInstance(r, dstPos, b, at, size, src2, src2Size);
    CopyNext(done, left, b[at..at + size], src2[..src2Size], goal, r[..newPos]);
    assert r[..newPos - HEADER] == r[..newPos][..newPos - HEADER];
    next := following;
  }

  /** The copy loop: everything but the subtype of the last end node is written. */
  method CopyInstances(r: array<Byte>, b: seq<Byte>, ghost p: Path, src2: seq<Byte>, src2Size: nat)
    returns (dstPos: nat)
    requires Holds(b, 0, p) && Walkable(p) && src2Size <= |src2|
    requires |Written(p, src2[..src2Size])| <= r.Length
    modifies r
    ensures dstPos == |Written(p, src2[..src2Size])| && HEADER <= dstPos
    ensures r[..dstPos - HEADER] + END.bytes == Written(p, src2[..src2Size])
  {
    ghost var goal := Written(p, src2[..src2Size]);
    dstPos := 0;
    var pos: Option<nat> := Some(0);
    ghost var left := p;
    assert r[..0] + goal == goal;
    while pos.Some?
      invariant dstPos <= r.Length
      invariant pos.Some? ==>
                  Holds(b, pos.value, left) && Walkable(left) && r[..dstPos] + Written(left, src2[..src2Size]) == goal
      invariant pos.None? ==>
                  dstPos == |goal| && HEADER <= dstPos && r[..dstPos - HEADER] + END.bytes == goal
      decreases if pos.Some? then left.Size() else 0
    {
      WalkablePeel(left);
      pos, dstPos := CopyInstance(r, dstPos, b, pos.value, left, src2, src2Size, goal);
      if left.More() {
        left := left.Later();
      }
    }
  }

  /** Appends the second path to the first.  Either may be NULL, but not both.  The result is NULL when the
      allocation is not granted. */
  method AppendDevicePath(src1: Option<seq<Byte>>, ghost p: Path, src2: Option<seq<Byte>>, ghost q: Path, granted: bool)
    returns (r: array?<Byte>, ghost written: nat)
    requires src1.Some? || src2.Some?
    requires src1.Some? ==> Holds(src1.value, 0, p) && p.Packed() && Walkable(p)
    requires src2.Some? ==> Holds(src2.value, 0, q) && q.Packed()
    requires src1.Some? && src2.Some? ==> |p.Instances()| == 1 || |Encode(q)| <= |Encode(p)|
    ensures (r != null <==> granted) && (r != null ==> fresh(r) && written <= r.Length)
    ensures r != null && src1.None? ==> r[..] == Encode(q)
    ensures r != null && src1.Some? && src2.None? ==> r[..] == Encode(p)
    ensures r != null && src1.Some? && src2.Some? ==>
              && r.Length == |Encode(p)| * |p.Instances()| + |Encode(q)|
              && written == |Encode(p)| + |p.Instances()| * |Encode(q)|
              && r[..written] == Written(p, Encode(q))
              && Holds(r[..], 0, Appended(p, q))
  {
    written := 0;
    if src1.None? {
      r := DuplicateDevicePath(src2.value, 0, q, granted);
      return;
    }
    if src2.None? {
      r := DuplicateDevicePath(src1.value, 0, p, granted);
      return;
    }
    var src1Size := DevicePathSize(src1.value, 0, p);
    ghost var shown;
    var src1Inst;
    src1Inst, shown := DevicePathInstanceCount(src1, p);
    var src2Size := DevicePathSize(src2.value, 0, q);
    if !granted {
      return null, 0;
    }
    WrittenFits(p, q);
    var dst := new Byte[src1Size * src1Inst + src2Size];
    written := WriteAll(dst, src1.value, p, src2.value, q, src2Size);
    AppendedHolds(p, q, dst[..], dst[..written]);
    return dst, written;
  }

  /** The copy loop, and the last end marker changed. */
  method WriteAll(dst: array<Byte>, src1: seq<Byte>, ghost p: Path, src2: seq<Byte>, ghost q: Path, src2Size: nat)
    returns (ghost written: nat)
    requires Holds(src1, 0, p) && p.Packed() && Walkable(p)
    requires src2Size == |Encode(q)| <= |src2| && src2[0..src2Size] == Encode(q)
    requires |Written(p, Encode(q))| <= dst.Length
    modifies dst
    ensures written == |Written(p, Encode(q))| && dst[..written] == Written(p, Encode(q))
  {
    assert src2[0..0 + src2Size] == src2[..src2Size];
    var dstPos := CopyInstances(dst, src1, p, src2, src2Size);
    written := dstPos;
    dstPos := dstPos - HEADER;
    CopyMem(dst, dstPos, END.bytes, 0, HEADER);
  }

  lemma AppendedHolds(p: Path, q: Path, b: seq<Byte>, goal: seq<Byte>)
    requires p.Valid() && q.Valid()
    requires goal == Written(p, Encode(q)) && goal <= b
    ensures Holds(b, 0, Appended(p, q))
  {
    AppendedNodes(p, q);
    assert EncodeNodes(p.First()) + Encode(q) <= goal;
    HoldsPrefix(b, Appended(p, q));
  }

  /** SetDevicePathEndNode: overwrites four bytes with an end node. */
  method SetDevicePathEndNode(buf: array<Byte>, at: nat)
    requires at + HEADER <= buf.Length
    modifies buf
    ensures buf[..] == old(buf[..at]) + END.bytes + old(buf[at + HEADER..])
  {
    buf[at], buf[at + 1], buf[at + 2], buf[at + 3] := END_TYPE, ENTIRE, 4, 0;
    assert buf[at..at + HEADER] == END.bytes;
    assert buf[..] == buf[..at] + buf[at..at + HEADER] + buf[at + HEADER..];
  }

  /** A copy of a node with a terminator. */
  method Terminated(node: seq<Byte>, ghost n: Node) returns (temp: array<Byte>)
    requires n.Valid() && n.bytes <= node
    ensures fresh(temp) && temp[..] == n.bytes + END.bytes
  {
    assert node[0..0 + |n.bytes|] == n.bytes;
    ReadNode(node, 0, n);
    var length := NodeLength(node, 0);
    temp := new Byte[length + HEADER];
    CopyMem(temp, 0, node, 0, length);
    assert temp[..][0..0 + |n.bytes|] == n.bytes;
    ReadNode(temp[..], 0, n);
    var eop := NodeLength(temp[..], 0);
    assert temp[..eop] == n.bytes;
    SetDevicePathEndNode(temp, eop);
  }

  /** Appends a single node, given without a terminator.  The result is NULL when either of the two allocations
      is not granted. */
  method AppendDevicePathNode(src1: Option<seq<Byte>>, ghost p: Path, node: seq<Byte>, ghost n: Node, grantedTemp: bool, granted: bool)
    returns (r: array?<Byte>)
    requires src1.Some? ==> Holds(src1.value, 0, p) && p.Packed() && Walkable(p)
    requires n.Valid() && !n.EndType() && n.bytes <= node
    requires src1.Some? ==> |p.Instances()| == 1 || |n.bytes| + HEADER <= |Encode(p)|
    ensures (r != null <==> grantedTemp && granted) && (r != null ==> fresh(r))
    ensures r != null && src1.None? ==> r[..] == n.bytes + END.bytes
    ensures r != null && src1.Some? ==>
              var appended := Appended(p, Step(n, Last(END)));
              Holds(r[..], 0, appended) && appended.Nodes() == p.First() + [n, END]
  {
    if !grantedTemp {
      return null;
    }
    var temp := Terminated(node, n);
    ghost var q := Step(n, Last(END));
    assert Last(END).Valid() && Last(END).Packed() && Encode(Last(END)) == END.bytes;
    assert q.Valid() && q.Packed() && Encode(q) == temp[..];
    HoldsPrefix(temp[..], q);
    ghost var written;
    r, written := AppendDevicePath(src1, p, Some(temp[..]), q, granted);
    if src1.Some? {
      AppendedNodes(p, q);
      assert q.Nodes() == [n, END];
    }
  }
}
