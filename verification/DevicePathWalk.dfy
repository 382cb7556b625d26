/**
 The device path operations of bootloader/gnu-efi/lib/dpath.c that walk and copy paths.

 A pointer into a path is a buffer and an offset; NULL is None.  Each operation names, as a ghost
 argument, the path its buffer holds, which is determined by the bytes (DevicePath.HoldsUnique).
 Whether an allocation is granted is a parameter.
 */
module DevicePathWalk {
  import opened Basics
  import opened DevicePath

  /** The source's guard against runaway paths: at most 513 nodes are walked in one instance. */
  const MAX_NODES := 513

  /** In the middle of the first instance: what has been walked and what is left of it make it up. */
  ghost predicate Walking(b: seq<Byte>, start: nat, devPath: nat, left: Path, p: Path) {
    && start <= devPath && Holds(b, devPath, left)
    && devPath + |EncodeNodes(left.First())| == start + |EncodeNodes(p.First())|
    && left.More() == p.More() && (left.More() ==> left.Later() == p.Later())
  }

  lemma WalkNext(b: seq<Byte>, start: nat, devPath: nat, left: Path, p: Path)
    requires Walking(b, start, devPath, left, p) && !left.node.EndType()
    ensures left.Step? && Walking(b, start, devPath + |left.node.bytes|, left.rest, p)
    ensures |left.First()| == 1 + |left.rest.First()|
  {
    HoldsHeader(b, devPath, left);
    EncodeCons(left.node, left.rest.First());
  }

  /** The first instance ends at devPath, and following is where the next one starts, if there is one. */
  ghost predicate InstanceEnds(b: seq<Byte>, start: nat, devPath: nat, following: nat, p: Path) {
    && start <= devPath && devPath + 1 < |b| && b[start..devPath] == EncodeNodes(p.First())
    && (p.More() <==> b[devPath + 1] != ENTIRE) && (p.More() ==> Holds(b, following, p.Later()))
  }

  lemma WalkEnd(b: seq<Byte>, start: nat, devPath: nat, left: Path, p: Path)
    requires Holds(b, start, p) && Walking(b, start, devPath, left, p) && left.node.EndType()
    ensures InstanceEnds(b, start, devPath, devPath + |left.node.bytes|, p)
  {
    HoldsHeader(b, devPath, left);
    HoldsFirst(b, start, p);
  }

  /** The path from node n of the first instance on. */
  ghost function Skip(p: Path, n: nat): (q: Path)
    requires n <= |p.First()|
    ensures q.Size() + n == p.Size()
    decreases n
  {
    if n == 0 then p else Skip(p.rest, n - 1)
  }

  lemma {:induction false} SkipNext(p: Path, n: nat)
    requires n < |p.First()|
    ensures Skip(p, n).Step? && Skip(p, n).node == p.First()[n] && Skip(p, n + 1) == Skip(p, n).rest
    decreases n
  {
    if n > 0 {
      SkipNext(p.rest, n - 1);
    }
  }

  lemma {:induction false} EncodePrefix(ns: seq<Node>, n: nat)
    requires n <= |ns|
    ensures EncodeNodes(ns) == EncodeNodes(ns[..n]) + EncodeNodes(ns[n..])
    decreases n
  {
    if n > 0 {
      EncodePrefix(ns[1..], n - 1);
      assert ns[1..][..n - 1] == ns[..n][1..] && ns[1..][n - 1..] == ns[n..];
    } else {
      assert ns[..0] == [] && ns[0..] == ns;
    }
  }

  /** After n nodes of the first instance. */
  ghost predicate Walked(start: nat, devPath: nat, left: Path, p: Path, n: nat) {
    n <= |p.First()| && left == Skip(p, n) && devPath == start + |EncodeNodes(p.First()[..n])|
  }

  lemma WalkedNext(start: nat, devPath: nat, left: Path, p: Path, n: nat)
    requires Walked(start, devPath, left, p, n) && n < |p.First()|
    ensures left.Step? && Walked(start, devPath + |left.node.bytes|, left.rest, p, n + 1)
  {
    SkipNext(p, n);
    var ns := p.First();
    EncodePrefix(ns[..n + 1], n);
    assert ns[..n + 1][..n] == ns[..n] && ns[..n + 1][n..] == [ns[n]];
    EncodeCons(ns[n], []);
    assert [ns[n]] + [] == [ns[n]];
  }

  /** What lies before node n of the first instance, n being less than its length, is not all of it. */
  lemma CutShort(b: seq<Byte>, start: nat, devPath: nat, left: Path, p: Path, n: nat)
    requires Holds(b, start, p) && Walked(start, devPath, left, p, n) && n < |p.First()|
    ensures devPath <= |b| && b[start..devPath] == EncodeNodes(p.First()[..n])
    ensures left.node == p.First()[n] && devPath - start < |EncodeNodes(p.First())|
  {
    var ns := p.First();
    SkipNext(p, n);
    EncodePrefix(ns, n);
    HoldsFirst(b, start, p);
    assert b[start..devPath] == b[start..start + |EncodeNodes(ns)|][..devPath - start];
    FirstValid(p);
    assert |ns[n..][0].bytes| >= HEADER;
  }

  lemma {:induction false} FirstValid(p: Path)
    requires p.Valid()
    ensures forall k :: 0 <= k < |p.First()| ==> p.First()[k].Valid() && !p.First()[k].EndType()
  {
    if p.Step? {
      FirstValid(p.rest);
    }
  }

  /** What a call shows as the first instance: at most 513 of its nodes. */
  ghost function FirstSeen(p: Path): seq<Node> {
    if |p.First()| <= MAX_NODES then p.First() else p.First()[..MAX_NODES]
  }

  /** Where the next call goes on.  After an instance that was cut short it is after one more node, unless that
      node's subtype looks like that of the end. */
  ghost function NextSeen(p: Path): (next: Option<Path>)
    ensures next.Some? ==> next.value.Size() < p.Size()
  {
    if |p.First()| <= MAX_NODES then
      if p.More() then Some(p.Later()) else None
    else if |p.First()[MAX_NODES].bytes| > 1 && p.First()[MAX_NODES].bytes[1] == ENTIRE then None
    else Some(Skip(p, MAX_NODES + 1))
  }

  /** What repeated calls show. */
  ghost function Seen(p: Path): seq<seq<Node>>
    decreases p.Size()
  {
    [FirstSeen(p)] + if NextSeen(p).None? then [] else Seen(NextSeen(p).value)
  }

  /** Inside the first instance, after n of its nodes. */
  ghost predicate Inside(b: seq<Byte>, start: nat, devPath: nat, left: Path, p: Path, n: nat) {
    Walking(b, start, devPath, left, p) && Walked(start, devPath, left, p, n) && n + |left.First()| == |p.First()|
  }

  lemma InsideNext(b: seq<Byte>, start: nat, devPath: nat, left: Path, p: Path, n: nat)
    requires Inside(b, start, devPath, left, p, n) && !left.node.EndType()
    ensures left.Step? && n < |p.First()| && Inside(b, start, devPath + |left.node.bytes|, left.rest, p, n + 1)
  {
    WalkNext(b, start, devPath, left, p);
    WalkedNext(start, devPath, left, p, n);
  }

  /** The walk has stopped at a node: at the end of the instance, or at the guard. */
  ghost predicate Stopped(b: seq<Byte>, start: nat, devPath: nat, left: Path, p: Path, n: nat) {
    && Inside(b, start, devPath, left, p, n) && n <= MAX_NODES && Header(b, devPath, left.node)
    && (left.node.EndType() || n == MAX_NODES)
  }

  /** What the position where a walk stopped means. */
  ghost predicate Shows(b: seq<Byte>, start: nat, devPath: nat, following: nat, p: Path) {
    && start <= devPath && devPath + 1 < |b| && b[start..devPath] == EncodeNodes(FirstSeen(p))
    && (devPath - start == |EncodeNodes(p.First())| <==> |p.First()| <= MAX_NODES)
    && (NextSeen(p).Some? <==> b[devPath + 1] != ENTIRE)
    && (NextSeen(p).Some? ==> Holds(b, following, NextSeen(p).value))
  }

  lemma StoppedAtEnd(b: seq<Byte>, start: nat, devPath: nat, left: Path, p: Path, n: nat)
    requires Holds(b, start, p) && Stopped(b, start, devPath, left, p, n) && left.node.EndType()
    ensures Shows(b, start, devPath, devPath + |left.node.bytes|, p)
  {
    WalkEnd(b, start, devPath, left, p);
  }

  lemma StoppedAtGuard(b: seq<Byte>, start: nat, devPath: nat, left: Path, p: Path, n: nat)
    requires Holds(b, start, p) && Stopped(b, start, devPath, left, p, n) && !left.node.EndType()
    ensures Shows(b, start, devPath, devPath + |left.node.bytes|, p)
  {
    InsideNext(b, start, devPath, left, p, n);
    CutShort(b, start, devPath, left, p, n);
  }

  /** The walk itself. */
  method WalkInstance(b: seq<Byte>, start: nat, ghost p: Path)
    returns (devPath: nat, following: nat, ghost left: Path, ghost n: nat)
    requires Holds(b, start, p)
    ensures Stopped(b, start, devPath, left, p, n) && following == devPath + |left.node.bytes|
  {
    var count := 0;
    devPath, following, left := start, start, p;
    assert p.First()[..0] == [];
    while true
      invariant Inside(b, start, devPath, left, p, count) && count <= MAX_NODES
      decreases left
    {
      HoldsHeader(b, devPath, left);
      following := devPath + NodeLength(b, devPath);
      if IsDevicePathEndType(b, devPath) {
        break;
      }
      if count > 512 {
        break;
      }
      InsideNext(b, start, devPath, left, p, count);
      left := left.rest;
      devPath := following;
      count := count + 1;
    }
    n := count;
  }

  method FindInstanceEnd(b: seq<Byte>, start: nat, ghost p: Path) returns (devPath: nat, following: nat)
    requires Holds(b, start, p)
    ensures Shows(b, start, devPath, following, p)
  {
    ghost var left, n;
    devPath, following, left, n := WalkInstance(b, start, p);
    if left.node.EndType() {
      StoppedAtEnd(b, start, devPath, left, p, n);
    } else {
      StoppedAtGuard(b, start, devPath, left, p, n);
    }
  }

  /** Returns the start and size of the first instance and the position of the next one, if any.  The whole
      instance is returned exactly when it has at most 513 nodes. */
  method DevicePathInstance(b: seq<Byte>, pos: Option<nat>, ghost p: Path)
    returns (inst: Option<nat>, next: Option<nat>, size: nat)
    requires pos.Some? ==> Holds(b, pos.value, p)
    ensures inst == pos
    ensures pos.None? ==> next.None?
    ensures pos.Some? ==>
              && pos.value + size <= |b|
              && b[pos.value..pos.value + size] == EncodeNodes(FirstSeen(p))
              && (size == |EncodeNodes(p.First())| <==> |p.First()| <= MAX_NODES)
              && next.Some? == NextSeen(p).Some?
              && (next.Some? ==> Holds(b, next.value, NextSeen(p).value))
  {
    if pos.None? {
      return None, None, 0;
    }
    var start := pos.value;
    var devPath, following := FindInstanceEnd(b, start, p);
    next := Some(following);
    if b[devPath + 1] == ENTIRE {
      next := None;
    }
    return pos, next, devPath - start;
  }

  /** No instance is longer than the guard admits. */
  ghost predicate Walkable(p: Path) {
    forall k :: 0 <= k < |p.Instances()| ==> |p.Instances()[k]| <= MAX_NODES
  }

  lemma WalkablePeel(p: Path)
    ensures Walkable(p) <==> |p.First()| <= MAX_NODES && (p.More() ==> Walkable(p.Later()))
    ensures |p.Instances()| == 1 + (if p.More() then |p.Later().Instances()| else 0)
  {
    InstancesPeel(p);
    if p.More() {
      var later := p.Later().Instances();
      forall k | 0 <= k < |later| ensures later[k] == p.Instances()[k + 1] {}
      if Walkable(p) {
        forall k | 0 <= k < |later| ensures |later[k]| <= MAX_NODES {
          assert later[k] == p.Instances()[k + 1];
        }
      }
    }
  }

  /** Repeated calls show exactly the instances if and only if none of them is too long. */
  lemma {:induction false} SeenAreInstances(p: Path)
    ensures Seen(p) == p.Instances() <==> Walkable(p)
    decreases p.Size()
  {
    InstancesPeel(p);
    WalkablePeel(p);
    if |p.First()| > MAX_NODES {
      assert Seen(p)[0] != p.Instances()[0];
    } else if p.More() {
      SeenAreInstances(p.Later());
      assert Seen(p)[1..] == Seen(p.Later()) && p.Instances()[1..] == p.Later().Instances();
    }
  }

  lemma {:induction false} ValidLater(p: Path)
    requires p.Valid() && p.More()
    ensures p.Later().Valid() && (p.Packed() ==> p.Later().Packed())
    decreases p
  {
    if !p.node.EndType() {
      ValidLater(p.rest);
    }
  }

  /** The bytes of each of some instances. */
  ghost function Encodings(xs: seq<seq<Node>>): (bs: seq<seq<Byte>>)
    ensures |bs| == |xs|
  {
    if |xs| == 0 then [] else [EncodeNodes(xs[0])] + Encodings(xs[1..])
  }

  lemma {:induction false} EncodingsAt(xs: seq<seq<Node>>, k: nat)
    requires k < |xs|
    ensures Encodings(xs)[k] == EncodeNodes(xs[k])
  {
    if k > 0 {
      EncodingsAt(xs[1..], k - 1);
    }
  }

  /** What has been shown and what is still ahead of pos make up all that is shown. */
  ghost predicate Showing(shown: seq<seq<Byte>>, pos: Option<nat>, left: Path, all: seq<seq<Byte>>) {
    if pos.None? then shown == all else shown + Encodings(Seen(left)) == all
  }

  lemma ShowingNext(shown: seq<seq<Byte>>, pos: Option<nat>, left: Path, all: seq<seq<Byte>>, next: Option<nat>, later: Path)
    requires pos.Some? && Showing(shown, pos, left, all) && next.Some? == NextSeen(left).Some?
    requires next.Some? ==> later == NextSeen(left).value
    ensures Showing(shown + [EncodeNodes(FirstSeen(left))], next, later, all)
  {
    var e, rest := EncodeNodes(FirstSeen(left)), if next.None? then [] else Seen(later);
    assert Seen(left) == [FirstSeen(left)] + rest && Seen(left)[1..] == rest;
    assert Encodings(Seen(left)) == [e] + Encodings(rest);
    ConcatAssociative(shown, [e], Encodings(rest));
  }

  /** One call of DevicePathInstance; later is the path that the next one is given. */
  method ShowInstance(b: seq<Byte>, pos: Option<nat>, ghost left: Path, ghost shown0: seq<seq<Byte>>, ghost all: seq<seq<Byte>>)
    returns (next: Option<nat>, ghost later: Path, ghost shown: seq<seq<Byte>>)
    requires pos.Some? && Holds(b, pos.value, left) && Showing(shown0, pos, left, all)
    ensures next.Some? ==> Holds(b, next.value, later) && later.Size() < left.Size()
    ensures |shown| == |shown0| + 1 && Showing(shown, next, later, all)
  {
    var inst, size;
    inst, next, size := DevicePathInstance(b, pos, left);
    later := if next.Some? then NextSeen(left).value else left;
    ghost var bytes := b[inst.value..inst.value + size];
    assert bytes == EncodeNodes(FirstSeen(left));
    shown := shown0 + [bytes];
    ShowingNext(shown0, pos, left, all, next, later);
  }

  /** Calls DevicePathInstance until there is nothing left; shown are the bytes that the calls return, in order. */
  method DevicePathInstanceCount(src: Option<seq<Byte>>, ghost p: Path) returns (count: nat, ghost shown: seq<seq<Byte>>)
    requires src.Some? ==> Holds(src.value, 0, p)
    ensures shown == (if src.None? then [] else Encodings(Seen(p)))
    ensures count == if src.None? then 0 else |Seen(p)|
    ensures src.Some? && Walkable(p) ==> count == |p.Instances()| && shown == Encodings(p.Instances())
  {
    count, shown := 0, [];
    var b := if src.None? then [] else src.value;
    var pos: Option<nat> := if src.None? then None else Some(0);
    ghost var left, all := p, if src.None? then [] else Encodings(Seen(p));
    while pos.Some?
      invariant pos.Some? ==> Holds(b, pos.value, left)
      invariant count == |shown| && Showing(shown, pos, left, all)
      decreases if pos.Some? then left.Size() else 0
    {
      pos, left, shown := ShowInstance(b, pos, left, shown, all);
      count := count + 1;
    }
    SeenAreInstances(p);
  }

  // ----- an instance that is cut short -----

  function Pci(): Node {
    Node([0x01, 0x01, 6, 0, 0, 0])
  }

  function Many(n: nat): Path {
    if n == 0 then Last(END) else Step(Pci(), Many(n - 1))
  }

  lemma {:induction false} ManyNodes(n: nat)
    ensures Many(n).Valid() && Many(n).Packed() && |Many(n).First()| == n && |EncodeNodes(Many(n).First())| == 6 * n
  {
    if n > 0 {
      ManyNodes(n - 1);
      EncodeCons(Pci(), Many(n - 1).First());
    }
  }

  lemma {:induction false} ManyPrefix(n: nat, k: nat)
    requires k <= n == |Many(n).First()|
    ensures Many(n).First()[..k] == Many(k).First()
    decreases k
  {
    if k > 0 {
      ManyNodes(n - 1);
      ManyPrefix(n - 1, k - 1);
      assert Many(n).First()[..k] == [Pci()] + Many(n - 1).First()[..k - 1];
    } else {
      assert Many(n).First()[..0] == [];
    }
  }

  /** A single instance of more than 513 nodes, 514 for example: its first 3078 bytes are returned. */
  method InstanceCutShort(n: nat) returns (size: nat)
    requires n > 513
    ensures |Many(n).First()| == n && |EncodeNodes(Many(n).First())| == 6 * n
    ensures size == 3078 < 6 * n
  {
    ManyNodes(n);
    ManyNodes(MAX_NODES);
    ManyPrefix(n, MAX_NODES);
    var b := Encode(Many(n));
    HoldsPrefix(b, Many(n));
    var inst, next;
    inst, next, size := DevicePathInstance(b, Some(0), Many(n));
  }

  /** On the way to the end node of p. */
  ghost predicate Seeking(b: seq<Byte>, at: nat, devPath: nat, left: Path, p: Path) {
    && at <= devPath && Holds(b, devPath, left)
    && devPath + |Encode(left)| == at + |Encode(p)| && EndNode(left) == EndNode(p)
  }

  lemma SeekNext(b: seq<Byte>, at: nat, devPath: nat, left: Path, p: Path)
    requires Seeking(b, at, devPath, left, p) && left.Step?
    ensures Seeking(b, at, devPath + |left.node.bytes|, left.rest, p)
  {
    HoldsHeader(b, devPath, left);
  }

  method NextNode(b: seq<Byte>, ghost at: nat, devPath: nat, ghost left: Path, ghost p: Path) returns (next: nat)
    requires Seeking(b, at, devPath, left, p) && Header(b, devPath, left.node) && left.Step?
    ensures Seeking(b, at, next, left.rest, p) && Header(b, next, left.rest.node)
  {
    SeekNext(b, at, devPath, left, p);
    next := devPath + NodeLength(b, devPath);
    HoldsHeader(b, next, left.rest);
  }

  /** Walks to the path's end node, which last names. */
  method FindEnd(b: seq<Byte>, at: nat, ghost p: Path) returns (devPath: nat, ghost last: Node)
    requires Holds(b, at, p)
    ensures at <= devPath && devPath + |last.bytes| == at + |Encode(p)| && Header(b, devPath, last) && last.End()
    ensures last == EndNode(p)
  {
    devPath := at;
    ghost var left := p;
    HoldsHeader(b, devPath, left);
    while !IsDevicePathEnd(b, devPath)
      invariant Seeking(b, at, devPath, left, p) && Header(b, devPath, left.node)
      decreases left
    {
      devPath := NextNode(b, at, devPath, left, p);
      left := left.rest;
    }
    last := left.node;
  }

  ghost function EndNode(p: Path): Node {
    if p.Last? then p.node else EndNode(p.rest)
  }

  lemma {:induction false} PackedEnd(p: Path)
    requires p.Valid() && p.Packed()
    ensures |EndNode(p).bytes| == HEADER
  {
    if p.Step? {
      PackedEnd(p.rest);
    }
  }

  /** The size of a path whose end nodes carry no data. */
  method DevicePathSize(b: seq<Byte>, at: nat, ghost p: Path) returns (size: nat)
    requires Holds(b, at, p)
    ensures size == |Encode(p)| - |EndNode(p).bytes| + HEADER
    ensures p.Packed() ==> size == |Encode(p)| && at + size <= |b| && b[at..at + size] == Encode(p)
  {
    var devPath, last := FindEnd(b, at, p);
    if p.Packed() {
      PackedEnd(p);
    }
    size := devPath - at + HEADER;
  }

  method CopyMem(dst: array<Byte>, to: nat, src: seq<Byte>, from: nat, len: nat)
    requires to + len <= dst.Length && from + len <= |src|
    modifies dst
    ensures dst[..] == old(dst[..to]) + src[from..from + len] + old(dst[to + len..])
  {
    for k := 0 to len
      invariant dst[to..to + k] == src[from..from + k]
      invariant dst[..to] == old(dst[..to]) && dst[to + k..] == old(dst[to + k..])
    {
      dst[to + k] := src[from + k];
      assert dst[to..to + k + 1] == dst[to..to + k] + [src[from + k]];
      assert src[from..from + k + 1] == src[from..from + k] + [src[from + k]];
      assert dst[to + k + 1..] == old(dst[to + k..])[1..] == old(dst[to + k + 1..]);
    }
    assert dst[..] == dst[..to] + dst[to..to + len] + dst[to + len..];
  }

  /** A fresh copy of the path, or NULL when the allocation is not granted. */
  method DuplicateDevicePath(b: seq<Byte>, at: nat, ghost p: Path, granted: bool) returns (r: array?<Byte>)
    requires Holds(b, at, p) && p.Packed()
    ensures r != null <==> granted
    ensures r != null ==> fresh(r) && r[..] == Encode(p)
  {
    var size := DevicePathSize(b, at, p);
    if !granted {
      return null;
    }
    var copy := new Byte[size];
    CopyMem(copy, 0, b, at, size);
    assert copy[..0] == [] && copy[size..] == [];
    return copy;
  }

  // ----- AppendDevicePathInstance -----

  /** The end node as an end of instance. */
  ghost function Turned(n: Node): (m: Node)
    requires n.Valid()
    ensures m.Valid() && |m.bytes| == |n.bytes| && !m.End() && m.EndType() == n.EndType()
  {
    Node(n.bytes[1 := INSTANCE])
  }

  /** The first path with its end turned into an instance end, followed by the second path. */
  ghost function Joined(p: Path, q: Path): Path
    requires p.Valid()
  {
    match p
    case Last(n) => Step(Turned(n), q)
    case Step(n, r) => Step(n, Joined(r, q))
  }

  /** The joined path is well formed and has the instances of both. */
  lemma {:induction false} JoinedInstances(p: Path, q: Path)
    requires p.Valid() && q.Valid()
    ensures Joined(p, q).Valid()
    ensures Joined(p, q).Instances() == p.Instances() + q.Instances()
    ensures p.Packed() && q.Packed() ==> Joined(p, q).Packed()
    decreases p
  {
    if p.Step? {
      JoinedInstances(p.rest, q);
      ConsConcat([], p.rest.Instances(), q.Instances());
      ConsConcat([p.node] + p.rest.Instances()[0], p.rest.Instances()[1..], q.Instances());
      TailConcat(p.rest.Instances(), q.Instances());
    }
  }

  lemma ConsConcat<T>(x: T, a: seq<T>, b: seq<T>)
    ensures ([x] + a) + b == [x] + (a + b)
  {}

  lemma TailConcat<T>(a: seq<T>, b: seq<T>)
    requires |a| > 0
    ensures (a + b)[0] == a[0] && (a + b)[1..] == a[1..] + b
  {}

  lemma UpdateRight<T>(a: seq<T>, b: seq<T>, k: nat, x: T)
    requires k < |b|
    ensures (a + b)[|a| + k := x] == a + b[k := x]
  {}

  /** Overwriting the subtype of the end node turns one encoding into the start of the other. */
  lemma {:induction false} JoinedEncode(p: Path, q: Path)
    requires p.Valid()
    ensures HEADER <= |EndNode(p).bytes| && |Encode(p)| >= |EndNode(p).bytes|
    ensures Encode(Joined(p, q)) == Encode(p)[|Encode(p)| - |EndNode(p).bytes| + 1 := INSTANCE] + Encode(q)
    decreases p
  {
    match p
    case Last(n) =>
    case Step(n, r) =>
      JoinedEncode(r, q);
      var a, b := n.bytes, Encode(r);
      var k := |b| - |EndNode(r).bytes| + 1;
      UpdateRight(a, b, k, INSTANCE);
      ConcatAssociative(a, b[k := INSTANCE], Encode(q));
  }

  /** Turns the end of the path at the start of the buffer into an instance end. */
  method TurnEndNode(r: array<Byte>, ghost p: Path) returns (following: nat)
    requires Holds(r[..], 0, p) && p.Packed()
    modifies r
    ensures following == |Encode(p)| && HEADER <= following <= r.Length
    ensures r[..] == old(r[..])[following - HEADER + 1 := INSTANCE]
  {
    var devPath, last := FindEnd(r[..], 0, p);
    PackedEnd(p);
    following := devPath + NodeLength(r[..], devPath);
    r[devPath + 1] := INSTANCE;
  }

  /** Adds a path's instances after another's.  The source asserts that the allocation for both is granted. */
  method AppendDevicePathInstance(src: Option<seq<Byte>>, ghost p: Path, inst: seq<Byte>, ghost q: Path, granted: bool)
    returns (r: array?<Byte>)
    requires src.Some? ==> Holds(src.value, 0, p) && p.Packed() && granted
    requires Holds(inst, 0, q) && q.Packed()
    ensures (r != null <==> granted) && (r != null ==> fresh(r))
    ensures src.None? && r != null ==> r[..] == Encode(q)
    ensures src.Some? ==>
              && Joined(p, q).Valid() && r[..] == Encode(Joined(p, q))
              && r.Length == |Encode(p)| + |Encode(q)|
              && Joined(p, q).Instances() == p.Instances() + q.Instances()
  {
    if src.None? {
      r := DuplicateDevicePath(inst, 0, q, granted);
      return;
    }
    var both, instSize := CopyFirst(src.value, p, inst, q);
    var following := TurnEndNode(both, p);
    ghost var turned := Encode(p)[following - HEADER + 1 := INSTANCE];
    assert both[..following] == turned;
    CopyMem(both, following, inst, 0, instSize);
    assert both[..] == turned + Encode(q);
    PackedEnd(p);
    JoinedBytes(p, q, both[..], Encode(p), Encode(q), following - HEADER);
    return both;
  }

  /** Makes room for two paths and copies the first. */
  method CopyFirst(src: seq<Byte>, ghost p: Path, inst: seq<Byte>, ghost q: Path) returns (r: array<Byte>, instSize: nat)
    requires Holds(src, 0, p) && p.Packed() && Holds(inst, 0, q) && q.Packed()
    ensures fresh(r) && instSize == |Encode(q)| && r.Length == |Encode(p)| + instSize
    ensures r[..|Encode(p)|] == Encode(p) && Holds(r[..], 0, p)
    ensures instSize <= |inst| && inst[0..instSize] == Encode(q)
  {
    var srcSize := DevicePathSize(src, 0, p);
    instSize := DevicePathSize(inst, 0, q);
    r := new Byte[srcSize + instSize];
    CopyMem(r, 0, src, 0, srcSize);
    assert r[..][0..0 + srcSize] == Encode(p);
  }

  lemma JoinedBytes(p: Path, q: Path, b: seq<Byte>, e: seq<Byte>, f: seq<Byte>, k: nat)
    requires p.Valid() && q.Valid() && e == Encode(p) && f == Encode(q)
    requires k + |EndNode(p).bytes| == |e| && k + 1 < |e| && b == e[k + 1 := INSTANCE] + f
    ensures Joined(p, q).Valid() && b == Encode(Joined(p, q))
    ensures Joined(p, q).Instances() == p.Instances() + q.Instances()
  {
    JoinedInstances(p, q);
    JoinedEncode(p, q);
  }
}
