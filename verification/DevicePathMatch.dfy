/**
 LibMatchDevicePaths (bootloader/gnu-efi/lib/dpath.c): whether some instance of one path is a prefix of
 another path.

 The source compares bytes, for the length of the instance, without looking at the length of the other
 path.  Because the encoding is self-delimiting, the first difference comes no later than the other
 path's first end node, so byte prefix and node prefix coincide and nothing past that node is read.
 */
module DevicePathMatch {
  import opened Basics
  import opened DevicePath
  import opened DevicePathWalk

  /** Valid nodes, none of the end type. */
  ghost predicate Body(ns: seq<Node>) {
    forall k :: 0 <= k < |ns| ==> ns[k].Valid() && !ns[k].EndType()
  }

  /** Two different nodes differ within the shorter one. */
  lemma NodesDiffer(n: Node, m: Node) returns (k: nat)
    requires n.Valid() && m.Valid() && n != m
    ensures k < |n.bytes| && k < |m.bytes| && n.bytes[k] != m.bytes[k]
  {
    if k :| 0 <= k < HEADER && n.bytes[k] != m.bytes[k] {
      return k;
    }
    assert n.bytes[2] == m.bytes[2] && n.bytes[3] == m.bytes[3];
    assert |n.bytes| == |m.bytes|;
    k :| 0 <= k < |n.bytes| && n.bytes[k] != m.bytes[k];
  }

  /** The first nodes differ, or the path has no node left. */
  lemma HeadDiffers(s: seq<Byte>, at: nat, p: Path, n: Node, rest: seq<Node>) returns (k: nat)
    requires Holds(s, at, p) && n.Valid() && !n.EndType() && (p.node.EndType() || n != p.node)
    ensures k < |EncodeNodes([n] + rest)| && k <= |EncodeNodes(p.First())|
    ensures at + k < |s| && s[at + k] != EncodeNodes([n] + rest)[k]
  {
    HoldsHead(s, at, p);
    EncodeCons(n, rest);
    k := 0;
    if !p.node.EndType() {
      EncodeCons(p.node, p.rest.First());
      k := NodesDiffer(n, p.node);
      assert s[at + k] == s[at..at + |p.node.bytes|][k];
    }
  }

  lemma ShiftedDifference(s: seq<Byte>, at: nat, a: seq<Byte>, b: seq<Byte>, j: nat)
    requires j < |b| && at + |a| + j < |s| && s[at + |a| + j] != b[j]
    ensures s[at + (|a| + j)] != (a + b)[|a| + j]
  {}

  lemma PrefixCons<T>(x: T, a: seq<T>, b: seq<T>)
    ensures [x] + a <= [x] + b <==> a <= b
  {
    assert ([x] + a)[1..] == a && ([x] + b)[1..] == b;
  }

  /** The difference found after equal first nodes. */
  lemma LaterDifference(s: seq<Byte>, at: nat, n: Node, rest: seq<Node>, later: seq<Node>, j: nat)
    requires j < |EncodeNodes(rest)| && j <= |EncodeNodes(later)|
    requires at + |n.bytes| + j < |s| && s[at + |n.bytes| + j] != EncodeNodes(rest)[j]
    ensures var k := |n.bytes| + j;
            && k < |EncodeNodes([n] + rest)| && k <= |EncodeNodes([n] + later)|
            && s[at + k] != EncodeNodes([n] + rest)[k]
  {
    EncodeCons(n, rest);
    EncodeCons(n, later);
    ShiftedDifference(s, at, n.bytes, EncodeNodes(rest), j);
  }

  /** When the instance is not a prefix of the path's first instance, its bytes differ from the buffer at
      or before the path's first end node. */
  lemma {:induction false} FirstDifference(s: seq<Byte>, at: nat, p: Path, inst: seq<Node>) returns (k: nat)
    requires Holds(s, at, p) && Body(inst) && !(inst <= p.First())
    ensures k < |EncodeNodes(inst)| && k <= |EncodeNodes(p.First())|
    ensures at + k < |s| && s[at + k] != EncodeNodes(inst)[k]
    decreases p, 1
  {
    var n, rest := inst[0], inst[1..];
    assert inst == [n] + rest;
    if p.node.EndType() || n != p.node {
      k := HeadDiffers(s, at, p, n, rest);
    } else {
      SameHead(s, at, p, n, rest);
      k := DifferenceAfterHead(s, at, p, rest);
    }
  }

  lemma {:induction false} DifferenceAfterHead(s: seq<Byte>, at: nat, p: Path, rest: seq<Node>) returns (k: nat)
    requires p.Step? && p.First() == [p.node] + p.rest.First() && Holds(s, at + |p.node.bytes|, p.rest)
    requires Body(rest) && !(rest <= p.rest.First())
    ensures k < |EncodeNodes([p.node] + rest)| && k <= |EncodeNodes(p.First())|
    ensures at + k < |s| && s[at + k] != EncodeNodes([p.node] + rest)[k]
    decreases p, 0
  {
    var j := FirstDifference(s, at + |p.node.bytes|, p.rest, rest);
    LaterDifference(s, at, p.node, rest, p.rest.First(), j);
    k := |p.node.bytes| + j;
  }

  /** When the first nodes agree, what follows them must differ. */
  lemma SameHead(s: seq<Byte>, at: nat, p: Path, n: Node, rest: seq<Node>)
    requires Holds(s, at, p) && n == p.node && !n.EndType()
    requires Body([n] + rest) && !([n] + rest <= p.First())
    ensures p.Step? && p.First() == [n] + p.rest.First() && Holds(s, at + |n.bytes|, p.rest)
    ensures Body(rest) && !(rest <= p.rest.First())
  {
    HoldsHeader(s, at, p);
    PrefixCons(n, rest, p.rest.First());
    forall k | 0 <= k < |rest| ensures rest[k].Valid() && !rest[k].EndType() {
      assert rest[k] == ([n] + rest)[k + 1];
    }
  }

  /** The bytes of a node and of what follows it are those of both. */
  lemma ConsBytes(s: seq<Byte>, at: nat, n: Node, rest: seq<Node>)
    requires at + |n.bytes| + |EncodeNodes(rest)| <= |s|
    requires s[at..at + |n.bytes|] == n.bytes
    requires s[at + |n.bytes|..at + |n.bytes| + |EncodeNodes(rest)|] == EncodeNodes(rest)
    ensures |EncodeNodes([n] + rest)| == |n.bytes| + |EncodeNodes(rest)|
    ensures s[at..at + |EncodeNodes([n] + rest)|] == EncodeNodes([n] + rest)
  {
    EncodeCons(n, rest);
    SliceExtend(s, at, at + |n.bytes|, at + |n.bytes| + |EncodeNodes(rest)|);
  }

  /** When it is a prefix, its bytes are at the start of the buffer. */
  lemma {:induction false} PrefixBytes(s: seq<Byte>, at: nat, p: Path, inst: seq<Node>)
    requires Holds(s, at, p) && inst <= p.First()
    ensures at + |EncodeNodes(inst)| <= |s| && s[at..at + |EncodeNodes(inst)|] == EncodeNodes(inst)
    decreases p
  {
    if |inst| == 0 {
      assert s[at..at] == [];
    } else {
      var rest := inst[1..];
      assert inst == [p.node] + rest;
      PrefixCons(p.node, rest, p.rest.First());
      HoldsHead(s, at, p);
      PrefixBytes(s, at + |p.node.bytes|, p.rest, rest);
      ConsBytes(s, at, p.node, rest);
    }
  }

  lemma SliceExtend<T>(b: seq<T>, i: nat, j: nat, k: nat)
    requires i <= j <= k <= |b|
    ensures b[i..j] + b[j..k] == b[i..k]
  {}

  /** Compares len bytes, stopping at the first difference, which stop bounds when a is shorter than len. */
  method CompareMem(a: seq<Byte>, b: seq<Byte>, from: nat, len: nat, ghost stop: nat) returns (diff: int)
    requires from + len <= |b|
    requires len <= |a| || (stop < len && stop < |a| && a[stop] != b[from + stop])
    ensures diff == 0 <==> len <= |a| && a[..len] == b[from..from + len]
  {
    for k := 0 to len
      invariant k <= |a| && a[..k] == b[from..from + k]
      invariant len <= |a| || k <= stop
    {
      var x: int, y: int := a[k], b[from + k];
      if x != y {
        assert len <= |a| ==> a[..len][k] == x && b[from..from + len][k] == y;
        return x - y;
      }
      assert a[..k + 1] == a[..k] + [a[k]] && b[from..from + k + 1] == b[from..from + k] + [b[from + k]];
    }
    return 0;
  }

  /** Some of these instances is node for node a prefix of the path's first instance. */
  ghost predicate MatchesAny(xs: seq<seq<Node>>, single: Path) {
    exists k :: 0 <= k < |xs| && xs[k] <= single.First()
  }

  /** Some instance of the first path is node for node a prefix of the second's first instance. */
  ghost predicate Matches(multi: Path, single: Path) {
    MatchesAny(multi.Instances(), single)
  }

  lemma MatchesPeel(x: seq<Node>, xs: seq<seq<Node>>, single: Path)
    ensures MatchesAny([x] + xs, single) <==> x <= single.First() || MatchesAny(xs, single)
  {
    var all := [x] + xs;
    if k :| 0 <= k < |xs| && xs[k] <= single.First() {
      assert all[k + 1] <= single.First();
    }
    if k :| 0 <= k < |all| && all[k] <= single.First() {
      assert k > 0 ==> xs[k - 1] <= single.First();
    }
    assert all[0] == x;
  }

  lemma FirstSeenBody(p: Path)
    requires p.Valid()
    ensures Body(FirstSeen(p))
  {
    FirstValid(p);
  }

  /** One iteration: the bytes of an instance against the start of the other buffer. */
  method CompareInstance(b: seq<Byte>, at: nat, size: nat, single: seq<Byte>, ghost inst: seq<Node>, ghost q: Path)
    returns (same: bool)
    requires at + size <= |b| && b[at..at + size] == EncodeNodes(inst) && Body(inst)
    requires Holds(single, 0, q)
    ensures same <==> inst <= q.First()
  {
    ghost var stop := 0;
    if inst <= q.First() {
      PrefixBytes(single, 0, q, inst);
      assert single[..size] == single[0..0 + size];
    } else {
      stop := FirstDifference(single, 0, q, inst);
      assert b[at + stop] == b[at..at + size][stop];
      if size <= |single| {
        assert single[..size][stop] != b[at..at + size][stop];
      }
    }
    var diff := CompareMem(single, b, at, size, stop);
    same := diff == 0;
  }

  /** Decides over what repeated calls of DevicePathInstance show, which for instances of at most 513 nodes are the
      instances. */
  method LibMatchDevicePaths(multi: Option<seq<Byte>>, ghost p: Path, single: Option<seq<Byte>>, ghost q: Path)
    returns (r: bool)
    requires multi.Some? ==> Holds(multi.value, 0, p)
    requires single.Some? ==> Holds(single.value, 0, q)
    ensures r <==> multi.Some? && single.Some? && MatchesAny(Seen(p), q)
    ensures multi.Some? && single.Some? && Walkable(p) ==> (r <==> Matches(p, q))
  {
    if multi.None? || single.None? {
      return false;
    }
    SeenAreInstances(p);
    var pos: Option<nat> := Some(0);
    ghost var left := p;
    while pos.Some?
      invariant pos.Some? ==> Holds(multi.value, pos.value, left) && MatchesAny(Seen(left), q) == MatchesAny(Seen(p), q)
      invariant pos.None? ==> !MatchesAny(Seen(p), q)
      decreases if pos.Some? then left.Size() else 0
    {
      MatchesPeel(FirstSeen(left), if NextSeen(left).None? then [] else Seen(NextSeen(left).value), q);
      FirstSeenBody(left);
      var inst, next, size := DevicePathInstance(multi.value, pos, left);
      var same := CompareInstance(multi.value, inst.value, size, single.value, FirstSeen(left), q);
      if same {
        return true;
      }
      if next.Some? {
        left := NextSeen(left).value;
      }
      pos := next;
    }
    return false;
  }

  /** A path whose last instance was appended matches it. */
  lemma AppendedInstanceMatches(p: Path, q: Path)
    requires p.Valid() && q.Valid()
    ensures Matches(Joined(p, q), q)
  {
    JoinedInstances(p, q);
    InstancesPeel(q);
    assert Joined(p, q).Instances()[|p.Instances()|] == q.Instances()[0];
  }
}
