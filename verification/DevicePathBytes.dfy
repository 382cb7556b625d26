/**
 Device paths as bytes alone (section 9.3 of the UEFI Specification 2.4): what a reader that knows only the codes finds
 in a buffer, and that this is what the list view says.
 */
module DevicePathBytes {
  import opened Basics
  import opened DevicePath
  import opened DevicePathWalk
  import opened DevicePathAppend
  import opened DevicePathMatch
  import opened DevicePathUnpack

  /** The length of the node at an offset: bytes 2 and 3, least significant first. */
  function LengthAt(b: seq<Byte>, at: nat): nat
    requires at + 4 <= |b|
  {
    var low: int, high: int := b[at + 2], b[at + 3];
    low + 256 * high
  }

  /** The instances in a buffer from an offset on, each without the node that ends it.  Types 0x7F and 0xFF end an
      instance, with subtype 0xFF the whole path.  None are found where a node is not in the buffer. */
  function Segments(b: seq<Byte>, at: nat): seq<seq<Byte>>
    decreases |b| - at
  {
    if at + 4 > |b| then []
    else
      var next := at + LengthAt(b, at);
      if next < at + 4 || next > |b| then []
      else if b[at] == 0x7F || b[at] == 0xFF then [[]] + (if b[at + 1] == 0xFF then [] else Segments(b, next))
      else
        var later := Segments(b, next);
        if later == [] then [] else [b[at..next] + later[0]] + later[1..]
  }

  /** Each byte string is the encoding of the nodes at the same place. */
  ghost predicate Encodes(segments: seq<seq<Byte>>, instances: seq<seq<Node>>) {
    |segments| == |instances| && forall k :: 0 <= k < |segments| ==> segments[k] == EncodeNodes(instances[k])
  }

  /** A node's codes. */
  lemma Codes(n: Node)
    requires n.Valid()
    ensures |n.bytes| >= 4 && LengthAt(n.bytes, 0) == |n.bytes|
    ensures n.EndType() <==> n.bytes[0] == 0x7F || n.bytes[0] == 0xFF
    ensures n.End() <==> (n.bytes[0] == 0x7F || n.bytes[0] == 0xFF) && n.bytes[1] == 0xFF
  {}

  lemma CodesAt(b: seq<Byte>, at: nat, p: Path)
    requires Holds(b, at, p)
    ensures at + 4 <= |b| && LengthAt(b, at) == |p.node.bytes| >= 4 && at + |p.node.bytes| <= |b|
    ensures b[at..at + |p.node.bytes|] == p.node.bytes
    ensures p.node.EndType() <==> b[at] == 0x7F || b[at] == 0xFF
    ensures p.Last? <==> (b[at] == 0x7F || b[at] == 0xFF) && b[at + 1] == 0xFF
  {
    HoldsHead(b, at, p);
    Codes(p.node);
  }

  lemma SegmentsNext(b: seq<Byte>, at: nat, next: nat, later: seq<seq<Byte>>)
    requires at + 4 <= |b| && next == at + LengthAt(b, at) && at + 4 <= next <= |b| && later == Segments(b, next)
    ensures b[at] == 0x7F || b[at] == 0xFF ==> Segments(b, at) == [[]] + if b[at + 1] == 0xFF then [] else later
    ensures !(b[at] == 0x7F || b[at] == 0xFF) && |later| > 0 ==> Segments(b, at) == [b[at..next] + later[0]] + later[1..]
  {}

  /** A buffer that holds a path has its instances, byte for byte. */
  lemma {:induction false} SegmentsAreInstances(b: seq<Byte>, at: nat, p: Path)
    requires Holds(b, at, p)
    ensures Encodes(Segments(b, at), p.Instances())
    decreases p
  {
    CodesAt(b, at, p);
    var next := at + |p.node.bytes|;
    var later := Segments(b, next);
    SegmentsNext(b, at, next, later);
    if p.Last? {
      assert Encodes([[]] + [], [[]]);
    } else {
      HoldsHeader(b, at, p);
      SegmentsAreInstances(b, next, p.rest);
      var rest := p.rest.Instances();
      if p.node.EndType() {
        FirstEmpty(later, rest);
      } else {
        FirstLonger(p.node, later, rest);
        assert p.Instances() == [[p.node] + rest[0]] + rest[1..];
      }
    }
  }

  lemma FirstEmpty(segments: seq<seq<Byte>>, instances: seq<seq<Node>>)
    requires Encodes(segments, instances)
    ensures Encodes([[]] + segments, [[]] + instances)
  {}

  lemma FirstLonger(n: Node, segments: seq<seq<Byte>>, instances: seq<seq<Node>>)
    requires Encodes(segments, instances) && |segments| > 0
    ensures Encodes([n.bytes + segments[0]] + segments[1..], [[n] + instances[0]] + instances[1..])
  {
    EncodeCons(n, instances[0]);
    assert segments[0] == EncodeNodes(instances[0]);
  }

  /** A buffer in which a reader finds instances holds a path. */
  lemma {:induction false} SegmentsHold(b: seq<Byte>, at: nat) returns (p: Path)
    requires Terminated(b, at)
    ensures Holds(b, at, p)
    decreases |b| - at
  {
    var next := at + LengthAt(b, at);
    var n := Node(b[at..next]);
    assert n.bytes[0] == b[at] && n.bytes[1] == b[at + 1] && n.bytes[2] == b[at + 2] && n.bytes[3] == b[at + 3];
    Codes(n);
    if n.End() {
      p := Last(n);
    } else {
      var rest := SegmentsHold(b, next);
      p := Step(n, rest);
      assert b[at..at + |Encode(p)|] == b[at..next] + b[next..next + |Encode(rest)|];
    }
  }

  /** Nodes follow each other within the buffer up to one that ends the path. */
  ghost predicate Terminated(b: seq<Byte>, at: nat)
    decreases |b| - at
  {
    && at + 4 <= |b|
    && var next := at + LengthAt(b, at);
       && at + 4 <= next <= |b|
       && (((b[at] == 0x7F || b[at] == 0xFF) && b[at + 1] == 0xFF) || Terminated(b, next))
  }

  // ----- the operations -----

  lemma {:induction false} InstancesBody(p: Path, k: nat)
    requires p.Valid() && k < |p.Instances()|
    ensures Body(p.Instances()[k])
    decreases p.Size()
  {
    InstancesPeel(p);
    FirstValid(p);
    if k > 0 {
      ValidLater(p);
      InstancesBody(p.Later(), k - 1);
      assert p.Instances()[k] == p.Later().Instances()[k - 1];
    }
  }

  /** Nodes are a prefix of the first instance exactly when their bytes are. */
  lemma BytePrefix(ns: seq<Node>, q: Path)
    requires q.Valid() && Body(ns)
    ensures ns <= q.First() <==> EncodeNodes(ns) <= EncodeNodes(q.First())
  {
    var s, first := Encode(q), EncodeNodes(q.First());
    HoldsPrefix(s, q);
    HoldsFirst(s, 0, q);
    if ns <= q.First() {
      EncodePrefix(q.First(), |ns|);
      assert q.First()[..|ns|] == ns;
    } else {
      var k := FirstDifference(s, 0, q, ns);
      assert k < |first| ==> first[k] == s[0..0 + |first|][k] == s[k];
    }
  }

  ghost predicate SomePrefix(segments: seq<seq<Byte>>, first: seq<Byte>) {
    exists k :: 0 <= k < |segments| && segments[k] <= first
  }

  /** LibMatchDevicePaths on bytes: some instance of the one buffer is a prefix of the first instance of the other. */
  lemma MatchesOnBytes(b: seq<Byte>, p: Path, s: seq<Byte>, q: Path)
    requires Holds(b, 0, p) && Holds(s, 0, q)
    ensures |Segments(s, 0)| > 0
    ensures Matches(p, q) <==> SomePrefix(Segments(b, 0), Segments(s, 0)[0])
  {
    SegmentsAreInstances(b, 0, p);
    SegmentsAreInstances(s, 0, q);
    InstancesPeel(q);
    SegmentMatches(Segments(b, 0), Segments(s, 0)[0], p, q);
  }

  lemma SegmentMatches(segments: seq<seq<Byte>>, first: seq<Byte>, p: Path, q: Path)
    requires p.Valid() && q.Valid() && Encodes(segments, p.Instances()) && first == EncodeNodes(q.First())
    ensures Matches(p, q) <==> SomePrefix(segments, first)
  {
    var xs := p.Instances();
    forall k | 0 <= k < |xs| ensures xs[k] <= q.First() <==> segments[k] <= first {
      InstancesBody(p, k);
      BytePrefix(xs[k], q);
    }
    if k :| 0 <= k < |segments| && segments[k] <= first {
      assert xs[k] <= q.First();
    }
    if k :| 0 <= k < |xs| && xs[k] <= q.First() {
      assert segments[k] <= first;
    }
  }

  /** AppendDevicePathInstance on bytes: the first path with the subtype of its end node set to 1, and the second. */
  lemma JoinedOnBytes(p: Path, q: Path)
    requires p.Valid() && p.Packed()
    ensures |Encode(p)| >= 4 && Encode(Joined(p, q)) == Encode(p)[|Encode(p)| - 3 := 1] + Encode(q)
  {
    JoinedEncode(p, q);
    PackedEnd(p);
  }

  /** Each byte string with the tail behind it, ended by an end of instance and at last by an end of path. */
  function EachWith(segments: seq<seq<Byte>>, tail: seq<Byte>): seq<Byte> {
    if |segments| == 0 then []
    else segments[0] + tail + (if |segments| == 1 then [0x7F, 0xFF, 4, 0] else [0x7F, 1, 4, 0] + EachWith(segments[1..], tail))
  }

  /** AppendDevicePath on bytes: it writes each instance of the first path with the second path behind it. */
  lemma {:induction false} WrittenOnBytes(segments: seq<seq<Byte>>, p: Path, tail: seq<Byte>)
    requires Encodes(segments, p.Instances())
    ensures Written(p, tail) == EachWith(segments, tail)
    decreases p.Size()
  {
    InstancesPeel(p);
    assert segments[0] == EncodeNodes(p.First());
    if p.More() {
      LaterEncodes(segments, p);
      WrittenOnBytes(segments[1..], p.Later(), tail);
    }
  }

  lemma LaterEncodes(segments: seq<seq<Byte>>, p: Path)
    requires p.More() && Encodes(segments, p.Instances())
    ensures |segments| > 1 && Encodes(segments[1..], p.Later().Instances())
  {
    InstancesPeel(p);
    var later := p.Later().Instances();
    forall k | 0 <= k < |later| ensures segments[1..][k] == EncodeNodes(later[k]) {
      assert segments[k + 1] == EncodeNodes(p.Instances()[k + 1]);
    }
  }

  /** An unpacked node as bytes: the type with its top bit set, the subtype, the padded length, the data, and zeros up to
      the next multiple of the alignment. */
  lemma UnpackedBytes(al: Alignment, n: Node)
    requires n.Valid()
    ensures var m, len := UnpackNode(al, n).bytes, |n.bytes|;
            && len <= |m| < len + al && |m| % al == 0
            && m[0] == n.bytes[0] % 128 + 128 && m[1] == n.bytes[1]
            && LengthAt(m, 0) == |m| % 0x1_0000
            && m[4..len] == n.bytes[4..] && forall k :: len <= k < |m| ==> m[k] == 0
  {
    UnpackNodeLength(al, n);
    var m, len := UnpackNode(al, n).bytes, |n.bytes|;
    assert m[4..len] == n.bytes[4..];
    forall k | len <= k < |m| ensures m[k] == 0 {
      assert m[k] == Zeros(AlignSize(al, len))[k - len];
    }
  }
}
