/**
 UEFI device paths (section 9.3 of the UEFI Specification 2.4): the list view and its byte encoding.

 A path is a list of nodes, each a type byte, a subtype byte, a 16-bit little-endian length and data.
 Nodes of the end type close an instance; the one with the "entire" subtype closes the path.
 Following bootloader/gnu-efi/inc/efidevp.h, the top bit of the type byte is a flag that the type test
 ignores.
 */
module DevicePath {
  import opened Basics

  const END_TYPE: Byte := 0x7F
  const UNPACKED: Byte := 0x80
  const ENTIRE: Byte := 0xFF
  const INSTANCE: Byte := 0x01
  const HEADER := 4

  /** The type byte without the flag in its top bit. */
  function TypeOf(kind: Byte): Byte {
    if kind < UNPACKED then kind else kind - UNPACKED
  }

  /** A node as the bytes that represent it. */
  datatype Node = Node(bytes: seq<Byte>) {

    /** The header is complete and its length field holds the node's length. */
    predicate Valid() {
      |bytes| >= HEADER && LengthField(bytes[2], bytes[3]) == |bytes|
    }

    predicate EndType() {
      |bytes| >= HEADER && TypeOf(bytes[0]) == END_TYPE
    }

    predicate End() {
      EndType() && bytes[1] == ENTIRE
    }
  }

  function LengthField(low: Byte, high: Byte): nat {
    var l: int, h: int := low, high;
    l + 256 * h
  }

  const END := Node([END_TYPE, ENTIRE, 4, 0])
  const END_INSTANCE := Node([END_TYPE, INSTANCE, 4, 0])

  /** A path: nodes up to and including its end node. */
  datatype Path = Last(node: Node) | Step(node: Node, rest: Path) {

    /** Only the last node closes the path. */
    predicate Valid() {
      && node.Valid()
      && match this
         case Last(n) => n.End()
         case Step(n, r) => !n.End() && r.Valid()
    }

    /** End nodes carry no data. */
    predicate Packed() {
      && (node.EndType() ==> |node.bytes| == HEADER)
      && (Step? ==> rest.Packed())
    }

    function Nodes(): (ns: seq<Node>)
      ensures |ns| > 0
    {
      match this
      case Last(n) => [n]
      case Step(n, r) => [n] + r.Nodes()
    }

    /** The instances, each without its end node. */
    function Instances(): (r: seq<seq<Node>>)
      ensures |r| > 0
    {
      match this
      case Last(_) => [[]]
      case Step(n, r) =>
        var later := r.Instances();
        if n.EndType() then [[]] + later else [[n] + later[0]] + later[1..]
    }

    /** The first instance. */
    function First(): seq<Node> {
      match this
      case Last(_) => []
      case Step(n, r) => if n.EndType() then [] else [n] + r.First()
    }

    function Size(): nat {
      if Last? then 1 else 1 + rest.Size()
    }

    /** Whether another instance follows the first. */
    predicate More() {
      Step? && (node.EndType() || rest.More())
    }

    /** The path that starts at the second instance. */
    function Later(): (p: Path)
      requires More()
      ensures p.Size() < Size()
    {
      if node.EndType() then rest else rest.Later()
    }
  }

  // ----- encoding -----

  function Encode(p: Path): (b: seq<Byte>)
    ensures |b| >= |p.node.bytes|
  {
    match p
    case Last(n) => n.bytes
    case Step(n, r) => n.bytes + Encode(r)
  }

  /** The bytes of an instance. */
  function EncodeNodes(ns: seq<Node>): seq<Byte> {
    if |ns| == 0 then [] else ns[0].bytes + EncodeNodes(ns[1..])
  }

  lemma EncodeCons(n: Node, ns: seq<Node>)
    ensures EncodeNodes([n] + ns) == n.bytes + EncodeNodes(ns)
  {
    assert ([n] + ns)[1..] == ns;
  }

  /** A path's bytes start with those of its first instance. */
  lemma {:induction false} FirstBytes(p: Path)
    ensures EncodeNodes(p.First()) <= Encode(p)
  {
    if p.Step? && !p.node.EndType() {
      FirstBytes(p.rest);
      EncodeCons(p.node, p.rest.First());
    }
  }

  /** The buffer holds the path at the offset. */
  ghost predicate Holds(b: seq<Byte>, at: nat, p: Path) {
    p.Valid() && at + |Encode(p)| <= |b| && b[at..at + |Encode(p)|] == Encode(p)
  }

  function NodeLength(b: seq<Byte>, at: nat): nat
    requires at + HEADER <= |b|
  {
    LengthField(b[at + 2], b[at + 3])
  }

  predicate IsDevicePathEndType(b: seq<Byte>, at: nat)
    requires at + HEADER <= |b|
  {
    TypeOf(b[at]) == END_TYPE
  }

  predicate IsDevicePathEnd(b: seq<Byte>, at: nat)
    requires at + HEADER <= |b|
  {
    IsDevicePathEndType(b, at) && b[at + 1] == ENTIRE
  }

  /** The accessor macros read the node's fields at the offset. */
  ghost predicate Header(b: seq<Byte>, at: nat, n: Node) {
    && n.Valid() && at + |n.bytes| <= |b| && b[at + 1] == n.bytes[1] && NodeLength(b, at) == |n.bytes|
    && IsDevicePathEndType(b, at) == n.EndType() && IsDevicePathEnd(b, at) == n.End()
  }

  /** The node's bytes are at the offset. */
  ghost predicate Reads(b: seq<Byte>, at: nat, n: Node) {
    Header(b, at, n) && b[at] == n.bytes[0] && b[at..at + |n.bytes|] == n.bytes
  }

  lemma ReadNode(b: seq<Byte>, at: nat, n: Node)
    requires n.Valid() && at + |n.bytes| <= |b| && b[at..at + |n.bytes|] == n.bytes
    ensures Reads(b, at, n)
  {
    var s := b[at..at + |n.bytes|];
    assert s[0] == b[at] && s[1] == b[at + 1] && s[2] == b[at + 2] && s[3] == b[at + 3];
  }

  /** A buffer that holds a path starts with its first node, and what follows holds the rest. */
  lemma HoldsHead(b: seq<Byte>, at: nat, p: Path)
    requires Holds(b, at, p)
    ensures Reads(b, at, p.node)
    ensures p.Step? ==> Holds(b, at + |p.node.bytes|, p.rest)
  {
    var e, len := Encode(p), |p.node.bytes|;
    assert b[at..at + len] == b[at..at + |e|][..len];
    ReadNode(b, at, p.node);
    if p.Step? {
      assert b[at + len..at + |e|] == b[at..at + |e|][len..];
    }
  }

  lemma HoldsHeader(b: seq<Byte>, at: nat, p: Path)
    requires Holds(b, at, p)
    ensures Header(b, at, p.node)
    ensures p.Step? ==> Holds(b, at + |p.node.bytes|, p.rest)
  {
    HoldsHead(b, at, p);
  }

  /** The encoding is self-delimiting: a buffer holds at most one path at an offset. */
  lemma {:induction false} HoldsUnique(b: seq<Byte>, at: nat, p: Path, q: Path)
    requires Holds(b, at, p) && Holds(b, at, q)
    ensures p == q
    decreases p
  {
    HoldsHead(b, at, p);
    HoldsHead(b, at, q);
    if p.Step? {
      HoldsUnique(b, at + |p.node.bytes|, p.rest, q.rest);
    }
  }

  lemma HoldsFirst(b: seq<Byte>, at: nat, p: Path)
    requires Holds(b, at, p)
    ensures at + |EncodeNodes(p.First())| <= |b|
    ensures b[at..at + |EncodeNodes(p.First())|] == EncodeNodes(p.First())
  {
    FirstBytes(p);
    var n := |EncodeNodes(p.First())|;
    assert b[at..at + n] == b[at..at + |Encode(p)|][..n];
  }

  lemma HoldsPrefix(b: seq<Byte>, p: Path)
    requires p.Valid() && Encode(p) <= b
    ensures Holds(b, 0, p)
  {
    assert b[0..0 + |Encode(p)|] == Encode(p);
  }

  /** The instances of a path are its first one and those that start later. */
  lemma {:induction false} InstancesPeel(p: Path)
    ensures p.Instances()[0] == p.First()
    ensures p.More() ==> p.Instances() == [p.First()] + p.Later().Instances()
    ensures !p.More() ==> |p.Instances()| == 1
    decreases p
  {
    if p.Step? && !p.node.EndType() {
      InstancesPeel(p.rest);
    }
  }
}
