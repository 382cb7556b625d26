/**
 UnpackDevicePath (bootloader/gnu-efi/lib/dpath.c): copies a path with every node padded to the machine's
 alignment and flagged as unpacked.

 The first pass sizes the copy by aligning a running total; the second copies node by node.  The length
 of a padded node is stored in 16 bits, so the result is a path exactly when every padded length fits.
 */
module DevicePathUnpack {
  import opened Basics
  import opened DevicePath
  import opened DevicePathWalk

  /** MIN_ALIGNMENT_SIZE: 4 on x86_64, ia32 and arm, 8 on the other machines. */
  type Alignment = a: nat | a == 4 || a == 8 witness 4

  predicate Aligned(al: Alignment, x: nat) {
    if al == 4 then x % 4 == 0 else x % 8 == 0
  }

  /** ALIGN_SIZE: what is missing to the next multiple of the alignment. */
  function AlignSize(al: Alignment, a: nat): (pad: nat)
    ensures pad < al && Aligned(al, a + pad) && (Aligned(al, a) ==> pad == 0)
  {
    RoundUp(al, a);
    var r := if al == 4 then a % 4 else a % 8;
    if r != 0 then al - r else 0
  }

  lemma RoundUp(al: Alignment, a: nat)
    ensures var r := if al == 4 then a % 4 else a % 8;
            r < al && Aligned(al, a - r) && Aligned(al, a - r + al)
  {
    if al == 4 {
      Remainder4(a - a % 4, a / 4, 0);
      Remainder4(a - a % 4 + 4, a / 4 + 1, 0);
    } else {
      Remainder8(a - a % 8, a / 8, 0);
      Remainder8(a - a % 8 + 8, a / 8 + 1, 0);
    }
  }

  lemma AlignedPlus(al: Alignment, x: nat, y: nat)
    requires Aligned(al, x) && Aligned(al, y)
    ensures Aligned(al, x + y)
  {
    if al == 4 {
      Remainder4(x + y, x / 4 + y / 4, 0);
    } else {
      Remainder8(x + y, x / 8 + y / 8, 0);
    }
  }

  function Flagged(kind: Byte): Byte {
    if kind < UNPACKED then kind + UNPACKED else kind
  }

  function Zeros(n: nat): (z: seq<Byte>)
    ensures |z| == n && forall k :: 0 <= k < n ==> z[k] == 0
  {
    if n == 0 then [] else [0] + Zeros(n - 1)
  }

  function Low(n: nat): Byte {
    n % 256
  }

  function High(n: nat): Byte {
    n / 256 % 256
  }

  /** The padded and flagged node. */
  function UnpackNode(al: Alignment, n: Node): (m: Node)
    requires n.Valid()
    ensures |m.bytes| == |n.bytes| + AlignSize(al, |n.bytes|)
  {
    var size := |n.bytes| + AlignSize(al, |n.bytes|);
    Node([Flagged(n.bytes[0]), n.bytes[1], Low(size), High(size)]
         + n.bytes[HEADER..] + Zeros(AlignSize(al, |n.bytes|)))
  }

  /** The padded length fits its field. */
  predicate Fits(al: Alignment, n: Node) {
    |n.bytes| + AlignSize(al, |n.bytes|) < 0x1_0000
  }

  predicate AllFit(al: Alignment, p: Path) {
    Fits(al, p.node) && (p.Step? ==> AllFit(al, p.rest))
  }

  ghost function Unpacked(al: Alignment, p: Path): Path
    requires p.Valid()
  {
    match p
    case Last(n) => Last(UnpackNode(al, n))
    case Step(n, r) => Step(UnpackNode(al, n), Unpacked(al, r))
  }

  lemma LengthBound(low: Byte, high: Byte)
    ensures LengthField(low, high) < 0x1_0000
  {}

  lemma SplitField(size: nat)
    ensures LengthField(Low(size), High(size)) == size % 0x1_0000
  {}

  lemma PaddedLength(al: Alignment, n: Node)
    requires n.Valid()
    ensures Aligned(al, |UnpackNode(al, n).bytes|) && HEADER <= |UnpackNode(al, n).bytes| <= 0x1_0000
  {
    LengthBound(n.bytes[2], n.bytes[3]);
  }

  lemma UnpackNodeLength(al: Alignment, n: Node)
    requires n.Valid()
    ensures var m := UnpackNode(al, n);
            LengthField(m.bytes[2], m.bytes[3]) == |m.bytes| % 0x1_0000 && (m.Valid() <==> Fits(al, n))
  {
    PaddedLength(al, n);
    SplitField(|UnpackNode(al, n).bytes|);
  }

  /** A node keeps its type up to the flag, its subtype and its data, and gains only zero padding. */
  lemma UnpackNodeFields(al: Alignment, n: Node)
    requires n.Valid()
    ensures var m := UnpackNode(al, n);
            && TypeOf(m.bytes[0]) == TypeOf(n.bytes[0]) && m.bytes[0] >= UNPACKED && m.bytes[1] == n.bytes[1]
            && m.bytes[HEADER..] == n.bytes[HEADER..] + Zeros(AlignSize(al, |n.bytes|))
            && m.EndType() == n.EndType() && m.End() == n.End()
  {}

  /** The second list has the unpacked nodes of the first, in order. */
  ghost predicate Unpacks(al: Alignment, ns: seq<Node>, ms: seq<Node>) {
    |ms| == |ns| && forall i :: 0 <= i < |ns| ==> ns[i].Valid() && ms[i] == UnpackNode(al, ns[i])
  }

  ghost predicate UnpacksAll(al: Alignment, xs: seq<seq<Node>>, ys: seq<seq<Node>>) {
    |ys| == |xs| && forall k :: 0 <= k < |xs| ==> Unpacks(al, xs[k], ys[k])
  }

  lemma UnpacksNew(al: Alignment, xs: seq<seq<Node>>, ys: seq<seq<Node>>)
    requires UnpacksAll(al, xs, ys)
    ensures UnpacksAll(al, [[]] + xs, [[]] + ys)
  {}

  lemma UnpacksLonger(al: Alignment, n: Node, xs: seq<seq<Node>>, ys: seq<seq<Node>>)
    requires n.Valid() && |xs| > 0 && UnpacksAll(al, xs, ys)
    ensures UnpacksAll(al, [[n] + xs[0]] + xs[1..], [[UnpackNode(al, n)] + ys[0]] + ys[1..])
  {
    assert Unpacks(al, xs[0], ys[0]);
  }

  /** The instances of the unpacked path are those of the path, node by node. */
  lemma {:induction false} UnpackedInstances(al: Alignment, p: Path)
    requires p.Valid()
    ensures UnpacksAll(al, p.Instances(), Unpacked(al, p).Instances())
    decreases p
  {
    UnpackNodeFields(al, p.node);
    if p.Step? {
      UnpackedInstances(al, p.rest);
      UnpacksNew(al, p.rest.Instances(), Unpacked(al, p.rest).Instances());
      UnpacksLonger(al, p.node, p.rest.Instances(), Unpacked(al, p.rest).Instances());
    }
  }

  lemma {:induction false} UnpackedIsPath(al: Alignment, p: Path)
    requires p.Valid() && AllFit(al, p)
    ensures Unpacked(al, p).Valid()
    decreases p
  {
    UnpackNodeFields(al, p.node);
    UnpackNodeLength(al, p.node);
    if p.Step? {
      UnpackedIsPath(al, p.rest);
    }
  }

  /** Every node of the path starts at a multiple of the alignment. */
  ghost predicate AlignedFrom(al: Alignment, p: Path, at: nat) {
    Aligned(al, at) && (p.Step? ==> AlignedFrom(al, p.rest, at + |p.node.bytes|))
  }

  lemma {:induction false} UnpackedAligned(al: Alignment, p: Path, at: nat)
    requires p.Valid() && Aligned(al, at)
    ensures AlignedFrom(al, Unpacked(al, p), at)
    decreases p
  {
    if p.Step? {
      PaddedLength(al, p.node);
      AlignedPlus(al, at, |UnpackNode(al, p.node).bytes|);
      UnpackedAligned(al, p.rest, at + |UnpackNode(al, p.node).bytes|);
    }
  }

  lemma UnpackNodeTwice(al: Alignment, n: Node)
    requires n.Valid() && Fits(al, n)
    ensures UnpackNode(al, n).Valid() && UnpackNode(al, UnpackNode(al, n)) == UnpackNode(al, n)
  {
    UnpackNodeLength(al, n);
    PaddedLength(al, n);
    var m := UnpackNode(al, n);
    assert AlignSize(al, |m.bytes|) == 0 && Zeros(0) == [];
    assert m.bytes == [m.bytes[0], m.bytes[1], m.bytes[2], m.bytes[3]] + m.bytes[HEADER..];
  }

  /** Unpacking an unpacked path changes nothing. */
  lemma {:induction false} UnpackIdempotent(al: Alignment, p: Path)
    requires p.Valid() && AllFit(al, p)
    ensures Unpacked(al, p).Valid() && AllFit(al, Unpacked(al, p)) && Unpacked(al, Unpacked(al, p)) == Unpacked(al, p)
    decreases p
  {
    UnpackedIsPath(al, p);
    UnpackNodeTwice(al, p.node);
    PaddedLength(al, p.node);
    if p.Step? {
      UnpackIdempotent(al, p.rest);
    }
  }

  /** A readable padded node has a length that fits, and is what is read. */
  lemma ReadBack(al: Alignment, n: Node, rest: seq<Byte>, b: seq<Byte>, at: nat, q: Path)
    requires n.Valid() && at <= |b| && b[at..] == UnpackNode(al, n).bytes + rest && Holds(b, at, q)
    ensures Fits(al, n) && q.node == UnpackNode(al, n) && q.Step? == !n.End()
    ensures at + |q.node.bytes| <= |b| && b[at + |q.node.bytes|..] == rest
  {
    var m := UnpackNode(al, n);
    HoldsHead(b, at, q);
    assert b[at..][2] == b[at + 2] && b[at..][3] == b[at + 3];
    UnpackNodeLength(al, n);
    PaddedLength(al, n);
    assert |q.node.bytes| == |m.bytes|;
    assert b[at..at + |m.bytes|] == b[at..][..|m.bytes|] == m.bytes;
    assert b[at + |m.bytes|..] == b[at..][|m.bytes|..];
    UnpackNodeFields(al, n);
  }

  lemma ReadBackLast(al: Alignment, p: Path, b: seq<Byte>, at: nat, q: Path)
    requires p.Valid() && p.Last? && at <= |b| && b[at..] == Encode(Unpacked(al, p)) && Holds(b, at, q)
    ensures Fits(al, p.node)
  {
    var m := UnpackNode(al, p.node).bytes;
    assert m + [] == m;
    ReadBack(al, p.node, [], b, at, q);
  }

  lemma ReadBackRest(al: Alignment, n: Node, rest: seq<Byte>, b: seq<Byte>, at: nat, q: Path)
    requires n.Valid() && !n.End() && at <= |b| && b[at..] == UnpackNode(al, n).bytes + rest && Holds(b, at, q)
    ensures Fits(al, n) && q.Step?
    ensures var next := at + |q.node.bytes|; next <= |b| && b[next..] == rest && Holds(b, next, q.rest)
  {
    ReadBack(al, n, rest, b, at, q);
    HoldsHeader(b, at, q);
  }

  /** If a padded length does not fit, no path can be read back. */
  lemma {:induction false} UnfitUnreadable(al: Alignment, p: Path, b: seq<Byte>, at: nat, q: Path)
    requires p.Valid() && at <= |b| && b[at..] == Encode(Unpacked(al, p))
    requires Holds(b, at, q)
    ensures AllFit(al, p)
    decreases p
  {
    if p.Last? {
      ReadBackLast(al, p, b, at, q);
    } else {
      ReadBackRest(al, p.node, Encode(Unpacked(al, p.rest)), b, at, q);
      UnfitUnreadable(al, p.rest, b, at + |q.node.bytes|, q.rest);
    }
  }

  /** The unpacked buffer holds a path exactly when every padded length fits. */
  lemma UnpackedReadableIffFits(al: Alignment, p: Path)
    requires p.Valid()
    ensures (exists q :: Holds(Encode(Unpacked(al, p)), 0, q)) <==> AllFit(al, p)
  {
    var b := Encode(Unpacked(al, p));
    assert b[0..] == b;
    if AllFit(al, p) {
      UnpackedIsPath(al, p);
      HoldsPrefix(b, Unpacked(al, p));
    }
    if q :| Holds(b, 0, q) {
      UnfitUnreadable(al, p, b, 0, q);
    }
  }

  /** A node of 65533 bytes, whose header says so, is padded to a length that its field cannot hold. */
  function LongNode(zeros: nat): Node {
    Node([0x01, 0x04, 0xFD, 0xFF] + Zeros(zeros))
  }

  /** A valid path of that node alone: nothing can be read back from its unpacked bytes. */
  lemma LongNodeUnreadable(al: Alignment, zeros: nat)
    requires zeros == 65529
    ensures var p := Step(LongNode(zeros), Last(END));
            p.Valid() && p.Packed() && |p.node.bytes| == 65533 && !exists q :: Holds(Encode(Unpacked(al, p)), 0, q)
  {
    var p := Step(LongNode(zeros), Last(END));
    assert Last(END).Valid() && Last(END).Packed();
    assert p.Valid() && !AllFit(al, p);
    UnpackedReadableIffFits(al, p);
  }

  // ----- the two passes -----

  /** Aligning a running total is aligning each summand. */
  lemma AlignedSum(al: Alignment, total: nat, len: nat)
    requires Aligned(al, total)
    ensures AlignSize(al, total + len) == AlignSize(al, len)
  {
    if al == 4 {
      Remainder4(total + len, total / 4 + len / 4, len % 4);
    } else {
      Remainder8(total + len, total / 8 + len / 8, len % 8);
    }
  }

  lemma Remainder4(x: nat, q: nat, r: nat)
    requires x == 4 * q + r && r < 4
    ensures x % 4 == r
  {}

  lemma Remainder8(x: nat, q: nat, r: nat)
    requires x == 8 * q + r && r < 8
    ensures x % 8 == r
  {}

  lemma SizeNext(al: Alignment, size: nat, len: nat, left: Path, total: nat)
    requires Sizing(al, size, left, total) && len == |left.node.bytes|
    ensures var next := size + len + AlignSize(al, size + len);
            && (left.Last? ==> next == total)
            && (left.Step? ==> Sizing(al, next, left.rest, total))
  {
    AlignedSum(al, size, len);
  }

  /** The part of the path that is still to be sized completes the total. */
  ghost predicate Sizing(al: Alignment, size: nat, left: Path, total: nat) {
    left.Valid() && Aligned(al, size) && size + |Encode(Unpacked(al, left))| == total
  }

  /** The sizing loop's body: adds a node, and goes on to the next one unless it was the end. */
  method GrowSize(al: Alignment, size: nat, b: seq<Byte>, src: nat, ghost left: Path, ghost total: nat)
    returns (newSize: nat, newSrc: nat, end: bool)
    requires Holds(b, src, left) && Sizing(al, size, left, total)
    ensures end == left.Last? && (end ==> newSize == total)
    ensures !end ==> Holds(b, newSrc, left.rest) && Sizing(al, newSize, left.rest, total)
  {
    HoldsHeader(b, src, left);
    var len := NodeLength(b, src);
    SizeNext(al, size, len, left, total);
    newSize := size + len;
    newSize := newSize + AlignSize(al, newSize);
    newSrc, end := Advance(b, src, left);
  }

  /** Goes on to the next node unless this one is the end. */
  method Advance(b: seq<Byte>, src: nat, ghost left: Path) returns (newSrc: nat, end: bool)
    requires Holds(b, src, left)
    ensures end == left.Last?
    ensures !end ==> Holds(b, newSrc, left.rest)
  {
    HoldsHeader(b, src, left);
    newSrc, end := src, IsDevicePathEnd(b, src);
    if !end {
      newSrc := src + NodeLength(b, src);
    }
  }

  /** The sizing pass, which aligns a running total. */
  method UnpackedSize(al: Alignment, b: seq<Byte>, ghost p: Path) returns (size: nat)
    requires Holds(b, 0, p)
    ensures size == |Encode(Unpacked(al, p))|
  {
    var src: nat, end := 0, false;
    size := 0;
    ghost var left, total := p, |Encode(Unpacked(al, p))|;
    while !end
      invariant !end ==> Holds(b, src, left) && Sizing(al, size, left, total)
      invariant end ==> size == total
      decreases !end, left
    {
      size, src, end := GrowSize(al, size, b, src, left, total);
      if !end {
        left := left.rest;
      }
    }
  }

  /** The bytes of a node padded with zeros, before its header is rewritten. */
  ghost function Padded(al: Alignment, n: Node): seq<Byte> {
    n.bytes + Zeros(AlignSize(al, |n.bytes|))
  }

  lemma RewriteHeader(al: Alignment, n: Node, s: seq<Byte>)
    requires n.Valid() && s == Padded(al, n)
    ensures |s| == |UnpackNode(al, n).bytes|
    ensures s[2 := Low(|s|)][3 := High(|s|)][0 := Flagged(s[0])] == UnpackNode(al, n).bytes
  {}

  ghost predicate ZeroFrom(s: seq<Byte>, k: nat) {
    forall j :: k <= j < |s| ==> s[j] == 0
  }

  /** Copies one node over zeroed memory. */
  method CopyPadded(al: Alignment, r: array<Byte>, dest: nat, b: seq<Byte>, src: nat, ghost n: Node)
    requires Reads(b, src, n) && dest + |Padded(al, n)| <= r.Length && ZeroFrom(r[..], dest)
    modifies r
    ensures r[..dest] == old(r[..dest]) && r[dest..dest + |Padded(al, n)|] == Padded(al, n)
    ensures ZeroFrom(r[..], dest + |Padded(al, n)|)
  {
    var size := NodeLength(b, src);
    ghost var tail := r[dest + size..];
    CopyMem(r, dest, b, src, size);
    assert r[..dest] == old(r[..dest]) && r[dest..dest + size] == n.bytes;
    assert r[dest + size..] == tail;
    assert forall k :: 0 <= k < |tail| ==> tail[k] == 0;
    assert r[dest..dest + |Padded(al, n)|] == n.bytes + tail[..AlignSize(al, size)];
    assert tail[..AlignSize(al, size)] == Zeros(AlignSize(al, size));
  }

  /** Copies one node and rewrites its header. */
  method CopyNode(al: Alignment, r: array<Byte>, dest: nat, b: seq<Byte>, src: nat, ghost n: Node) returns (size: nat)
    requires Reads(b, src, n) && dest + |UnpackNode(al, n).bytes| <= r.Length && ZeroFrom(r[..], dest)
    modifies r
    ensures size == |UnpackNode(al, n).bytes|
    ensures r[..dest + size] == old(r[..dest]) + UnpackNode(al, n).bytes
    ensures ZeroFrom(r[..], dest + size)
  {
    CopyPadded(al, r, dest, b, src, n);
    size := NodeLength(b, src);
    size := size + AlignSize(al, size);
    ghost var s := r[dest..dest + size];
    RewriteHeader(al, n, s);
    r[dest + 2] := Low(size);
    r[dest + 3] := High(size);
    r[dest] := Flagged(r[dest]);
    assert r[..dest] == old(r[..dest]);
    assert r[dest..dest + size] == s[2 := Low(size)][3 := High(size)][0 := Flagged(s[0])];
    assert r[..dest + size] == r[..dest] + r[dest..dest + size];
  }

  /** The part of the path that is still to be copied completes the goal. */
  ghost predicate Copying(al: Alignment, done: seq<Byte>, left: Path, goal: seq<Byte>) {
    left.Valid() && done + Encode(Unpacked(al, left)) == goal
  }

  /** The copying loop's body: copies a node, and goes on to the next one unless it was the end. */
  method CopyNext(al: Alignment, r: array<Byte>, dest: nat, b: seq<Byte>, src: nat, ghost left: Path, ghost goal: seq<Byte>)
    returns (newDest: nat, newSrc: nat, end: bool)
    requires Holds(b, src, left) && dest <= r.Length == |goal| && ZeroFrom(r[..], dest)
    requires Copying(al, r[..dest], left, goal)
    modifies r
    ensures newDest <= r.Length && ZeroFrom(r[..], newDest) && end == left.Last?
    ensures end ==> r[..newDest] == goal
    ensures !end ==> Holds(b, newSrc, left.rest) && Copying(al, r[..newDest], left.rest, goal)
  {
    GoalNext(al, r[..dest], left, goal);
    newDest := CopyHead(al, r, dest, b, src, left);
    newSrc, end := Advance(b, src, left);
  }

  method CopyHead(al: Alignment, r: array<Byte>, dest: nat, b: seq<Byte>, src: nat, ghost left: Path) returns (newDest: nat)
    requires Holds(b, src, left) && dest + |UnpackNode(al, left.node).bytes| <= r.Length && ZeroFrom(r[..], dest)
    modifies r
    ensures newDest == dest + |UnpackNode(al, left.node).bytes|
    ensures r[..newDest] == old(r[..dest]) + UnpackNode(al, left.node).bytes && ZeroFrom(r[..], newDest)
  {
    HoldsHead(b, src, left);
    var size := CopyNode(al, r, dest, b, src, left.node);
    newDest := dest + size;
  }

  lemma GoalNext(al: Alignment, done: seq<Byte>, left: Path, goal: seq<Byte>)
    requires Copying(al, done, left, goal)
    ensures var m := UnpackNode(al, left.node).bytes;
            && |done + m| <= |goal|
            && (left.Last? ==> done + m == goal)
            && (left.Step? ==> Copying(al, done + m, left.rest, goal))
  {
    if left.Step? {
      ConcatAssociative(done, UnpackNode(al, left.node).bytes, Encode(Unpacked(al, left.rest)));
    }
  }

  /** The copying pass over a zeroed buffer. */
  method CopyUnpacked(al: Alignment, r: array<Byte>, b: seq<Byte>, ghost p: Path)
    requires Holds(b, 0, p) && r.Length == |Encode(Unpacked(al, p))| && ZeroFrom(r[..], 0)
    modifies r
    ensures r[..] == Encode(Unpacked(al, p))
  {
    ghost var goal := Encode(Unpacked(al, p));
    var src: nat, dest: nat := 0, 0;
    ghost var left := p;
    assert r[..0] + goal == goal;
    while true
      invariant Holds(b, src, left) && dest <= r.Length && ZeroFrom(r[..], dest)
      invariant Copying(al, r[..dest], left, goal)
      decreases left
    {
      var end;
      dest, src, end := CopyNext(al, r, dest, b, src, left, goal);
      if end { break; }
      left := left.rest;
    }
    assert r[..] == r[..dest];
  }

  /** The unpacked copy, or NULL when the allocation is not granted. */
  method UnpackDevicePath(al: Alignment, b: seq<Byte>, ghost p: Path, granted: bool) returns (r: array?<Byte>)
    requires Holds(b, 0, p)
    ensures (r != null <==> granted) && (r != null ==> fresh(r) && r[..] == Encode(Unpacked(al, p)))
    ensures r != null && AllFit(al, p) ==> Holds(r[..], 0, Unpacked(al, p))
  {
    var size := UnpackedSize(al, b, p);
    if !granted {
      return null;
    }
    var newPath := new Byte[size](_ => 0);
    CopyUnpacked(al, newPath, b, p);
    if AllFit(al, p) {
      UnpackedIsPath(al, p);
      HoldsPrefix(newPath[..], Unpacked(al, p));
    }
    return newPath;
  }
}
