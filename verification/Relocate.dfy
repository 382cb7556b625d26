/**
 The self-relocation of an ELF image: bootloader/gnu-efi/gnuefi/reloc_x86_64.c, which finds the addend of
 a relocation in the word it changes, and bootloader/gnu-efi/gnuefi/reloc_aarch64.c, which finds it in the
 relocation table.

 Memory is an array of bytes indexed by address; words have 64 bits and are little-endian.
 */
module Relocate {
  import opened Basics
  import opened Digits

  // ----- words in memory -----

  function Word(s: seq<Byte>): nat {
    if |s| == 0 then 0 else s[0] + 256 * Word(s[1..])
  }

  function Bytes(v: nat, n: nat): (s: seq<Byte>)
    ensures |s| == n
  {
    if n == 0 then [] else [v % 256] + Bytes(v / 256, n - 1)
  }

  function Pow256(n: nat): nat {
    if n == 0 then 1 else 256 * Pow256(n - 1)
  }

  lemma {:induction false} WordOfBytes(v: nat, n: nat)
    requires v < Pow256(n)
    ensures Word(Bytes(v, n)) == v
    decreases n
  {
    if n > 0 {
      WordOfBytes(v / 256, n - 1);
      assert Bytes(v, n)[1..] == Bytes(v / 256, n - 1);
    }
  }

  /** A word determines its bytes. */
  lemma {:induction false} WordInjective(s: seq<Byte>, t: seq<Byte>)
    requires |s| == |t| && Word(s) == Word(t)
    ensures s == t
    decreases |s|
  {
    if |s| > 0 {
      assert s[0] == t[0] && Word(s[1..]) == Word(t[1..]);
      WordInjective(s[1..], t[1..]);
      assert s == [s[0]] + s[1..] && t == [t[0]] + t[1..];
    }
  }

  function WordAt(m: seq<Byte>, a: nat): nat
    requires a + 8 <= |m|
  {
    Word(m[a..a + 8])
  }

  ghost function Put(m: seq<Byte>, a: nat, s: seq<Byte>): (r: seq<Byte>)
    requires a + |s| <= |m|
    ensures |r| == |m|
  {
    m[..a] + s + m[a + |s|..]
  }

  method LoadWord(mem: array<Byte>, a: nat) returns (v: nat)
    requires a + 8 <= mem.Length
    ensures v == WordAt(mem[..], a)
  {
    assert mem[..][a..a + 8] == mem[a..a + 8];
    v := Word(mem[a..a + 8]);
  }

  method StoreWord(mem: array<Byte>, a: nat, v: Word64)
    requires a + 8 <= mem.Length
    modifies mem
    ensures mem[..] == Put(old(mem[..]), a, Bytes(v, 8))
  {
    var s := Bytes(v, 8);
    forall k | 0 <= k < 8 {
      mem[a + k] := s[k];
    }
  }

  // ----- the dynamic section -----

  const DT_NULL := 0
  const DT_RELA := 7
  const DT_RELASZ := 8
  const DT_RELAENT := 9

  datatype Dyn = Dyn(tag: int, value: Word64)

  function Signed(v: Word64): int {
    if v < TWO63 then v else v - TWO64
  }

  /** The value of the last entry with this tag among the first n, or 0 without one. */
  function LastValue(dyn: seq<Dyn>, n: nat, tag: int): Word64
    requires n <= |dyn|
  {
    if n == 0 then 0 else if dyn[n - 1].tag == tag then dyn[n - 1].value else LastValue(dyn, n - 1, tag)
  }

  predicate Has(dyn: seq<Dyn>, n: nat, tag: int)
    requires n <= |dyn|
  {
    exists i :: 0 <= i < n && dyn[i].tag == tag
  }

  /** The table's address once loaded; 0 when the section names none. */
  function TableAddress(dyn: seq<Dyn>, n: nat, ldbase: Word64): nat
    requires n <= |dyn|
  {
    if Has(dyn, n, DT_RELA) then Mod64(LastValue(dyn, n, DT_RELA) + ldbase) else 0
  }

  ghost predicate EndsAt(dyn: seq<Dyn>, n: nat) {
    n < |dyn| && dyn[n].tag == 0 && forall i :: 0 <= i < n ==> dyn[i].tag != 0
  }

  /** What the section says of the relocation table. */
  datatype Section = Section(rel: nat, relsz: int, relent: int)

  function Found(dyn: seq<Dyn>, n: nat, ldbase: Word64): Section
    requires n <= |dyn|
  {
    Section(TableAddress(dyn, n, ldbase), Signed(LastValue(dyn, n, DT_RELASZ)), Signed(LastValue(dyn, n, DT_RELAENT)))
  }

  method ScanDynamic(dyn: seq<Dyn>, ldbase: Word64, ghost n: nat) returns (found: Section)
    requires EndsAt(dyn, n)
    ensures found == Found(dyn, n, ldbase)
  {
    var rel: nat, relsz, relent := 0, 0, 0;
    var i := 0;
    while dyn[i].tag != DT_NULL
      invariant i <= n && Section(rel, relsz, relent) == Found(dyn, i, ldbase)
      decreases n - i
    {
      assert Has(dyn, i + 1, DT_RELA) <==> Has(dyn, i, DT_RELA) || dyn[i].tag == DT_RELA;
      if dyn[i].tag == DT_RELA {
        rel := Mod64(dyn[i].value + ldbase);
      } else if dyn[i].tag == DT_RELASZ {
        relsz := Signed(dyn[i].value);
      } else if dyn[i].tag == DT_RELAENT {
        relent := Signed(dyn[i].value);
      }
      i := i + 1;
    }
    found := Section(rel, relsz, relent);
  }

  // ----- the relocation table -----

  datatype Arch = X86_64 | AArch64 {
    function RelativeType(): nat {
      if X86_64? then 8 else 1027
    }

    /** How much of a table entry the relocator reads. */
    function EntrySize(): nat {
      if X86_64? then 16 else 24
    }
  }

  /** An entry of the table: its own address, the offset of its target, and its type. */
  datatype Entry = Entry(at: nat, offset: nat, kind: nat) {
    function Target(ldbase: Word64): nat {
      Mod64(ldbase + offset)
    }

    /** The offset and the type stand in memory one word after the other. */
    ghost predicate ReadFrom(m: seq<Byte>) {
      at + 16 <= |m| && offset == WordAt(m, at) && kind == WordAt(m, at + 8) % 0x1_0000_0000
    }

    predicate Covers(ldbase: Word64, a: int) {
      Target(ldbase) <= a < Target(ldbase) + 8
    }
  }

  function EntryAt(m: seq<Byte>, a: nat): Entry
    requires a + 16 <= |m|
  {
    Entry(a, WordAt(m, a), WordAt(m, a + 8) % 0x1_0000_0000)
  }

  /** Every entry that the loop reads is in memory. */
  ghost predicate InMemory(m: seq<Byte>, arch: Arch, rel: nat, relsz: int, relent: int)
    decreases relsz
  {
    relsz <= 0 || (relent > 0 && rel + arch.EntrySize() <= |m| && InMemory(m, arch, rel + relent, relsz - relent, relent))
  }

  /** The entries that the loop visits. */
  ghost function Table(m: seq<Byte>, arch: Arch, rel: nat, relsz: int, relent: int): seq<Entry>
    requires InMemory(m, arch, rel, relsz, relent)
    decreases relsz
  {
    if relsz <= 0 then [] else [EntryAt(m, rel)] + Table(m, arch, rel + relent, relsz - relent, relent)
  }

  lemma TimesPred(n: int, x: int)
    ensures n * x == (n - 1) * x + x
  {}

  lemma TimesPositive(n: nat, x: int)
    requires n > 0 && x > 0
    ensures n * x >= x
  {
    TimesPred(n, x);
  }

  /** n entries have been visited, each of them because there was something left of the table. */
  ghost predicate Visiting(found: Section, n: nat, rel: int, relsz: int) {
    && rel == found.rel + n * found.relent && relsz == found.relsz - n * found.relent
    && (n > 0 ==> found.relent > 0 && found.relsz > 0 && relsz + found.relent > 0)
  }

  lemma VisitNext(found: Section, n: nat, rel: int, relsz: int)
    requires Visiting(found, n, rel, relsz) && relsz > 0 && found.relent > 0
    ensures Visiting(found, n + 1, rel + found.relent, relsz - found.relent)
  {
    TimesPred(n + 1, found.relent);
    if n > 0 {
      TimesPositive(n, found.relent);
    }
  }

  /** While something is left of the table, its next entry is at rel; then all entries have been visited. */
  lemma {:induction false} TableAt(m: seq<Byte>, arch: Arch, found: Section, n: nat, rel: int, relsz: int)
    requires InMemory(m, arch, found.rel, found.relsz, found.relent) && Visiting(found, n, rel, relsz)
    ensures var es := Table(m, arch, found.rel, found.relsz, found.relent);
            && (relsz > 0 ==> found.relent > 0 && 0 <= rel && rel + 16 <= |m| && n < |es| && es[n] == EntryAt(m, rel))
            && (relsz <= 0 ==> n == |es|)
    decreases n
  {
    if n > 0 {
      var next := Section(found.rel + found.relent, found.relsz - found.relent, found.relent);
      TimesPred(n, found.relent);
      if n > 1 {
        TimesPositive(n - 1, found.relent);
      }
      TableAt(m, arch, next, n - 1, rel, relsz);
    }
  }

  /** n is the table's size over the size of an entry, rounded up: a last entry that starts within the size counts. */
  predicate Counts(n: nat, relsz: int, relent: int) {
    if n == 0 then relsz <= 0 else (n - 1) * relent < relsz <= n * relent
  }

  lemma CountsNext(n: nat, relsz: int, relent: int)
    requires n > 0 && relent > 0 && Counts(n, relsz, relent)
    ensures relsz > 0 && Counts(n - 1, relsz - relent, relent)
  {
    TimesPred(n, relent);
    if n > 1 {
      TimesPred(n - 1, relent);
      TimesPositive(n - 1, relent);
    }
  }

  /** The table is the array of the entries that start within its size. */
  lemma {:induction false} TableIsArray(m: seq<Byte>, arch: Arch, rel: nat, n: nat, relsz: int, relent: int)
    requires relent > 0 && Counts(n, relsz, relent) && InMemory(m, arch, rel, relsz, relent)
    ensures |Table(m, arch, rel, relsz, relent)| == n
    ensures forall k :: 0 <= k < n ==> Table(m, arch, rel, relsz, relent)[k].at == rel + k * relent
    ensures forall k :: 0 <= k < n ==> Table(m, arch, rel, relsz, relent)[k].ReadFrom(m)
    decreases n
  {
    if n > 0 {
      CountsNext(n, relsz, relent);
      var t, rest := Table(m, arch, rel, relsz, relent), Table(m, arch, rel + relent, relsz - relent, relent);
      TableIsArray(m, arch, rel + relent, n - 1, relsz - relent, relent);
      forall k | 0 <= k < n ensures t[k].at == rel + k * relent && t[k].ReadFrom(m) {
        if k > 0 {
          assert t[k] == rest[k - 1];
          TimesPred(k, relent);
        }
      }
    }
  }

  ghost predicate Apart(a: nat, n: nat, b: nat, k: nat) {
    a + n <= b || b + k <= a
  }

  /** Targets are words in memory, outside the table and apart from each other. */
  ghost predicate Separate(m: seq<Byte>, arch: Arch, ldbase: Word64, es: seq<Entry>) {
    && (forall j :: 0 <= j < |es| ==> es[j].at + arch.EntrySize() <= |m|)
    && (forall k :: 0 <= k < |es| && es[k].kind == arch.RelativeType() ==> es[k].Target(ldbase) + 8 <= |m|)
    && (forall j, k {:trigger Apart(es[j].at, arch.EntrySize(), es[k].Target(ldbase), 8)} ::
          0 <= j < |es| && 0 <= k < |es| && es[k].kind == arch.RelativeType() ==>
            Apart(es[j].at, arch.EntrySize(), es[k].Target(ldbase), 8))
    && (forall j, k {:trigger Apart(es[k].Target(ldbase), 8, es[j].Target(ldbase), 8)} ::
          0 <= j < k < |es| && es[j].kind == arch.RelativeType() && es[k].kind == arch.RelativeType() ==>
            Apart(es[k].Target(ldbase), 8, es[j].Target(ldbase), 8))
  }

  /** One of the first n entries relocates the word that address a belongs to. */
  ghost predicate Touched(arch: Arch, ldbase: Word64, es: seq<Entry>, n: nat, a: int)
    requires n <= |es|
  {
    exists k :: 0 <= k < n && es[k].kind == arch.RelativeType() && es[k].Covers(ldbase, a)
  }

  /** The addend of an entry: held in its target, or in the table. */
  ghost function Addend(m: seq<Byte>, arch: Arch, ldbase: Word64, e: Entry): nat
    requires e.at + arch.EntrySize() <= |m| && e.Target(ldbase) + 8 <= |m|
  {
    if arch.X86_64? then WordAt(m, e.Target(ldbase)) else WordAt(m, e.at + 16)
  }

  /** The first n entries have been applied once each: every relative target holds the load address plus its
      addend, and no other byte has changed. */
  ghost predicate Relocated(m: seq<Byte>, r: seq<Byte>, arch: Arch, ldbase: Word64, es: seq<Entry>, n: nat)
    requires n <= |es| && Separate(m, arch, ldbase, es)
  {
    |r| == |m| && Applied(m, r, arch, ldbase, es, n) && OthersKept(m, r, arch, ldbase, es, n)
  }

  ghost predicate Applied(m: seq<Byte>, r: seq<Byte>, arch: Arch, ldbase: Word64, es: seq<Entry>, n: nat)
    requires n <= |es| && Separate(m, arch, ldbase, es) && |r| == |m|
  {
    forall k :: 0 <= k < n && es[k].kind == arch.RelativeType() ==>
      WordAt(r, es[k].Target(ldbase)) == Mod64(ldbase + Addend(m, arch, ldbase, es[k]))
  }

  ghost predicate OthersKept(m: seq<Byte>, r: seq<Byte>, arch: Arch, ldbase: Word64, es: seq<Entry>, n: nat)
    requires n <= |es| && |r| == |m|
  {
    forall a :: 0 <= a < |m| && !Touched(arch, ldbase, es, n, a) ==> r[a] == m[a]
  }

  /** A range apart from every target so far reads as it did. */
  lemma UntouchedRange(m: seq<Byte>, r: seq<Byte>, arch: Arch, ldbase: Word64, es: seq<Entry>, n: nat, a: nat, size: nat)
    requires n <= |es| && Separate(m, arch, ldbase, es) && Relocated(m, r, arch, ldbase, es, n)
    requires a + size <= |m|
    requires forall k :: 0 <= k < n && es[k].kind == arch.RelativeType() ==> Apart(a, size, es[k].Target(ldbase), 8)
    ensures r[a..a + size] == m[a..a + size]
  {
    forall i | a <= i < a + size ensures r[i] == m[i] {
      assert !Touched(arch, ldbase, es, n, i);
    }
  }

  lemma SubRange(m: seq<Byte>, r: seq<Byte>, a: nat, size: nat, b: nat)
    requires |m| == |r| && a + size <= |m| && m[a..a + size] == r[a..a + size] && a <= b && b + 8 <= a + size
    ensures WordAt(m, b) == WordAt(r, b)
  {
    forall i | b <= i < b + 8 ensures m[i] == r[i] {
      assert m[i] == m[a..a + size][i - a] && r[i] == r[a..a + size][i - a];
    }
    assert m[b..b + 8] == r[b..b + 8];
  }

  /** The entry about to be applied, and its addend, read as they did before the loop. */
  lemma EntryUnchanged(m: seq<Byte>, r: seq<Byte>, arch: Arch, ldbase: Word64, es: seq<Entry>, n: nat)
    requires n < |es| && Separate(m, arch, ldbase, es) && Relocated(m, r, arch, ldbase, es, n)
    ensures EntryAt(r, es[n].at) == EntryAt(m, es[n].at)
    ensures es[n].kind == arch.RelativeType() ==> Addend(r, arch, ldbase, es[n]) == Addend(m, arch, ldbase, es[n])
  {
    var e, size := es[n], arch.EntrySize();
    UntouchedRange(m, r, arch, ldbase, es, n, e.at, size);
    SubRange(m, r, e.at, size, e.at);
    SubRange(m, r, e.at, size, e.at + 8);
    if arch.AArch64? {
      SubRange(m, r, e.at, size, e.at + 16);
    } else if e.kind == arch.RelativeType() {
      UntouchedRange(m, r, arch, ldbase, es, n, e.Target(ldbase), 8);
    }
  }

  lemma PutElsewhere(m: seq<Byte>, a: nat, s: seq<Byte>, b: nat)
    requires a + |s| <= |m| && b + 8 <= |m| && Apart(a, |s|, b, 8)
    ensures WordAt(Put(m, a, s), b) == WordAt(m, b)
  {
    assert Put(m, a, s)[b..b + 8] == m[b..b + 8];
  }

  lemma PutHere(m: seq<Byte>, a: nat, v: Word64)
    requires a + 8 <= |m|
    ensures WordAt(Put(m, a, Bytes(v, 8)), a) == v
  {
    assert Put(m, a, Bytes(v, 8))[a..a + 8] == Bytes(v, 8);
    assert Pow256(4) == 0x1_0000_0000;
    assert Pow256(8) == 0x1_0000_0000_0000_0000;
    WordOfBytes(v, 8);
  }

  lemma SkipNext(m: seq<Byte>, r: seq<Byte>, arch: Arch, ldbase: Word64, es: seq<Entry>, n: nat)
    requires n < |es| && Separate(m, arch, ldbase, es) && Relocated(m, r, arch, ldbase, es, n)
    requires es[n].kind != arch.RelativeType()
    ensures Relocated(m, r, arch, ldbase, es, n + 1)
  {
    forall a | 0 <= a < |m| && !Touched(arch, ldbase, es, n + 1, a) ensures r[a] == m[a] {
      assert !Touched(arch, ldbase, es, n, a);
    }
  }

  lemma StoreApplied(m: seq<Byte>, r: seq<Byte>, arch: Arch, ldbase: Word64, es: seq<Entry>, n: nat, v: Word64)
    requires n < |es| && Separate(m, arch, ldbase, es) && |r| == |m| && Applied(m, r, arch, ldbase, es, n)
    requires es[n].kind == arch.RelativeType() && v == Mod64(ldbase + Addend(m, arch, ldbase, es[n]))
    ensures Applied(m, Put(r, es[n].Target(ldbase), Bytes(v, 8)), arch, ldbase, es, n + 1)
  {
    var t := es[n].Target(ldbase);
    PutHere(r, t, v);
    forall k | 0 <= k < n && es[k].kind == arch.RelativeType()
      ensures WordAt(Put(r, t, Bytes(v, 8)), es[k].Target(ldbase)) == WordAt(r, es[k].Target(ldbase))
    {
      PutElsewhere(r, t, Bytes(v, 8), es[k].Target(ldbase));
    }
  }

  lemma StoreKeeps(m: seq<Byte>, r: seq<Byte>, arch: Arch, ldbase: Word64, es: seq<Entry>, n: nat, v: Word64)
    requires n < |es| && |r| == |m| && OthersKept(m, r, arch, ldbase, es, n)
    requires es[n].kind == arch.RelativeType() && es[n].Target(ldbase) + 8 <= |m|
    ensures OthersKept(m, Put(r, es[n].Target(ldbase), Bytes(v, 8)), arch, ldbase, es, n + 1)
  {
    forall a | 0 <= a < |m| && !Touched(arch, ldbase, es, n + 1, a)
      ensures Put(r, es[n].Target(ldbase), Bytes(v, 8))[a] == m[a]
    {
      assert !Touched(arch, ldbase, es, n, a);
      assert !es[n].Covers(ldbase, a);
    }
  }

  /** Storing the relocated word applies one more entry. */
  lemma StoreNext(m: seq<Byte>, r: seq<Byte>, arch: Arch, ldbase: Word64, es: seq<Entry>, n: nat, v: Word64)
    requires n < |es| && Separate(m, arch, ldbase, es) && Relocated(m, r, arch, ldbase, es, n)
    requires es[n].kind == arch.RelativeType() && v == Mod64(ldbase + Addend(m, arch, ldbase, es[n]))
    ensures Relocated(m, Put(r, es[n].Target(ldbase), Bytes(v, 8)), arch, ldbase, es, n + 1)
  {
    StoreApplied(m, r, arch, ldbase, es, n, v);
    StoreKeeps(m, r, arch, ldbase, es, n, v);
  }

  method ReadEntry(mem: array<Byte>, rel: nat) returns (e: Entry)
    requires rel + 16 <= mem.Length
    ensures e == EntryAt(mem[..], rel)
  {
    var offset := LoadWord(mem, rel);
    var info := LoadWord(mem, rel + 8);
    e := Entry(rel, offset, info % 0x1_0000_0000);
  }

  method ReadAddend(mem: array<Byte>, arch: Arch, ldbase: Word64, e: Entry) returns (addend: nat)
    requires e.at + arch.EntrySize() <= mem.Length && e.Target(ldbase) + 8 <= mem.Length
    ensures addend == Addend(mem[..], arch, ldbase, e)
  {
    match arch
    case X86_64 => addend := LoadWord(mem, e.Target(ldbase));
    case AArch64 => addend := LoadWord(mem, e.at + 16);
  }

  method ApplyRelative(mem: array<Byte>, arch: Arch, ldbase: Word64, e: Entry, ghost m: seq<Byte>, ghost es: seq<Entry>, ghost n: nat)
    requires n < |es| && Separate(m, arch, ldbase, es) && Relocated(m, mem[..], arch, ldbase, es, n)
    requires e == es[n] && e.kind == arch.RelativeType()
    requires Addend(mem[..], arch, ldbase, e) == Addend(m, arch, ldbase, e)
    modifies mem
    ensures Relocated(m, mem[..], arch, ldbase, es, n + 1)
  {
    var addend := ReadAddend(mem, arch, ldbase, e);
    StoreNext(m, mem[..], arch, ldbase, es, n, Mod64(ldbase + addend));
    StoreWord(mem, e.Target(ldbase), Mod64(ldbase + addend));
  }

  /** Applies the entry at rel. */
  method ApplyEntry(mem: array<Byte>, arch: Arch, ldbase: Word64, rel: nat, ghost m: seq<Byte>, ghost es: seq<Entry>, ghost n: nat)
    requires n < |es| && Separate(m, arch, ldbase, es) && Relocated(m, mem[..], arch, ldbase, es, n)
    requires rel == es[n].at && es[n] == EntryAt(m, rel)
    modifies mem
    ensures Relocated(m, mem[..], arch, ldbase, es, n + 1)
  {
    EntryUnchanged(m, mem[..], arch, ldbase, es, n);
    var e := ReadEntry(mem, rel);
    if e.kind == arch.RelativeType() {
      ApplyRelative(mem, arch, ldbase, e, m, es, n);
    } else {
      SkipNext(m, mem[..], arch, ldbase, es, n);
    }
  }

  datatype Status = Success | LoadError

  /** The loop over the table. */
  method ApplyTable(mem: array<Byte>, arch: Arch, ldbase: Word64, found: Section, ghost es: seq<Entry>)
    requires InMemory(mem[..], arch, found.rel, found.relsz, found.relent)
    requires es == Table(mem[..], arch, found.rel, found.relsz, found.relent) && Separate(mem[..], arch, ldbase, es)
    modifies mem
    ensures Relocated(old(mem[..]), mem[..], arch, ldbase, es, |es|)
  {
    ghost var m := mem[..];
    ghost var n: nat := 0;
    var rel: int, relsz, relent := found.rel, found.relsz, found.relent;
    while relsz > 0
      invariant Visiting(found, n, rel, relsz) && n <= |es| && Relocated(m, mem[..], arch, ldbase, es, n)
      decreases relsz
    {
      TableAt(m, arch, found, n, rel, relsz);
      ApplyEntry(mem, arch, ldbase, rel, m, es, n);
      VisitNext(found, n, rel, relsz);
      rel := rel + relent;
      relsz := relsz - relent;
      n := n + 1;
    }
    TableAt(m, arch, found, n, rel, relsz);
  }

  /** Applies every entry of the table once; a section that names only one of the table and its entry size
      is refused and nothing changes. */
  method Relocate(mem: array<Byte>, arch: Arch, ldbase: Word64, dyn: seq<Dyn>, ghost end: nat) returns (status: Status)
    requires EndsAt(dyn, end)
    requires var found := Found(dyn, end, ldbase);
             found.rel != 0 && found.relent != 0 ==>
               && InMemory(mem[..], arch, found.rel, found.relsz, found.relent)
               && Separate(mem[..], arch, ldbase, Table(mem[..], arch, found.rel, found.relsz, found.relent))
    modifies mem
    ensures var found := Found(dyn, end, ldbase);
            && (status.LoadError? <==> (found.rel == 0) != (found.relent == 0))
            && (found.rel == 0 || found.relent == 0 ==> mem[..] == old(mem[..]))
            && (found.rel != 0 && found.relent != 0 ==>
                  var es := Table(old(mem[..]), arch, found.rel, found.relsz, found.relent);
                  Relocated(old(mem[..]), mem[..], arch, ldbase, es, |es|))
  {
    var found := ScanDynamic(dyn, ldbase, end);
    if found.rel == 0 && found.relent == 0 {
      return Success;
    }
    if found.rel == 0 || found.relent == 0 {
      return LoadError;
    }
    ApplyTable(mem, arch, ldbase, found, Table(mem[..], arch, found.rel, found.relsz, found.relent));
    return Success;
  }

  // ----- the two relocators compute the same image -----

  /** Address a lies in some entry of a table whose entries have three words. */
  ghost predicate InTable(es: seq<Entry>, a: int) {
    exists k :: 0 <= k < |es| && es[k].at <= a < es[k].at + 24
  }

  /** The same relocations in the codes of the two architectures. */
  ghost predicate SameRelocations(es: seq<Entry>, fs: seq<Entry>) {
    && |es| == |fs|
    && forall k :: 0 <= k < |es| ==>
         && es[k].at == fs[k].at && es[k].offset == fs[k].offset
         && (es[k].kind == X86_64.RelativeType() <==> fs[k].kind == AArch64.RelativeType())
  }

  /** Two images that differ at most in their relocation tables, whose tables say the same, and whose
      targets in the first hold the addends of the second's table, are relocated to images that again
      differ at most in their tables. */
  lemma SameImage(m: seq<Byte>, r: seq<Byte>, es: seq<Entry>, m': seq<Byte>, r': seq<Byte>, fs: seq<Entry>, ldbase: Word64)
    requires Separate(m, X86_64, ldbase, es) && Relocated(m, r, X86_64, ldbase, es, |es|)
    requires Separate(m', AArch64, ldbase, fs) && Relocated(m', r', AArch64, ldbase, fs, |fs|)
    requires SameRelocations(es, fs)
    requires |m| == |m'| && forall a :: 0 <= a < |m| && !InTable(es, a) ==> m[a] == m'[a]
    requires forall k :: 0 <= k < |es| && es[k].kind == X86_64.RelativeType() ==>
               WordAt(m, es[k].Target(ldbase)) == WordAt(m', fs[k].at + 16)
    ensures |r| == |r'| && forall a :: 0 <= a < |r| && !InTable(es, a) ==> r[a] == r'[a]
  {
    forall a | 0 <= a < |r| && !InTable(es, a) ensures r[a] == r'[a] {
      TouchedAlike(es, fs, ldbase, a);
      if Touched(X86_64, ldbase, es, |es|, a) {
        var k :| 0 <= k < |es| && es[k].kind == X86_64.RelativeType() && es[k].Covers(ldbase, a);
        SameTarget(m, r, es, m', r', fs, ldbase, k);
        SameByte(r, r', es[k].Target(ldbase), a);
      }
    }
  }

  lemma TouchedAlike(es: seq<Entry>, fs: seq<Entry>, ldbase: Word64, a: int)
    requires SameRelocations(es, fs)
    ensures Touched(X86_64, ldbase, es, |es|, a) <==> Touched(AArch64, ldbase, fs, |fs|, a)
  {
    if Touched(X86_64, ldbase, es, |es|, a) {
      var k :| 0 <= k < |es| && es[k].kind == X86_64.RelativeType() && es[k].Covers(ldbase, a);
      assert fs[k].Covers(ldbase, a);
    }
    if Touched(AArch64, ldbase, fs, |fs|, a) {
      var k :| 0 <= k < |fs| && fs[k].kind == AArch64.RelativeType() && fs[k].Covers(ldbase, a);
      assert es[k].Covers(ldbase, a);
    }
  }

  lemma SameTarget(m: seq<Byte>, r: seq<Byte>, es: seq<Entry>, m': seq<Byte>, r': seq<Byte>, fs: seq<Entry>, ldbase: Word64, k: nat)
    requires Separate(m, X86_64, ldbase, es) && Relocated(m, r, X86_64, ldbase, es, |es|)
    requires Separate(m', AArch64, ldbase, fs) && Relocated(m', r', AArch64, ldbase, fs, |fs|)
    requires SameRelocations(es, fs) && |m| == |m'|
    requires k < |es| && es[k].kind == X86_64.RelativeType()
    requires WordAt(m, es[k].Target(ldbase)) == WordAt(m', fs[k].at + 16)
    ensures es[k].Target(ldbase) + 8 <= |m| && WordAt(r, es[k].Target(ldbase)) == WordAt(r', es[k].Target(ldbase))
  {
    assert fs[k].Target(ldbase) == es[k].Target(ldbase);
    AppliedAt(m, r, X86_64, ldbase, es, k);
    AppliedAt(m', r', AArch64, ldbase, fs, k);
  }

  lemma AppliedAt(m: seq<Byte>, r: seq<Byte>, arch: Arch, ldbase: Word64, es: seq<Entry>, k: nat)
    requires Separate(m, arch, ldbase, es) && Relocated(m, r, arch, ldbase, es, |es|)
    requires k < |es| && es[k].kind == arch.RelativeType()
    ensures es[k].Target(ldbase) + 8 <= |r|
    ensures WordAt(r, es[k].Target(ldbase)) == Mod64(ldbase + Addend(m, arch, ldbase, es[k]))
  {}

  lemma SameByte(r: seq<Byte>, r': seq<Byte>, t: nat, a: nat)
    requires t + 8 <= |r| == |r'| && WordAt(r, t) == WordAt(r', t) && t <= a < t + 8
    ensures r[a] == r'[a]
  {
    WordInjective(r[t..t + 8], r'[t..t + 8]);
    assert r[a] == r[t..t + 8][a - t] && r'[a] == r'[t..t + 8][a - t];
  }
}
