/**
 The two relocators of bootloader/gnu-efi/gnuefi/reloc_x86_64.c and bootloader/gnu-efi/gnuefi/reloc_aarch64.c, stated on
 the bytes of memory alone: which words of the dynamic section and of the relocation table they read, and what becomes
 of every byte.
 */
module RelocateBytes {
  import opened Basics
  import opened Relocate

  function ByteAt(m: seq<Byte>, a: nat): int
    requires a < |m|
  {
    m[a]
  }

  /** A word is eight bytes, least significant first. */
  lemma LittleEndian(m: seq<Byte>, a: nat)
    requires a + 8 <= |m|
    ensures WordAt(m, a)
         == ByteAt(m, a) + 0x100 * ByteAt(m, a + 1) + 0x1_0000 * ByteAt(m, a + 2) + 0x100_0000 * ByteAt(m, a + 3)
            + 0x1_0000_0000 * ByteAt(m, a + 4) + 0x100_0000_0000 * ByteAt(m, a + 5)
            + 0x1_0000_0000_0000 * ByteAt(m, a + 6) + 0x100_0000_0000_0000 * ByteAt(m, a + 7)
  {
    var s := m[a..a + 8];
    assert Word(s[8..]) == 0;
    WordFrom(s, 7); WordFrom(s, 6); WordFrom(s, 5); WordFrom(s, 4);
    WordFrom(s, 3); WordFrom(s, 2); WordFrom(s, 1); WordFrom(s, 0);
    assert s[0..] == s;
  }

  lemma WordFrom(s: seq<Byte>, i: nat)
    requires i < |s|
    ensures Word(s[i..]) == s[i] + 256 * Word(s[i + 1..])
  {
    assert s[i..][1..] == s[i + 1..];
  }

  // ----- the dynamic section -----

  /** Entry i is the last of its tag among the first n. */
  ghost predicate LastOf(dyn: seq<Dyn>, n: nat, tag: int, i: nat) {
    i < n <= |dyn| && dyn[i].tag == tag && forall j :: i < j < n ==> dyn[j].tag != tag
  }

  lemma {:induction false} LastValueIs(dyn: seq<Dyn>, n: nat, tag: int, i: nat)
    requires LastOf(dyn, n, tag, i)
    ensures LastValue(dyn, n, tag) == dyn[i].value && Has(dyn, n, tag)
    decreases n
  {
    if i < n - 1 {
      LastValueIs(dyn, n - 1, tag, i);
    }
  }

  lemma {:induction false} NoValue(dyn: seq<Dyn>, n: nat, tag: int)
    requires n <= |dyn| && forall j :: 0 <= j < n ==> dyn[j].tag != tag
    ensures LastValue(dyn, n, tag) == 0 && !Has(dyn, n, tag)
    decreases n
  {
    if n > 0 {
      NoValue(dyn, n - 1, tag);
    }
  }

  /** The table's address is the last value tagged 7, moved by the load address; its size is the last tagged 8 and the
      size of an entry the last tagged 9, both as signed words. */
  lemma FoundValues(dyn: seq<Dyn>, n: nat, ldbase: Word64, i: nat)
    requires n <= |dyn|
    ensures LastOf(dyn, n, 7, i) ==> Found(dyn, n, ldbase).rel == (dyn[i].value + ldbase) % 0x1_0000_0000_0000_0000
    ensures LastOf(dyn, n, 8, i) ==> Found(dyn, n, ldbase).relsz == AsSigned(dyn[i].value)
    ensures LastOf(dyn, n, 9, i) ==> Found(dyn, n, ldbase).relent == AsSigned(dyn[i].value)
    ensures (forall j :: 0 <= j < n ==> dyn[j].tag != 7) ==> Found(dyn, n, ldbase).rel == 0
    ensures (forall j :: 0 <= j < n ==> dyn[j].tag != 8) ==> Found(dyn, n, ldbase).relsz == 0
    ensures (forall j :: 0 <= j < n ==> dyn[j].tag != 9) ==> Found(dyn, n, ldbase).relent == 0
  {
    forall tag | 7 <= tag <= 9
      ensures LastOf(dyn, n, tag, i) ==> LastValue(dyn, n, tag) == dyn[i].value && Has(dyn, n, tag)
      ensures (forall j :: 0 <= j < n ==> dyn[j].tag != tag) ==> LastValue(dyn, n, tag) == 0 && !Has(dyn, n, tag)
    {
      if LastOf(dyn, n, tag, i) {
        LastValueIs(dyn, n, tag, i);
      }
      if forall j :: 0 <= j < n ==> dyn[j].tag != tag {
        NoValue(dyn, n, tag);
      }
    }
  }

  function AsSigned(v: Word64): int {
    if v < 0x8000_0000_0000_0000 then v else v - 0x1_0000_0000_0000_0000
  }

  // ----- the tables -----

  /** Where entry k of a table starts. */
  function Slot(rel: nat, relent: nat, k: nat): nat {
    rel + k * relent
  }

  /** An entry of this kind and size, at this address, asks for the word at t to be relocated. */
  ghost predicate Asks(m: seq<Byte>, ldbase: Word64, kind: nat, size: nat, at: nat, t: int) {
    && size >= 16 && at + size <= |m| && WordAt(m, at + 8) % 0x1_0000_0000 == kind
    && t == (ldbase + WordAt(m, at)) % 0x1_0000_0000_0000_0000
  }

  /** The entries are in memory, and so are the words they ask for, outside the entries and apart from each other. */
  ghost predicate Proper(m: seq<Byte>, ldbase: Word64, kind: nat, size: nat, rel: nat, n: nat, relent: nat) {
    && (forall k :: 0 <= k < n ==> Slot(rel, relent, k) + size <= |m|)
    && (forall k, t :: 0 <= k < n && Asks(m, ldbase, kind, size, Slot(rel, relent, k), t) ==> t + 8 <= |m|)
    && (forall j, k, t :: 0 <= j < n && 0 <= k < n && Asks(m, ldbase, kind, size, Slot(rel, relent, k), t) ==>
          Apart(Slot(rel, relent, j), size, t, 8))
    && (forall j, k, t, u :: 0 <= j < k < n ==>
          Asks(m, ldbase, kind, size, Slot(rel, relent, j), t) ==> Asks(m, ldbase, kind, size, Slot(rel, relent, k), u) ==>
            Apart(u, 8, t, 8))
  }

  /** No entry asks for a word that address a belongs to. */
  ghost predicate NotAsked(m: seq<Byte>, ldbase: Word64, kind: nat, size: nat, rel: nat, n: nat, relent: nat, a: nat) {
    forall k, t :: 0 <= k < n && Asks(m, ldbase, kind, size, Slot(rel, relent, k), t) ==> !(t <= a < t + 8)
  }

  /** Every byte that no entry asks for is as it was. */
  ghost predicate OthersAlike(m: seq<Byte>, r: seq<Byte>, ldbase: Word64, kind: nat, size: nat, rel: nat, n: nat, relent: nat) {
    |r| == |m| && forall a :: 0 <= a < |m| && NotAsked(m, ldbase, kind, size, rel, n, relent, a) ==> r[a] == m[a]
  }

  /** The word at t has had the load address added to it, once. */
  ghost predicate Moved(m: seq<Byte>, r: seq<Byte>, ldbase: Word64, t: int) {
    0 <= t && t + 8 <= |m| && |r| == |m| && WordAt(r, t) == (WordAt(m, t) + ldbase) % 0x1_0000_0000_0000_0000
  }

  /** Each word asked for by an entry of type 8 is moved. */
  ghost predicate X86Words(m: seq<Byte>, r: seq<Byte>, ldbase: Word64, rel: nat, n: nat, relent: nat) {
    forall k, t :: 0 <= k < n && Asks(m, ldbase, 8, 16, Slot(rel, relent, k), t) ==> Moved(m, r, ldbase, t)
  }

  /** What the x86_64 relocator makes of memory. */
  ghost predicate X86Image(m: seq<Byte>, r: seq<Byte>, ldbase: Word64, rel: nat, n: nat, relent: nat) {
    X86Words(m, r, ldbase, rel, n, relent) && OthersAlike(m, r, ldbase, 8, 16, rel, n, relent)
  }

  /** The word at t is the load address plus the third word of the entry at this address. */
  ghost predicate Replaced(m: seq<Byte>, r: seq<Byte>, ldbase: Word64, at: nat, t: int) {
    && 0 <= t && t + 8 <= |m| && at + 24 <= |m| && |r| == |m|
    && WordAt(r, t) == (ldbase + WordAt(m, at + 16)) % 0x1_0000_0000_0000_0000
  }

  /** Each word asked for by an entry of type 1027 is replaced. */
  ghost predicate A64Words(m: seq<Byte>, r: seq<Byte>, ldbase: Word64, rel: nat, n: nat, relent: nat) {
    forall k, t :: 0 <= k < n && Asks(m, ldbase, 1027, 24, Slot(rel, relent, k), t) ==>
      Replaced(m, r, ldbase, Slot(rel, relent, k), t)
  }

  /** What the aarch64 relocator makes of memory. */
  ghost predicate A64Image(m: seq<Byte>, r: seq<Byte>, ldbase: Word64, rel: nat, n: nat, relent: nat) {
    A64Words(m, r, ldbase, rel, n, relent) && OthersAlike(m, r, ldbase, 1027, 24, rel, n, relent)
  }

  /** Entry k of the table is what memory holds from its slot on. */
  lemma {:induction false} EntryInMemory(m: seq<Byte>, arch: Arch, rel: nat, n: nat, relsz: int, relent: int, k: nat)
    requires relent > 0 && Counts(n, relsz, relent) && InMemory(m, arch, rel, relsz, relent) && k < n
    ensures |Table(m, arch, rel, relsz, relent)| == n && Slot(rel, relent, k) + arch.EntrySize() <= |m|
    ensures var e := Table(m, arch, rel, relsz, relent)[k];
            && e.at == Slot(rel, relent, k)
            && e.offset == WordAt(m, Slot(rel, relent, k))
            && e.kind == WordAt(m, Slot(rel, relent, k) + 8) % 0x1_0000_0000
    decreases k
  {
    TableIsArray(m, arch, rel, n, relsz, relent);
    CountsNext(n, relsz, relent);
    if k > 0 {
      TimesPred(k, relent);
      EntryInMemory(m, arch, rel + relent, n - 1, relsz - relent, relent, k - 1);
      assert Slot(rel + relent, relent, k - 1) == Slot(rel, relent, k);
    }
  }

  lemma {:induction false} SlotsInMemory(m: seq<Byte>, arch: Arch, rel: nat, n: nat, relsz: int, relent: int)
    requires relent > 0 && Counts(n, relsz, relent)
    requires forall k :: 0 <= k < n ==> Slot(rel, relent, k) + arch.EntrySize() <= |m|
    ensures InMemory(m, arch, rel, relsz, relent)
    decreases n
  {
    if n > 0 {
      CountsNext(n, relsz, relent);
      assert Slot(rel, relent, 0) == rel;
      var next := rel + relent;
      forall k | 0 <= k < n - 1 ensures Slot(next, relent, k) + arch.EntrySize() <= |m| {
        TimesPred(k + 1, relent);
        assert Slot(rel, relent, k + 1) == Slot(next, relent, k);
      }
      SlotsInMemory(m, arch, next, n - 1, relsz - relent, relent);
    }
  }

  /** An entry of the relative kind asks for its target. */
  lemma AsksForTarget(m: seq<Byte>, arch: Arch, ldbase: Word64, rel: nat, n: nat, relsz: int, relent: int, k: nat)
    requires relent > 0 && Counts(n, relsz, relent) && InMemory(m, arch, rel, relsz, relent) && k < n
    ensures |Table(m, arch, rel, relsz, relent)| == n
    ensures var e := Table(m, arch, rel, relsz, relent)[k];
            && e.at == Slot(rel, relent, k)
            && (e.kind == arch.RelativeType() ==>
                  Asks(m, ldbase, arch.RelativeType(), arch.EntrySize(), Slot(rel, relent, k), e.Target(ldbase)))
  {
    EntryInMemory(m, arch, rel, n, relsz, relent, k);
  }

  /** What an entry asks for is its target, and it is of the relative kind. */
  lemma AskedIsTarget(m: seq<Byte>, arch: Arch, ldbase: Word64, rel: nat, n: nat, relsz: int, relent: int, k: nat, t: int)
    requires relent > 0 && Counts(n, relsz, relent) && InMemory(m, arch, rel, relsz, relent) && k < n
    requires Asks(m, ldbase, arch.RelativeType(), arch.EntrySize(), Slot(rel, relent, k), t)
    ensures |Table(m, arch, rel, relsz, relent)| == n
    ensures var e := Table(m, arch, rel, relsz, relent)[k];
            e.at == Slot(rel, relent, k) && e.kind == arch.RelativeType() && t == e.Target(ldbase)
  {
    EntryInMemory(m, arch, rel, n, relsz, relent, k);
  }

  lemma ProperIsSeparate(m: seq<Byte>, arch: Arch, ldbase: Word64, rel: nat, n: nat, relsz: int, relent: int)
    requires relent > 0 && Counts(n, relsz, relent)
    requires Proper(m, ldbase, arch.RelativeType(), arch.EntrySize(), rel, n, relent)
    ensures InMemory(m, arch, rel, relsz, relent) && Separate(m, arch, ldbase, Table(m, arch, rel, relsz, relent))
  {
    SlotsInMemory(m, arch, rel, n, relsz, relent);
    var es, kind, size := Table(m, arch, rel, relsz, relent), arch.RelativeType(), arch.EntrySize();
    TableIsArray(m, arch, rel, n, relsz, relent);
    forall k | 0 <= k < n
      ensures es[k].at == Slot(rel, relent, k)
      ensures es[k].kind == kind ==> Asks(m, ldbase, kind, size, Slot(rel, relent, k), es[k].Target(ldbase))
    {
      AsksForTarget(m, arch, ldbase, rel, n, relsz, relent, k);
    }
  }

  lemma UntouchedUnlessAsked(m: seq<Byte>, arch: Arch, ldbase: Word64, rel: nat, n: nat, relsz: int, relent: int, a: nat)
    requires relent > 0 && Counts(n, relsz, relent) && InMemory(m, arch, rel, relsz, relent)
    requires NotAsked(m, ldbase, arch.RelativeType(), arch.EntrySize(), rel, n, relent, a)
    ensures var es := Table(m, arch, rel, relsz, relent); !Touched(arch, ldbase, es, |es|, a)
  {
    var es := Table(m, arch, rel, relsz, relent);
    TableIsArray(m, arch, rel, n, relsz, relent);
    forall k | 0 <= k < n ensures !(es[k].kind == arch.RelativeType() && es[k].Covers(ldbase, a)) {
      AsksForTarget(m, arch, ldbase, rel, n, relsz, relent, k);
      assert es[k].kind == arch.RelativeType() ==>
               Asks(m, ldbase, arch.RelativeType(), arch.EntrySize(), Slot(rel, relent, k), es[k].Target(ldbase));
    }
  }

  lemma OthersHold(m: seq<Byte>, r: seq<Byte>, arch: Arch, ldbase: Word64, rel: nat, n: nat, relsz: int, relent: int)
    requires relent > 0 && Counts(n, relsz, relent) && InMemory(m, arch, rel, relsz, relent)
    requires Separate(m, arch, ldbase, Table(m, arch, rel, relsz, relent))
    requires var es := Table(m, arch, rel, relsz, relent); Relocated(m, r, arch, ldbase, es, |es|)
    ensures OthersAlike(m, r, ldbase, arch.RelativeType(), arch.EntrySize(), rel, n, relent)
  {
    forall a | 0 <= a < |m| && NotAsked(m, ldbase, arch.RelativeType(), arch.EntrySize(), rel, n, relent, a) ensures r[a] == m[a] {
      UntouchedUnlessAsked(m, arch, ldbase, rel, n, relsz, relent, a);
    }
  }

  lemma X86Applied(m: seq<Byte>, r: seq<Byte>, ldbase: Word64, es: seq<Entry>, k: nat, t: int)
    requires k < |es| && es[k].kind == 8 && t == es[k].Target(ldbase)
    requires Separate(m, X86_64, ldbase, es) && Relocated(m, r, X86_64, ldbase, es, |es|)
    ensures Moved(m, r, ldbase, t)
  {
    AppliedAt(m, r, X86_64, ldbase, es, k);
  }

  lemma X86Word(m: seq<Byte>, r: seq<Byte>, ldbase: Word64, rel: nat, n: nat, relsz: int, relent: int, k: nat, t: int)
    requires relent > 0 && Counts(n, relsz, relent) && InMemory(m, X86_64, rel, relsz, relent) && k < n
    requires Separate(m, X86_64, ldbase, Table(m, X86_64, rel, relsz, relent))
    requires var es := Table(m, X86_64, rel, relsz, relent); Relocated(m, r, X86_64, ldbase, es, |es|)
    requires Asks(m, ldbase, 8, 16, Slot(rel, relent, k), t)
    ensures Moved(m, r, ldbase, t)
  {
    AskedIsTarget(m, X86_64, ldbase, rel, n, relsz, relent, k, t);
    X86Applied(m, r, ldbase, Table(m, X86_64, rel, relsz, relent), k, t);
  }

  lemma X86WordsHold(m: seq<Byte>, r: seq<Byte>, ldbase: Word64, rel: nat, n: nat, relsz: int, relent: int)
    requires relent > 0 && Counts(n, relsz, relent) && InMemory(m, X86_64, rel, relsz, relent)
    requires Separate(m, X86_64, ldbase, Table(m, X86_64, rel, relsz, relent))
    requires var es := Table(m, X86_64, rel, relsz, relent); Relocated(m, r, X86_64, ldbase, es, |es|)
    ensures X86Words(m, r, ldbase, rel, n, relent)
  {
    forall k, t | 0 <= k < n && Asks(m, ldbase, 8, 16, Slot(rel, relent, k), t)
      ensures Moved(m, r, ldbase, t)
    {
      X86Word(m, r, ldbase, rel, n, relsz, relent, k, t);
    }
  }

  lemma X86FromTable(m: seq<Byte>, r: seq<Byte>, ldbase: Word64, rel: nat, n: nat, relsz: int, relent: int)
    requires relent > 0 && Counts(n, relsz, relent) && InMemory(m, X86_64, rel, relsz, relent)
    requires Separate(m, X86_64, ldbase, Table(m, X86_64, rel, relsz, relent))
    requires var es := Table(m, X86_64, rel, relsz, relent); Relocated(m, r, X86_64, ldbase, es, |es|)
    ensures X86Image(m, r, ldbase, rel, n, relent)
  {
    X86WordsHold(m, r, ldbase, rel, n, relsz, relent);
    OthersHold(m, r, X86_64, ldbase, rel, n, relsz, relent);
  }

  lemma A64Applied(m: seq<Byte>, r: seq<Byte>, ldbase: Word64, es: seq<Entry>, k: nat, at: nat, t: int)
    requires k < |es| && es[k].kind == 1027 && t == es[k].Target(ldbase) && at == es[k].at
    requires Separate(m, AArch64, ldbase, es) && Relocated(m, r, AArch64, ldbase, es, |es|)
    ensures Replaced(m, r, ldbase, at, t)
  {
    AppliedAt(m, r, AArch64, ldbase, es, k);
  }

  lemma A64Word(m: seq<Byte>, r: seq<Byte>, ldbase: Word64, rel: nat, n: nat, relsz: int, relent: int, k: nat, t: int)
    requires relent > 0 && Counts(n, relsz, relent) && InMemory(m, AArch64, rel, relsz, relent) && k < n
    requires Separate(m, AArch64, ldbase, Table(m, AArch64, rel, relsz, relent))
    requires var es := Table(m, AArch64, rel, relsz, relent); Relocated(m, r, AArch64, ldbase, es, |es|)
    requires Asks(m, ldbase, 1027, 24, Slot(rel, relent, k), t)
    ensures Replaced(m, r, ldbase, Slot(rel, relent, k), t)
  {
    AskedIsTarget(m, AArch64, ldbase, rel, n, relsz, relent, k, t);
    A64Applied(m, r, ldbase, Table(m, AArch64, rel, relsz, relent), k, Slot(rel, relent, k), t);
  }

  lemma A64WordsHold(m: seq<Byte>, r: seq<Byte>, ldbase: Word64, rel: nat, n: nat, relsz: int, relent: int)
    requires relent > 0 && Counts(n, relsz, relent) && InMemory(m, AArch64, rel, relsz, relent)
    requires Separate(m, AArch64, ldbase, Table(m, AArch64, rel, relsz, relent))
    requires var es := Table(m, AArch64, rel, relsz, relent); Relocated(m, r, AArch64, ldbase, es, |es|)
    ensures A64Words(m, r, ldbase, rel, n, relent)
  {
    forall k, t | 0 <= k < n && Asks(m, ldbase, 1027, 24, Slot(rel, relent, k), t)
      ensures Replaced(m, r, ldbase, Slot(rel, relent, k), t)
    {
      A64Word(m, r, ldbase, rel, n, relsz, relent, k, t);
    }
  }

  lemma A64FromTable(m: seq<Byte>, r: seq<Byte>, ldbase: Word64, rel: nat, n: nat, relsz: int, relent: int)
    requires relent > 0 && Counts(n, relsz, relent) && InMemory(m, AArch64, rel, relsz, relent)
    requires Separate(m, AArch64, ldbase, Table(m, AArch64, rel, relsz, relent))
    requires var es := Table(m, AArch64, rel, relsz, relent); Relocated(m, r, AArch64, ldbase, es, |es|)
    ensures A64Image(m, r, ldbase, rel, n, relent)
  {
    A64WordsHold(m, r, ldbase, rel, n, relsz, relent);
    OthersHold(m, r, AArch64, ldbase, rel, n, relsz, relent);
  }

  // ----- the two relocators -----

  /** The section describes a table of which the loop reads n entries. */
  ghost predicate HasTable(found: Section, n: nat) {
    found.rel != 0 && found.relent > 0 && Counts(n, found.relsz, found.relent)
  }

  method RelocateX86(mem: array<Byte>, ldbase: Word64, dyn: seq<Dyn>, ghost end: nat, ghost n: nat) returns (status: Status)
    requires EndsAt(dyn, end) && HasTable(Found(dyn, end, ldbase), n)
    requires var found := Found(dyn, end, ldbase); Proper(mem[..], ldbase, 8, 16, found.rel, n, found.relent)
    modifies mem
    ensures status.Success?
    ensures var found := Found(dyn, end, ldbase); X86Image(old(mem[..]), mem[..], ldbase, found.rel, n, found.relent)
  {
    ghost var m, found := mem[..], Found(dyn, end, ldbase);
    ProperIsSeparate(m, X86_64, ldbase, found.rel, n, found.relsz, found.relent);
    status := Relocate.Relocate(mem, X86_64, ldbase, dyn, end);
    X86FromTable(m, mem[..], ldbase, found.rel, n, found.relsz, found.relent);
  }

  method RelocateA64(mem: array<Byte>, ldbase: Word64, dyn: seq<Dyn>, ghost end: nat, ghost n: nat) returns (status: Status)
    requires EndsAt(dyn, end) && HasTable(Found(dyn, end, ldbase), n)
    requires var found := Found(dyn, end, ldbase); Proper(mem[..], ldbase, 1027, 24, found.rel, n, found.relent)
    modifies mem
    ensures status.Success?
    ensures var found := Found(dyn, end, ldbase); A64Image(old(mem[..]), mem[..], ldbase, found.rel, n, found.relent)
  {
    ghost var m, found := mem[..], Found(dyn, end, ldbase);
    ProperIsSeparate(m, AArch64, ldbase, found.rel, n, found.relsz, found.relent);
    status := Relocate.Relocate(mem, AArch64, ldbase, dyn, end);
    A64FromTable(m, mem[..], ldbase, found.rel, n, found.relsz, found.relent);
  }
}
