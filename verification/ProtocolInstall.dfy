/**
 The transactional installation of protocol interfaces in bootloader/gnu-efi/lib/hand.c.

 The boot services keep a database of handles, each with the interfaces installed on it; a handle exists
 as long as some interface is installed on it.  Installing may be refused at any point of the list, and
 the library must then take back what it has installed so far.
 */
module ProtocolInstall {

  type Handle = nat
  type Guid = nat
  type Interface = nat
  type Protocols = map<Guid, Interface>
  type Database = map<Handle, Protocols>

  const NO_HANDLE: Handle := 0
  const TPL_NOTIFY := 16

  datatype Status = Success | InvalidParameter | OutOfResources | NotFound

  datatype Pair = Pair(guid: Guid, interface: Interface)

  ghost predicate DistinctGuids(pairs: seq<Pair>) {
    forall i, j :: 0 <= i < j < |pairs| ==> pairs[i].guid != pairs[j].guid
  }

  /** The interfaces on a handle; none when the handle does not exist. */
  function On(db: Database, handle: Handle): Protocols {
    if handle in db then db[handle] else map[]
  }

  /** The services of section 7.3 of the UEFI Specification that the library drives. */
  class BootServices {
    var database: Database
    var tpl: nat
    var next: Handle

    constructor (tpl0: nat)
      ensures Valid() && database == map[] && tpl == tpl0
    {
      database, tpl, next := map[], tpl0, 1;
    }

    ghost predicate Valid()
      reads this
    {
      && next > NO_HANDLE
      && (forall h :: h in database ==> NO_HANDLE < h < next && database[h] != map[])
    }

    method RaiseTPL(level: nat) returns (previous: nat)
      requires tpl <= level
      modifies this`tpl
      ensures tpl == level && previous == old(tpl)
    {
      previous := tpl;
      tpl := level;
    }

    method RestoreTPL(level: nat)
      modifies this`tpl
      ensures tpl == level
    {
      tpl := level;
    }

    /** Creates a handle when there is none yet.  A second interface of one protocol, or an unknown handle,
        is an error; the firmware may also be out of resources. */
    method InstallProtocolInterface(handle0: Handle, p: Pair, granted: bool) returns (status: Status, handle: Handle)
      requires Valid()
      modifies this`database, this`next
      ensures Valid()
      ensures status.Success? <==> granted && (handle0 == NO_HANDLE || handle0 in old(database)) && p.guid !in old(On(database, handle0))
      ensures !status.Success? ==> handle == handle0 && database == old(database)
      ensures status.Success? ==> database == old(database)[handle := old(On(database, handle0))[p.guid := p.interface]]
      ensures status.Success? && handle0 != NO_HANDLE ==> handle == handle0
      ensures status.Success? && handle0 == NO_HANDLE ==> handle !in old(database)
    {
      handle := handle0;
      if !granted {
        return OutOfResources, handle;
      }
      if handle == NO_HANDLE {
        handle := next;
        next := next + 1;
        var only: Protocols := map[p.guid := p.interface];
        assert p.guid in only;
        database := database[handle := only];
        return Success, handle;
      }
      if handle !in database || p.guid in database[handle] {
        return InvalidParameter, handle;
      }
      var more: Protocols := database[handle][p.guid := p.interface];
      assert p.guid in more;
      database := database[handle := more];
      return Success, handle;
    }

    /** Removes one interface, and the handle with its last one. */
    method UninstallProtocolInterface(handle: Handle, p: Pair) returns (status: Status)
      requires Valid()
      modifies this`database
      ensures Valid() && database == Removed(old(database), handle, p)
      ensures status.Success? <==> Has(old(database), handle, p)
    {
      if handle !in database || p.guid !in database[handle] || database[handle][p.guid] != p.interface {
        return NotFound;
      }
      var rest := database[handle] - {p.guid};
      if rest == map[] {
        database := database - {handle};
      } else {
        database := database[handle := rest];
      }
      return Success;
    }
  }

  predicate Has(db: Database, handle: Handle, p: Pair) {
    handle in db && p.guid in db[handle] && db[handle][p.guid] == p.interface
  }

  function Removed(db: Database, handle: Handle, p: Pair): Database {
    if !Has(db, handle, p) then db
    else if db[handle] - {p.guid} == map[] then db - {handle}
    else db[handle := db[handle] - {p.guid}]
  }

  /** The interfaces of a list, by protocol. */
  function Listed(pairs: seq<Pair>): Protocols {
    if pairs == [] then map[] else Listed(pairs[1..])[pairs[0].guid := pairs[0].interface]
  }

  /** The list holds exactly its pairs, as long as no protocol is listed twice. */
  lemma {:induction false} ListedPairs(pairs: seq<Pair>)
    requires DistinctGuids(pairs)
    ensures forall i :: 0 <= i < |pairs| ==> pairs[i].guid in Listed(pairs) && Listed(pairs)[pairs[i].guid] == pairs[i].interface
    ensures forall g :: g in Listed(pairs) ==> exists i :: 0 <= i < |pairs| && pairs[i].guid == g
  {
    if pairs != [] {
      ListedPairs(pairs[1..]);
      forall i | 0 <= i < |pairs|
        ensures pairs[i].guid in Listed(pairs) && Listed(pairs)[pairs[i].guid] == pairs[i].interface
      {
        assert i > 0 ==> pairs[i] == pairs[1..][i - 1];
      }
      forall g | g in Listed(pairs) ensures exists i :: 0 <= i < |pairs| && pairs[i].guid == g {
        if g != pairs[0].guid {
          var i :| 0 <= i < |pairs[1..]| && pairs[1..][i].guid == g;
          assert pairs[i + 1].guid == g;
        }
      }
    }
  }

  /** A list that may be installed on top of these interfaces: all its protocols are new, each listed once. */
  ghost predicate Addable(base: Protocols, pairs: seq<Pair>) {
    DistinctGuids(pairs) && forall i :: 0 <= i < |pairs| ==> pairs[i].guid !in base
  }

  /** The database with a list of pairs installed on a handle. */
  ghost function With(db: Database, handle: Handle, pairs: seq<Pair>): Database {
    if pairs == [] then db else db[handle := On(db, handle) + Listed(pairs)]
  }

  /** Of all that is installed anywhere, exactly the listed pairs of the handle are new. */
  lemma WithHolds(db: Database, handle: Handle, pairs: seq<Pair>, g: Handle, p: Pair)
    requires Addable(On(db, handle), pairs)
    ensures Has(With(db, handle, pairs), g, p) <==> Has(db, g, p) || (g == handle && p in pairs)
  {
    ListedPairs(pairs);
    if g == handle && p.guid in Listed(pairs) {
      var i :| 0 <= i < |pairs| && pairs[i].guid == p.guid;
      assert p.interface == pairs[i].interface ==> p == pairs[i];
    }
  }

  lemma {:induction false} ListedAppend(pairs: seq<Pair>, p: Pair)
    requires DistinctGuids(pairs + [p])
    ensures Listed(pairs + [p]) == Listed(pairs)[p.guid := p.interface]
  {
    if pairs == [] {
      assert ([p])[1..] == [];
    } else {
      var all := pairs + [p];
      assert all[1..] == pairs[1..] + [p];
      assert all[0].guid != all[|pairs|].guid;
      ListedAppend(pairs[1..], p);
    }
  }

  /** Installing one more pair. */
  lemma WithNext(db: Database, handle: Handle, pairs: seq<Pair>, k: nat)
    requires k < |pairs| && DistinctGuids(pairs[..k + 1])
    ensures With(db, handle, pairs[..k + 1])
         == With(db, handle, pairs[..k])[handle := On(With(db, handle, pairs[..k]), handle)[pairs[k].guid := pairs[k].interface]]
  {
    assert pairs[..k + 1] == pairs[..k] + [pairs[k]];
    ListedAppend(pairs[..k], pairs[k]);
    OnWith(db, handle, pairs[..k]);
    var base, p := On(db, handle), pairs[k];
    assert base + Listed(pairs[..k])[p.guid := p.interface] == (base + Listed(pairs[..k]))[p.guid := p.interface];
  }

  lemma FirstOfListed(base: Protocols, pairs: seq<Pair>)
    requires pairs != [] && Addable(base, pairs)
    ensures pairs[0].guid in Listed(pairs) && Listed(pairs)[pairs[0].guid] == pairs[0].interface
    ensures (base + Listed(pairs)) - {pairs[0].guid} == base + Listed(pairs[1..])
  {
    ListedPairs(pairs[1..]);
    assert pairs[0].guid !in Listed(pairs[1..]);
  }

  /** Removing the first pair of a list leaves the rest of the list installed; after the last one the
      database is what it was, also when the handle was created for the list. */
  lemma RemoveFirst(db: Database, handle: Handle, pairs: seq<Pair>)
    requires pairs != [] && Addable(On(db, handle), pairs)
    requires forall h :: h in db ==> db[h] != map[]
    ensures Has(With(db, handle, pairs), handle, pairs[0])
    ensures Removed(With(db, handle, pairs), handle, pairs[0]) == With(db, handle, pairs[1..])
  {
    var base, rest := On(db, handle), pairs[1..];
    FirstOfListed(base, pairs);
    if rest == [] {
      assert base + Listed(rest) == base;
    } else {
      assert rest[0].guid in base + Listed(rest);
    }
  }

  /** A list taken back in its own order, from the first pair on. */
  ghost function RemovedAll(db: Database, handle: Handle, pairs: seq<Pair>): Database
    decreases |pairs|
  {
    if pairs == [] then db else RemovedAll(Removed(db, handle, pairs[0]), handle, pairs[1..])
  }

  lemma {:induction false} RemovedAllUndoesWith(db: Database, handle: Handle, pairs: seq<Pair>)
    requires Addable(On(db, handle), pairs)
    requires forall h :: h in db ==> db[h] != map[]
    ensures RemovedAll(With(db, handle, pairs), handle, pairs) == db
    decreases |pairs|
  {
    if pairs != [] {
      RemoveFirst(db, handle, pairs);
      RemovedAllUndoesWith(db, handle, pairs[1..]);
    }
  }

  /** The loop that takes back a list in its own order. */
  method UninstallPairs(bs: BootServices, handle: Handle, pairs: seq<Pair>, count: nat)
    requires bs.Valid() && count <= |pairs|
    modifies bs`database
    ensures bs.Valid() && bs.database == RemovedAll(old(bs.database), handle, pairs[..count])
  {
    var i, index := 0, count;
    while index > 0
      invariant i + index == count && bs.Valid()
      invariant RemovedAll(bs.database, handle, pairs[i..count]) == RemovedAll(old(bs.database), handle, pairs[..count])
    {
      assert pairs[i..count][0] == pairs[i] && pairs[i..count][1..] == pairs[i + 1..count];
      var _ := bs.UninstallProtocolInterface(handle, pairs[i]);
      i, index := i + 1, index - 1;
    }
  }

  /** The list can be installed: the handle exists or is to be created, every protocol is new to it and
      listed once, and the firmware grants every request. */
  ghost predicate Installable(db: Database, handle: Handle, pairs: seq<Pair>, granted: nat -> bool) {
    pairs == [] || (
      && (handle == NO_HANDLE || handle in db)
      && Addable(On(db, handle), pairs)
      && forall i :: 0 <= i < |pairs| ==> granted(i))
  }

  /** The first k pairs are installed on the handle, which was created for them if there was none. */
  ghost predicate Installed(db: Database, now: Database, handle0: Handle, handle: Handle, pairs: seq<Pair>, k: nat) {
    && k <= |pairs| && now == With(db, handle, pairs[..k]) && Addable(On(db, handle), pairs[..k])
    && (if k == 0 || handle0 != NO_HANDLE then handle == handle0 else handle !in db && handle != NO_HANDLE)
    && (k > 0 && handle0 != NO_HANDLE ==> handle0 in db)
  }

  /** Installs pairs until one is refused; count is how many were installed, on handle. */
  method InstallPairs(bs: BootServices, handle0: Handle, pairs: seq<Pair>, granted: nat -> bool)
    returns (status: Status, handle: Handle, count: nat)
    requires bs.Valid()
    modifies bs`database, bs`next
    ensures bs.Valid() && count <= |pairs|
    ensures bs.database == With(old(bs.database), handle, pairs[..count])
    ensures Addable(On(old(bs.database), handle), pairs[..count])
    ensures handle == handle0 || (handle0 == NO_HANDLE && handle !in old(bs.database))
    ensures status.Success? <==> Installable(old(bs.database), handle0, pairs, granted)
    ensures status.Success? ==> count == |pairs|
  {
    ghost var db := bs.database;
    handle, count, status := handle0, 0, Success;
    while count < |pairs|
      invariant bs.Valid() && Installed(db, bs.database, handle0, handle, pairs, count)
      invariant forall i :: 0 <= i < count ==> granted(i)
      invariant status.Success?
    {
      status, handle := InstallNext(bs, handle, pairs, count, granted, handle0, db);
      if !status.Success? {
        break;
      }
      count := count + 1;
    }
    assert status.Success? ==> pairs[..count] == pairs;
  }

  /** Installs one pair more; when that is refused, nothing changes, and the list could not be installed. */
  method InstallNext(bs: BootServices, handle: Handle, pairs: seq<Pair>, k: nat, granted: nat -> bool, ghost handle0: Handle, ghost db: Database)
    returns (status: Status, newHandle: Handle)
    requires bs.Valid() && k < |pairs| && Installed(db, bs.database, handle0, handle, pairs, k) && NO_HANDLE !in db
    modifies bs`database, bs`next
    ensures bs.Valid()
    ensures status.Success? ==> granted(k) && Installed(db, bs.database, handle0, newHandle, pairs, k + 1)
    ensures !status.Success? ==>
              && newHandle == handle && Installed(db, bs.database, handle0, handle, pairs, k)
              && !Installable(db, handle0, pairs, granted)
  {
    ghost var before := bs.database;
    status, newHandle := bs.InstallProtocolInterface(handle, pairs[k], granted(k));
    if !status.Success? {
      RefusedNotInstallable(db, before, handle0, handle, pairs, k, granted);
    } else {
      assert newHandle in bs.database;
      InstalledNext(db, before, handle0, handle, newHandle, pairs, k);
    }
  }

  lemma OnWith(db: Database, handle: Handle, pairs: seq<Pair>)
    ensures On(With(db, handle, pairs), handle) == On(db, handle) + Listed(pairs)
  {
    if pairs == [] {
      assert On(db, handle) + Listed(pairs) == On(db, handle);
    }
  }

  lemma NewToAll(db: Database, handle: Handle, pairs: seq<Pair>, k: nat)
    requires k < |pairs| && Addable(On(db, handle), pairs[..k])
    ensures Addable(On(db, handle), pairs[..k + 1]) <==> pairs[k].guid !in On(With(db, handle, pairs[..k]), handle)
  {
    OnWith(db, handle, pairs[..k]);
    ListedPairs(pairs[..k]);
    var all := pairs[..k + 1];
    assert all == pairs[..k] + [pairs[k]];
    if pairs[k].guid in Listed(pairs[..k]) {
      var i :| 0 <= i < |pairs[..k]| && pairs[..k][i].guid == pairs[k].guid;
      assert all[i].guid == all[k].guid;
    } else {
      forall i | 0 <= i < k ensures all[i].guid != pairs[k].guid {
        assert all[i] == pairs[..k][i];
      }
      assert all[k] == pairs[k];
    }
  }

  /** What the firmware stored is the list with one more pair. */
  lemma InstalledNext(db: Database, before: Database, handle0: Handle, was: Handle, handle: Handle, pairs: seq<Pair>, k: nat)
    requires k < |pairs| && Installed(db, before, handle0, was, pairs, k) && NO_HANDLE !in db
    requires was == NO_HANDLE || was in before
    requires pairs[k].guid !in On(before, was)
    requires if was == NO_HANDLE then handle !in before && handle != NO_HANDLE else handle == was
    ensures Installed(db, before[handle := On(before, was)[pairs[k].guid := pairs[k].interface]], handle0, handle, pairs, k + 1)
  {
    NewToAll(db, handle, pairs, k);
    WithNext(db, handle, pairs, k);
  }

  lemma RefusedNotInstallable(db: Database, now: Database, handle0: Handle, handle: Handle, pairs: seq<Pair>, k: nat, granted: nat -> bool)
    requires k < |pairs| && Installed(db, now, handle0, handle, pairs, k) && NO_HANDLE !in db
    requires !(granted(k) && (handle == NO_HANDLE || handle in now) && pairs[k].guid !in On(now, handle))
    ensures !Installable(db, handle0, pairs, granted)
  {
    NewToAll(db, handle, pairs, k);
    if Addable(On(db, handle0), pairs) {
      AddablePrefix(On(db, handle0), pairs, k + 1);
    }
  }

  lemma AddablePrefix(base: Protocols, pairs: seq<Pair>, k: nat)
    requires k <= |pairs| && Addable(base, pairs)
    ensures Addable(base, pairs[..k])
  {}

  /** All or nothing: on an error the database and the caller's handle are as before, on success exactly the
      listed pairs have been added; the task priority is restored in both cases. */
  method LibInstallProtocolInterfaces(bs: BootServices, handle0: Handle, pairs: seq<Pair>, granted: nat -> bool)
    returns (status: Status, handle: Handle)
    requires bs.Valid() && bs.tpl <= TPL_NOTIFY
    modifies bs
    ensures bs.Valid() && bs.tpl == old(bs.tpl)
    ensures status.Success? <==> Installable(old(bs.database), handle0, pairs, granted)
    ensures !status.Success? ==> bs.database == old(bs.database) && handle == handle0
    ensures status.Success? ==> bs.database == With(old(bs.database), handle, pairs)
    ensures status.Success? ==>
              forall g, p :: Has(bs.database, g, p) <==> Has(old(bs.database), g, p) || (g == handle && p in pairs)
    ensures status.Success? && handle0 != NO_HANDLE ==> handle == handle0
    ensures status.Success? && handle0 == NO_HANDLE ==> handle !in old(bs.database)
  {
    var oldTpl := bs.RaiseTPL(TPL_NOTIFY);
    var oldHandle := handle0;
    ghost var db := bs.database;
    var index;
    status, handle, index := InstallPairs(bs, handle0, pairs, granted);
    if !status.Success? {
      RemovedAllUndoesWith(db, handle, pairs[..index]);
      UninstallPairs(bs, handle, pairs, index);
      handle := oldHandle;
    } else {
      assert pairs[..index] == pairs;
      forall g, p ensures Has(bs.database, g, p) <==> Has(db, g, p) || (g == handle && p in pairs) {
        WithHolds(db, handle, pairs, g, p);
      }
    }
    bs.RestoreTPL(oldTpl);
  }

  lemma RemovedLeaves(db: Database, handle: Handle, q: Pair, g: Handle, p: Pair)
    ensures Has(Removed(db, handle, q), g, p) <==> Has(db, g, p) && !(g == handle && p == q)
  {
    if Has(db, handle, q) && g == handle && p.guid != q.guid && p.guid in db[handle] {
      assert p.guid in db[handle] - {q.guid};
    }
  }

  /** Of all that was installed anywhere, exactly the listed pairs of the handle are gone. */
  lemma {:induction false} RemovedAllLeaves(db: Database, handle: Handle, pairs: seq<Pair>, g: Handle, p: Pair)
    ensures Has(RemovedAll(db, handle, pairs), g, p) <==> Has(db, g, p) && !(g == handle && p in pairs)
    decreases |pairs|
  {
    if pairs != [] {
      RemovedLeaves(db, handle, pairs[0], g, p);
      RemovedAllLeaves(Removed(db, handle, pairs[0]), handle, pairs[1..], g, p);
      assert p in pairs <==> p == pairs[0] || p in pairs[1..];
    }
  }

  /** Removes each listed pair that is there and nothing else; by RemovedAllUndoesWith, a list that was
      installed is thereby undone. */
  method LibUninstallProtocolInterfaces(bs: BootServices, handle: Handle, pairs: seq<Pair>)
    requires bs.Valid()
    modifies bs`database
    ensures bs.Valid() && bs.database == RemovedAll(old(bs.database), handle, pairs)
    ensures forall g, p :: Has(bs.database, g, p) <==> Has(old(bs.database), g, p) && !(g == handle && p in pairs)
  {
    forall g, p
      ensures Has(RemovedAll(bs.database, handle, pairs), g, p) <==> Has(bs.database, g, p) && !(g == handle && p in pairs)
    {
      RemovedAllLeaves(bs.database, handle, pairs, g, p);
    }
    var i := 0;
    while i < |pairs|
      invariant i <= |pairs| && bs.Valid()
      invariant RemovedAll(bs.database, handle, pairs[i..]) == RemovedAll(old(bs.database), handle, pairs)
    {
      assert pairs[i..][0] == pairs[i] && pairs[i..][1..] == pairs[i + 1..];
      var _ := bs.UninstallProtocolInterface(handle, pairs[i]);
      i := i + 1;
    }
  }
}
