/**
 Evaluation of mbuild files (scripts/mbuild/eval.cc).

 Each directory may hold an mbuild file whose statements add to, replace or shrink named lists of paths.
 A path that is a directory is an include: it is evaluated in turn, once, against the same global lists.
 Parsing, the file system and path canonicalisation are the fixed functions of a World.  Where the source
 iterates over an unordered map, the model chooses an arbitrary order.
 */
module Mbuild {
  import opened Basics

  datatype Operation = Add | Set | Remove | Invalid

  datatype AstNode = AstNode(ident: string, op: Operation, entries: seq<string>)

  type Lists = map<string, set<string>>

  datatype World = World(
    dirs: set<string>,                          // the paths that are directories
    parse: string -> Option<seq<AstNode>>,      // the statements of a directory's mbuild file, if it parses
    canonical: (string, string) -> string       // a directory and an entry, joined and canonicalised
  )

  /** The paths named by a statement. */
  function Paths(w: World, dir: string, entries: seq<string>): set<string> {
    set k | 0 <= k < |entries| :: w.canonical(dir, entries[k])
  }

  function Lookup(lists: Lists, ident: string): set<string> {
    if ident in lists then lists[ident] else {}
  }

  /** The effect of one valid statement.  Only Set creates a list without naming a path. */
  function Apply(w: World, lists: Lists, dir: string, n: AstNode): Lists
    requires n.op != Invalid
  {
    var paths := Paths(w, dir, n.entries);
    match n.op
    case Add => if n.entries == [] then lists else lists[n.ident := Lookup(lists, n.ident) + paths]
    case Set => lists[n.ident := paths]
    case Remove => if n.entries == [] then lists else lists[n.ident := Lookup(lists, n.ident) - paths]
  }

  /** The effect of a whole file. */
  function ApplyAll(w: World, lists: Lists, dir: string, nodes: seq<AstNode>): Lists
    requires AllValid(nodes)
  {
    if |nodes| == 0 then lists
    else Apply(w, ApplyAll(w, lists, dir, nodes[..|nodes| - 1]), dir, nodes[|nodes| - 1])
  }

  predicate AllValid(nodes: seq<AstNode>) {
    forall k :: 0 <= k < |nodes| ==> nodes[k].op != Invalid
  }

  // ----- what statements mean, path by path -----

  ghost predicate Listed(lists: Lists, ident: string, p: string) {
    ident in lists && p in lists[ident]
  }

  /** The statement names p. */
  ghost predicate Mentions(w: World, dir: string, n: AstNode, p: string) {
    exists i :: 0 <= i < |n.entries| && p == w.canonical(dir, n.entries[i])
  }

  /** The list is the same one before and after, or absent from both. */
  ghost predicate SameList(was: Lists, now: Lists, ident: string) {
    (ident in now <==> ident in was) && (ident in now ==> now[ident] == was[ident])
  }

  /** A statement adds the paths it names to its list, makes them the list, or takes them out of it; it leaves the other
      lists alone. */
  lemma StatementMeans(w: World, lists: Lists, dir: string, n: AstNode, ident: string, p: string)
    requires n.op != Invalid
    ensures var now := Apply(w, lists, dir, n);
            && (n.op == Add ==> (Listed(now, n.ident, p) <==> Listed(lists, n.ident, p) || Mentions(w, dir, n, p)))
            && (n.op == Set ==> (Listed(now, n.ident, p) <==> Mentions(w, dir, n, p)))
            && (n.op == Remove ==> (Listed(now, n.ident, p) <==> Listed(lists, n.ident, p) && !Mentions(w, dir, n, p)))
            && (ident != n.ident ==> SameList(lists, now, ident))
            && (n.ident in now <==> n.ident in lists || n.op == Set || |n.entries| > 0)
  {
    assert p in Paths(w, dir, n.entries) <==> Mentions(w, dir, n, p);
  }

  lemma StatementMeansAll(w: World, lists: Lists, dir: string, n: AstNode, now: Lists)
    requires n.op != Invalid && now == Apply(w, lists, dir, n)
    ensures n.op == Add ==> forall p :: Listed(now, n.ident, p) <==> Listed(lists, n.ident, p) || Mentions(w, dir, n, p)
    ensures n.op == Set ==> forall p :: Listed(now, n.ident, p) <==> Mentions(w, dir, n, p)
    ensures n.op == Remove ==> forall p :: Listed(now, n.ident, p) <==> Listed(lists, n.ident, p) && !Mentions(w, dir, n, p)
    ensures forall ident :: ident != n.ident ==> SameList(lists, now, ident)
  {
    forall p, ident
      ensures n.op == Add ==> (Listed(now, n.ident, p) <==> Listed(lists, n.ident, p) || Mentions(w, dir, n, p))
      ensures n.op == Set ==> (Listed(now, n.ident, p) <==> Mentions(w, dir, n, p))
      ensures n.op == Remove ==> (Listed(now, n.ident, p) <==> Listed(lists, n.ident, p) && !Mentions(w, dir, n, p))
      ensures ident != n.ident ==> SameList(lists, now, ident)
    {
      StatementMeans(w, lists, dir, n, ident, p);
    }
  }

  /** The statement puts p into the list. */
  ghost predicate Gives(w: World, dir: string, n: AstNode, ident: string, p: string) {
    n.ident == ident && (n.op == Add || n.op == Set) && Mentions(w, dir, n, p)
  }

  /** The statement drops p from the list: it replaces the list by one without p, or takes p out. */
  ghost predicate Drops(w: World, dir: string, n: AstNode, ident: string, p: string) {
    n.ident == ident && ((n.op == Set && !Mentions(w, dir, n, p)) || (n.op == Remove && Mentions(w, dir, n, p)))
  }

  /** No statement from index k on drops p. */
  ghost predicate Kept(w: World, dir: string, nodes: seq<AstNode>, k: nat, ident: string, p: string) {
    forall j :: k <= j < |nodes| ==> !Drops(w, dir, nodes[j], ident, p)
  }

  /** Some statement gives p and no later one drops it. */
  ghost predicate GivenAndKept(w: World, dir: string, nodes: seq<AstNode>, ident: string, p: string) {
    exists k :: 0 <= k < |nodes| && Gives(w, dir, nodes[k], ident, p) && Kept(w, dir, nodes, k + 1, ident, p)
  }

  /** After a whole file a path is listed exactly when a statement gives it and none drops it later, or when it was
      listed before and no statement drops it. */
  lemma {:induction false} FileMeans(w: World, lists: Lists, dir: string, nodes: seq<AstNode>, ident: string, p: string)
    requires AllValid(nodes)
    ensures Listed(ApplyAll(w, lists, dir, nodes), ident, p) <==>
            GivenAndKept(w, dir, nodes, ident, p) || (Listed(lists, ident, p) && Kept(w, dir, nodes, 0, ident, p))
    decreases |nodes|
  {
    if |nodes| > 0 {
      var front, last := nodes[..|nodes| - 1], nodes[|nodes| - 1];
      FileMeans(w, lists, dir, front, ident, p);
      StatementMeans(w, ApplyAll(w, lists, dir, front), dir, last, ident, p);
      LastStatement(w, dir, nodes, ident, p);
    }
  }

  lemma LastStatement(w: World, dir: string, nodes: seq<AstNode>, ident: string, p: string)
    requires |nodes| > 0
    ensures var front, last := nodes[..|nodes| - 1], nodes[|nodes| - 1];
            && (GivenAndKept(w, dir, nodes, ident, p) <==>
                  Gives(w, dir, last, ident, p) || (GivenAndKept(w, dir, front, ident, p) && !Drops(w, dir, last, ident, p)))
            && (Kept(w, dir, nodes, 0, ident, p) <==> Kept(w, dir, front, 0, ident, p) && !Drops(w, dir, last, ident, p))
  {
    var n := |nodes| - 1;
    var front, last := nodes[..n], nodes[n];
    if Gives(w, dir, last, ident, p) {
      assert Kept(w, dir, nodes, n + 1, ident, p);
    }
    forall k | 0 <= k <= n ensures Kept(w, dir, nodes, k, ident, p) <==> Kept(w, dir, front, k, ident, p) && !Drops(w, dir, last, ident, p) {
      KeptByLast(w, dir, nodes, k, ident, p);
    }
    if GivenAndKept(w, dir, front, ident, p) && !Drops(w, dir, last, ident, p) {
      var k :| 0 <= k < |front| && Gives(w, dir, front[k], ident, p) && Kept(w, dir, front, k + 1, ident, p);
      assert Gives(w, dir, nodes[k], ident, p) && Kept(w, dir, nodes, k + 1, ident, p);
    }
    if GivenAndKept(w, dir, nodes, ident, p) && !Gives(w, dir, last, ident, p) {
      var k :| 0 <= k < |nodes| && Gives(w, dir, nodes[k], ident, p) && Kept(w, dir, nodes, k + 1, ident, p);
      assert Gives(w, dir, front[k], ident, p) && Kept(w, dir, front, k + 1, ident, p);
    }
  }

  lemma KeptByLast(w: World, dir: string, nodes: seq<AstNode>, k: nat, ident: string, p: string)
    requires k < |nodes|
    ensures var front, last := nodes[..|nodes| - 1], nodes[|nodes| - 1];
            Kept(w, dir, nodes, k, ident, p) <==> Kept(w, dir, front, k, ident, p) && !Drops(w, dir, last, ident, p)
  {
    var front := nodes[..|nodes| - 1];
    assert forall j :: k <= j < |front| ==> front[j] == nodes[j];
  }

  /** The mbuild file of d parses and uses only known operations. */
  predicate Evaluable(w: World, d: string) {
    w.parse(d).Some? && AllValid(w.parse(d).value)
  }

  /** Every one of these directories evaluates. */
  ghost predicate AllEvaluable(w: World, ds: set<string>) {
    forall d :: d in ds ==> Evaluable(w, d)
  }

  /** Every directory in any list has been visited. */
  ghost predicate Closed(w: World, lists: Lists, visited: set<string>) {
    forall ident, p :: ident in lists && p in lists[ident] && p in w.dirs ==> p in visited
  }

  /** The same for all lists but those pending. */
  ghost predicate ResolvedBut(w: World, lists: Lists, visited: set<string>, pending: set<string>) {
    forall ident :: ident in lists.Keys - pending ==> lists[ident] * w.dirs <= visited
  }

  /** No listed directory has a file that parses. */
  ghost predicate Barren(w: World, lists: Lists) {
    forall ident, p :: ident in lists && p in lists[ident] && p in w.dirs ==> w.parse(p).None?
  }

  // ----- which directories a run may visit -----

  /** Some statement of d's file names directory e. */
  ghost predicate Names(w: World, d: string, e: string) {
    && e in w.dirs && w.parse(d).Some?
    && exists k :: 0 <= k < |w.parse(d).value| && e in Paths(w, d, w.parse(d).value[k].entries)
  }

  /** s contains every directory that the root or one of its own members names. */
  ghost predicate NamesClosed(w: World, root: string, s: set<string>) {
    forall d, e :: (d == root || d in s) && Names(w, d, e) ==> e in s
  }

  ghost predicate ListedWithin(w: World, lists: Lists, s: set<string>) {
    forall ident :: ident in lists ==> lists[ident] * w.dirs <= s
  }

  /** A statement of a file in such a set lists only directories of the set. */
  lemma ApplyWithin(w: World, root: string, lists: Lists, dir: string, k: nat, s: set<string>)
    requires NamesClosed(w, root, s) && (dir == root || dir in s) && w.parse(dir).Some? && k < |w.parse(dir).value|
    requires w.parse(dir).value[k].op != Invalid && ListedWithin(w, lists, s)
    ensures ListedWithin(w, Apply(w, lists, dir, w.parse(dir).value[k]), s)
  {
    var n := w.parse(dir).value[k];
    forall e | e in Paths(w, dir, n.entries) * w.dirs ensures e in s {
      assert Names(w, dir, e);
    }
  }

  // ----- build files that only add -----

  predicate AddsOnly(w: World, d: string) {
    Evaluable(w, d) && forall k :: 0 <= k < |w.parse(d).value| ==> w.parse(d).value[k].op == Add
  }

  ghost predicate AllAdd(w: World, root: string, reach: set<string>) {
    AddsOnly(w, root) && forall d :: d in reach ==> AddsOnly(w, d)
  }

  /** Some of the first n statements of d adds p to list ident. */
  ghost predicate AddsWithin(w: World, d: string, n: nat, ident: string, p: string)
    requires w.parse(d).Some? && n <= |w.parse(d).value|
  {
    exists k :: 0 <= k < n && w.parse(d).value[k].ident == ident && p in Paths(w, d, w.parse(d).value[k].entries)
  }

  ghost predicate Adds(w: World, d: string, ident: string, p: string) {
    w.parse(d).Some? && AddsWithin(w, d, |w.parse(d).value|, ident, p)
  }

  /** The lists hold exactly what the files of the given directories add. */
  ghost predicate Sum(w: World, lists: Lists, from: set<string>) {
    forall ident, p :: Listed(lists, ident, p) <==> exists d :: d in from && Adds(w, d, ident, p)
  }

  /** The directories d includes. */
  ghost predicate Includes(w: World, d: string, e: string) {
    e in w.dirs && exists ident :: Adds(w, d, ident, e)
  }

  /** s contains what the root and its own members include. */
  ghost predicate IncludeClosed(w: World, root: string, s: set<string>) {
    forall d, e :: (d == root || d in s) && Includes(w, d, e) ==> e in s
  }

  /** s is the least set of directories closed under inclusion from the root. */
  ghost predicate IncludeClosure(w: World, root: string, s: set<string>) {
    IncludeClosed(w, root, s) && forall t :: IncludeClosed(w, root, t) ==> s <= t
  }

  /** The directories that every set closed under inclusion from the root contains. */
  ghost function Closure(w: World, root: string): set<string> {
    set e | e in w.dirs && forall t :: IncludeClosed(w, root, t) ==> e in t
  }

  lemma ClosureIsClosed(w: World, root: string)
    ensures IncludeClosure(w, root, Closure(w, root))
  {
    var c := Closure(w, root);
    assert IncludeClosed(w, root, w.dirs);
    forall t | IncludeClosed(w, root, t) ensures c <= t {}
    forall d, e | (d == root || d in c) && Includes(w, d, e) ensures e in c {
      forall t | IncludeClosed(w, root, t) ensures e in t {
        assert d == root || d in t;
      }
    }
  }

  /** What the lists hold while the statements of dir are taking effect: n of them are done. */
  ghost predicate PartialSum(w: World, lists: Lists, from: set<string>, dir: string, n: nat)
    requires w.parse(dir).Some? && n <= |w.parse(dir).value|
  {
    forall ident, p :: Listed(lists, ident, p) <==>
      AddsWithin(w, dir, n, ident, p) || exists d :: d in from && Adds(w, d, ident, p)
  }

  lemma PartialSumStep(w: World, lists: Lists, from: set<string>, dir: string, n: nat)
    requires w.parse(dir).Some? && n < |w.parse(dir).value| && w.parse(dir).value[n].op == Add
    requires PartialSum(w, lists, from, dir, n)
    ensures PartialSum(w, Apply(w, lists, dir, w.parse(dir).value[n]), from, dir, n + 1)
  {
    var node := w.parse(dir).value[n];
    var after := Apply(w, lists, dir, node);
    forall ident, p
      ensures Listed(after, ident, p) <==>
              AddsWithin(w, dir, n + 1, ident, p) || exists d :: d in from && Adds(w, d, ident, p)
    {
      assert Listed(after, ident, p) <==>
             Listed(lists, ident, p) || (ident == node.ident && p in Paths(w, dir, node.entries));
      assert AddsWithin(w, dir, n + 1, ident, p) <==>
             AddsWithin(w, dir, n, ident, p) || (ident == node.ident && p in Paths(w, dir, node.entries));
    }
  }

  lemma PartialSumEnds(w: World, lists: Lists, from: set<string>, dir: string)
    requires w.parse(dir).Some?
    ensures Sum(w, lists, from) ==> PartialSum(w, lists, from, dir, 0)
    ensures PartialSum(w, lists, from, dir, |w.parse(dir).value|) ==> Sum(w, lists, from + {dir})
  {
    if PartialSum(w, lists, from, dir, |w.parse(dir).value|) {
      forall ident, p
        ensures Listed(lists, ident, p) <==> exists d :: d in from + {dir} && Adds(w, d, ident, p)
      {
        if Listed(lists, ident, p) && AddsWithin(w, dir, |w.parse(dir).value|, ident, p) {
          assert dir in from + {dir} && Adds(w, dir, ident, p);
        }
      }
    }
  }

  /** Every listed directory lies in a set closed under inclusion when the evaluated files do. */
  lemma ListedInClosed(w: World, root: string, reach: set<string>, lists: Lists, from: set<string>, ident: string)
    requires IncludeClosed(w, root, reach) && Sum(w, lists, from) && from <= {root} + reach && ident in lists
    ensures lists[ident] * w.dirs <= reach
  {
    forall p | p in lists[ident] * w.dirs ensures p in reach {
      assert Listed(lists, ident, p);
      var d :| d in from && Adds(w, d, ident, p);
      assert Includes(w, d, p);
    }
  }

  // ----- the evaluator -----

  ghost function Firsts(paths: seq<string>, k: nat): set<string>
    requires k <= |paths|
  {
    set p | p in paths[..k]
  }

  lemma FirstsGrow(paths: seq<string>, k: nat)
    requires k < |paths|
    ensures Firsts(paths, k + 1) == Firsts(paths, k) + {paths[k]} && Firsts(paths, 0) == {}
    ensures forall s: set<string> :: s + Firsts(paths, k + 1) == s + Firsts(paths, k) + {paths[k]}
    ensures forall s: set<string> :: s - Firsts(paths, k + 1) == s - Firsts(paths, k) - {paths[k]}
    ensures forall s: set<string> :: s + Firsts(paths, 0) == s && s - Firsts(paths, 0) == s
  {
    assert paths[..k + 1] == paths[..k] + [paths[k]];
  }

  ghost predicate Distinct(log: seq<string>) {
    forall i, j :: 0 <= i < j < |log| ==> log[i] != log[j]
  }

  class Evaluator {
    const world: World
    var lists: Lists
    var visited: set<string>
    ghost var log: seq<string>         // the directories evaluated by ResolveInclude, in order
    ghost var applied: set<string>     // the directories whose statements have taken effect

    constructor (w: World)
      ensures world == w && lists == map[] && visited == {} && log == [] && applied == {}
      ensures Valid()
    {
      world, lists, visited, log, applied := w, map[], {}, [], {};
    }

    /** Each visited directory has been evaluated exactly once. */
    ghost predicate Valid()
      reads this
    {
      && visited <= world.dirs
      && Distinct(log)
      && visited == set d | d in log
    }

    /** Applies one statement; an unknown operation changes nothing and fails. */
    method EvalNode(n: AstNode, dir: string) returns (ok: bool)
      modifies this`lists
      ensures ok == (n.op != Invalid)
      ensures lists == if ok then Apply(world, old(lists), dir, n) else old(lists)
      ensures n.op == Add ==>
                forall p :: Listed(lists, n.ident, p) <==> Listed(old(lists), n.ident, p) || Mentions(world, dir, n, p)
      ensures n.op == Set ==> forall p :: Listed(lists, n.ident, p) <==> Mentions(world, dir, n, p)
      ensures n.op == Remove ==>
                forall p :: Listed(lists, n.ident, p) <==> Listed(old(lists), n.ident, p) && !Mentions(world, dir, n, p)
      ensures forall ident :: ident != n.ident ==> SameList(old(lists), lists, ident)
    {
      var paths: seq<string> := [];
      for k := 0 to |n.entries|
        invariant |paths| == k && forall i :: 0 <= i < k ==> paths[i] == world.canonical(dir, n.entries[i])
      {
        paths := paths + [world.canonical(dir, n.entries[k])];
      }
      match n.op {
        case Invalid =>
          return false;
        case Add =>
          for k := 0 to |paths|
            invariant lists == if k == 0 then old(lists) else
                        old(lists)[n.ident := Lookup(old(lists), n.ident) + Firsts(paths, k)]
          {
            FirstsGrow(paths, k);
            lists := lists[n.ident := Lookup(lists, n.ident) + {paths[k]}];
          }
        case Set =>
          lists := lists[n.ident := {}];
          assert Firsts(paths, 0) == {};
          for k := 0 to |paths|
            invariant lists == old(lists)[n.ident := Firsts(paths, k)]
          {
            FirstsGrow(paths, k);
            lists := lists[n.ident := Lookup(lists, n.ident) + {paths[k]}];
          }
        case Remove =>
          for k := 0 to |paths|
            invariant lists == if k == 0 then old(lists) else
                        old(lists)[n.ident := Lookup(old(lists), n.ident) - Firsts(paths, k)]
          {
            FirstsGrow(paths, k);
            lists := lists[n.ident := Lookup(lists, n.ident) - {paths[k]}];
          }
      }
      assert Firsts(paths, |paths|) == Paths(world, dir, n.entries);
      StatementMeansAll(world, old(lists), dir, n, lists);
      return true;
    }

    /** The statements so far came from the root and files in reach, all of which only add. */
    ghost predicate Adding(root: string, reach: set<string>)
      reads this
    {
      && AllAdd(world, root, reach) && IncludeClosed(world, root, reach) && Sum(world, lists, applied)
      && applied <= {root} + reach && visited <= reach <= world.dirs
    }

    /** The run so far has kept to a set that is closed under naming from the root. */
    ghost predicate Bounded(root: string, named: set<string>)
      reads this
    {
      NamesClosed(world, root, named) && visited <= named && ListedWithin(world, lists, named)
    }

    /** Applies the statements of a file in order, stopping at an unknown operation. */
    method EvalNodes(nodes: seq<AstNode>, dir: string, ghost root: string, ghost reach: set<string>, ghost named: set<string>) returns (ok: bool)
      requires world.parse(dir) == Some(nodes)
      modifies this`lists, this`applied
      ensures ok == AllValid(nodes) && old(lists).Keys <= lists.Keys
      ensures ok ==> applied == old(applied) + {dir} && lists == ApplyAll(world, old(lists), dir, nodes)
      ensures old(Adding(root, reach)) && (dir == root || dir in reach) ==> ok && Adding(root, reach)
      ensures old(Bounded(root, named)) && (dir == root || dir in named) ==> Bounded(root, named)
    {
      ghost var adding := Adding(root, reach) && (dir == root || dir in reach);
      PartialSumEnds(world, lists, applied, dir);
      assert adding ==> AddsOnly(world, dir);
      for k := 0 to |nodes|
        invariant applied == old(applied) && old(lists).Keys <= lists.Keys
        invariant AllValid(nodes[..k]) && lists == ApplyAll(world, old(lists), dir, nodes[..k])
        invariant adding ==> PartialSum(world, lists, applied, dir, k)
        invariant old(Bounded(root, named)) && (dir == root || dir in named) ==> ListedWithin(world, lists, named)
      {
        if adding {
          PartialSumStep(world, lists, applied, dir, k);
        }
        if NamesClosed(world, root, named) && (dir == root || dir in named) && ListedWithin(world, lists, named) && nodes[k].op != Invalid {
          ApplyWithin(world, root, lists, dir, k, named);
        }
        assert nodes[..k + 1][..k] == nodes[..k];
        ok := EvalNode(nodes[k], dir);
        if !ok { return; }
      }
      assert nodes[..|nodes|] == nodes;
      PartialSumEnds(world, lists, applied, dir);
      applied := applied + {dir};
      return true;
    }

    /** Marks a directory visited and evaluates it. */
    method Visit(e: string, ghost root: string, ghost reach: set<string>, ghost named: set<string>) returns (ok: bool)
      requires Valid() && e in world.dirs && e !in visited
      modifies this
      ensures Valid() && old(visited) + {e} <= visited && old(log) <= log && old(lists).Keys <= lists.Keys
      ensures ok == Evaluable(world, e)
      ensures AllEvaluable(world, visited) ==> Closed(world, lists, visited)
      ensures world.parse(e).None? ==> lists == old(lists) && log == old(log) + [e]
      ensures old(Bounded(root, named)) && e in named ==> Bounded(root, named)
      ensures old(Adding(root, reach)) && e in reach ==>
                Adding(root, reach) && applied == old(applied) + (visited - old(visited))
      decreases world.dirs - visited, 0
    {
      visited, log := visited + {e}, log + [e];
      ok := EvalInternal(e, root, reach, named);
      assert visited - old(visited) == {e} + (visited - (old(visited) + {e}));
    }

    /** Evaluates the directories of one list that have not been visited. */
    method ResolveInclude(data: set<string>, ghost root: string, ghost reach: set<string>, ghost named: set<string>) returns (ok: bool)
      requires Valid()
      modifies this
      ensures Valid() && old(visited) <= visited && old(log) <= log && old(lists).Keys <= lists.Keys
      ensures visited == old(visited) ==> lists == old(lists)
      ensures ok ==> data * world.dirs <= visited
      ensures !ok ==> exists e :: e in data * world.dirs && e in visited && !Evaluable(world, e)
      ensures AllEvaluable(world, visited) ==> lists == old(lists) || Closed(world, lists, visited)
      ensures (forall e :: e in data * world.dirs ==> world.parse(e).None?) ==>
                lists == old(lists) && |log| <= |old(log)| + 1
      ensures old(Bounded(root, named)) && data * world.dirs <= named ==> Bounded(root, named)
      ensures old(Adding(root, reach)) && data * world.dirs <= reach ==>
                Adding(root, reach) && applied == old(applied) + (visited - old(visited))
      decreases world.dirs - visited, 2
    {
      ghost var adding := Adding(root, reach) && data * world.dirs <= reach;
      var rest := data;
      while rest != {}
        invariant Valid() && rest <= data && old(visited) <= visited && old(log) <= log && old(lists).Keys <= lists.Keys
        invariant visited == old(visited) ==> lists == old(lists)
        invariant (forall e :: e in data * world.dirs ==> world.parse(e).None?) ==> log == old(log) && visited == old(visited)
        invariant (data - rest) * world.dirs <= visited
        invariant AllEvaluable(world, visited) ==> lists == old(lists) || Closed(world, lists, visited)
        invariant old(Bounded(root, named)) && data * world.dirs <= named ==> Bounded(root, named)
        invariant adding ==> Adding(root, reach) && applied == old(applied) + (visited - old(visited))
        decreases rest
      {
        var e :| e in rest;
        rest := rest - {e};
        ghost var seen := visited;
        ok := IncludeOne(e, root, reach, named);
        assert visited - old(visited) == (visited - seen) + (seen - old(visited));
        if !ok { return; }
      }
      return true;
    }

    /** Evaluates one path, if it is a directory that has not been visited. */
    method IncludeOne(e: string, ghost root: string, ghost reach: set<string>, ghost named: set<string>) returns (ok: bool)
      requires Valid()
      modifies this
      ensures Valid() && old(visited) <= visited && old(log) <= log && old(lists).Keys <= lists.Keys
      ensures visited == old(visited) ==> lists == old(lists) && log == old(log)
      ensures (e in world.dirs ==> e in visited) && (!ok ==> e in world.dirs && !Evaluable(world, e))
      ensures AllEvaluable(world, visited) ==> lists == old(lists) || Closed(world, lists, visited)
      ensures (e in world.dirs ==> world.parse(e).None?) ==>
                lists == old(lists) && |log| <= |old(log)| + 1 && (ok ==> visited == old(visited))
      ensures old(Bounded(root, named)) && (e in world.dirs ==> e in named) ==> Bounded(root, named)
      ensures old(Adding(root, reach)) && (e in world.dirs ==> e in reach) ==>
                Adding(root, reach) && applied == old(applied) + (visited - old(visited))
      decreases world.dirs - visited, 1
    {
      ok := true;
      if e in world.dirs && e !in visited {
        ok := Visit(e, root, reach, named);
      }
    }

    /** Evaluates a directory's file and then the includes in every list. */
    method EvalInternal(dir: string, ghost root: string, ghost reach: set<string>, ghost named: set<string>) returns (ok: bool)
      requires Valid()
      modifies this
      ensures Valid() && old(visited) <= visited && old(log) <= log && old(lists).Keys <= lists.Keys
      ensures ok == Evaluable(world, dir)
      ensures AllEvaluable(world, visited) && ok ==> Closed(world, lists, visited)
      ensures ok && Barren(world, ApplyAll(world, old(lists), dir, world.parse(dir).value)) ==>
                && lists == ApplyAll(world, old(lists), dir, world.parse(dir).value)
                && |log| <= |old(log)| + |lists|
      ensures world.parse(dir).None? ==> lists == old(lists) && log == old(log)
      ensures old(Bounded(root, named)) && (dir == root || dir in named) ==> Bounded(root, named)
      ensures old(Adding(root, reach)) && (dir == root || dir in reach) ==>
                Adding(root, reach) && applied == old(applied) + {dir} + (visited - old(visited))
      decreases world.dirs - visited, 5
    {
      var parsed := world.parse(dir);
      if parsed.None? { return false; }
      ok := EvalNodes(parsed.value, dir, root, reach, named);
      if !ok { return; }
      ResolveAll(root, reach, named);
    }

    /** Runs ResolveInclude over one of the lists still pending.  Names that appear meanwhile may or may not
        be reached, as when a hash map is extended during iteration. */
    method ResolveNext(pending0: set<string>, ghost root: string, ghost reach: set<string>, ghost named: set<string>) returns (pending: set<string>)
      requires Valid() && pending0 != {} && pending0 <= lists.Keys
      modifies this
      ensures Valid() && old(visited) <= visited && old(log) <= log && old(lists).Keys <= lists.Keys
      ensures pending <= lists.Keys && (visited == old(visited) ==> pending < pending0)
      ensures AllEvaluable(world, visited) && old(ResolvedBut(world, lists, visited, pending0)) ==>
                ResolvedBut(world, lists, visited, pending)
      ensures old(Barren(world, lists)) ==>
                lists == old(lists) && |log| <= |old(log)| + 1 && |pending| < |pending0|
      ensures old(Bounded(root, named)) ==> Bounded(root, named)
      ensures old(Adding(root, reach)) ==> Adding(root, reach) && applied == old(applied) + (visited - old(visited))
      decreases world.dirs - visited, 3
    {
      var ident :| ident in pending0;
      pending := pending0 - {ident};
      var before := lists.Keys;
      if Adding(root, reach) {
        ListedInClosed(world, root, reach, lists, applied, ident);
      }
      var ok := ResolveInclude(lists[ident], root, reach, named);
      var reached :| pending <= reached <= pending + (lists.Keys - before);
      pending := reached;
      assert lists.Keys == before ==> pending == pending0 - {ident};
    }

    /** Runs ResolveInclude over the lists in an arbitrary order. */
    method ResolveAll(ghost root: string, ghost reach: set<string>, ghost named: set<string>)
      requires Valid()
      modifies this
      ensures Valid() && old(visited) <= visited && old(log) <= log && old(lists).Keys <= lists.Keys
      ensures AllEvaluable(world, visited) ==> Closed(world, lists, visited)
      ensures old(Barren(world, lists)) ==> lists == old(lists) && |log| <= |old(log)| + |lists|
      ensures old(Bounded(root, named)) ==> Bounded(root, named)
      ensures old(Adding(root, reach)) ==> Adding(root, reach) && applied == old(applied) + (visited - old(visited))
      decreases world.dirs - visited, 4
    {
      var pending := lists.Keys;
      while pending != {}
        invariant Valid() && pending <= lists.Keys && old(visited) <= visited && old(log) <= log
        invariant old(lists).Keys <= lists.Keys
        invariant AllEvaluable(world, visited) ==> ResolvedBut(world, lists, visited, pending)
        invariant old(Barren(world, lists)) ==> lists == old(lists) && |log| + |pending| <= |old(log)| + |lists|
        invariant old(Bounded(root, named)) ==> Bounded(root, named)
        invariant old(Adding(root, reach)) ==> Adding(root, reach) && applied == old(applied) + (visited - old(visited))
        decreases world.dirs - visited, pending
      {
        ghost var seen := visited;
        pending := ResolveNext(pending, root, reach, named);
        assert visited - old(visited) == (visited - seen) + (seen - old(visited));
      }
    }

    /** Erases the directories from one list. */
    method EraseDirectories(ident: string)
      requires ident in lists
      modifies this`lists
      ensures lists == old(lists)[ident := old(lists)[ident] - world.dirs]
    {
      var rest := lists[ident];
      while rest != {}
        invariant rest <= old(lists)[ident]
        invariant lists.Keys == old(lists).Keys && lists[ident] == old(lists)[ident] - (world.dirs - rest)
        invariant forall other :: other in lists && other != ident ==> lists[other] == old(lists)[other]
        decreases rest
      {
        var e :| e in rest;
        ghost var kept := old(lists)[ident] - (world.dirs - rest);
        rest := rest - {e};
        if e in world.dirs {
          lists := lists[ident := lists[ident] - {e}];
          assert old(lists)[ident] - (world.dirs - rest) == kept - {e};
        } else {
          assert old(lists)[ident] - (world.dirs - rest) == kept;
        }
      }
      assert old(lists)[ident] - (world.dirs - rest) == old(lists)[ident] - world.dirs;
    }

    /** Erases the directories from every list. */
    method EraseAll()
      modifies this`lists
      ensures lists == map ident | ident in old(lists) :: old(lists)[ident] - world.dirs
    {
      var pending := lists.Keys;
      while pending != {}
        invariant lists.Keys == old(lists).Keys && pending <= lists.Keys
        invariant forall ident :: ident in lists ==>
                    lists[ident] == if ident in pending then old(lists)[ident] else old(lists)[ident] - world.dirs
        decreases pending
      {
        var ident :| ident in pending;
        pending := pending - {ident};
        EraseDirectories(ident);
      }
    }

    /** Evaluates a tree of build files from its root, then drops the includes from the lists.
        The ghost result holds the lists as they were before the drop.  Any set closed under naming from the root
        tells beforehand which files matter: the run visits no other, and if they evaluate, it visits all that are
        listed. */
    method Eval(dir: string, ghost named: set<string>) returns (ok: bool, ghost full: Lists)
      requires Valid()
      modifies this
      ensures Valid() && old(visited) <= visited && old(log) <= log
      ensures ok ==> lists == map ident | ident in full :: full[ident] - world.dirs
      ensures ok == Evaluable(world, dir)
      ensures AllEvaluable(world, visited) && ok ==> Closed(world, full, visited)
      ensures old(lists) == map[] && old(visited) == {} && NamesClosed(world, dir, named) ==>
                visited <= named && (ok && AllEvaluable(world, named) ==> Closed(world, full, visited))
      ensures ok && Barren(world, ApplyAll(world, old(lists), dir, world.parse(dir).value)) ==>
                full == ApplyAll(world, old(lists), dir, world.parse(dir).value) && |log| <= |old(log)| + |full|
      ensures old(lists) == map[] && old(visited) == {} && old(applied) == {} && AllAdd(world, dir, Closure(world, dir)) ==>
                && ok && visited == Closure(world, dir)
                && Sum(world, full, {dir} + Closure(world, dir))
    {
      ghost var adding := lists == map[] && visited == {} && applied == {} && AllAdd(world, dir, Closure(world, dir));
      ghost var reach := Closure(world, dir);
      ClosureIsClosed(world, dir);
      assert adding ==> Adding(dir, reach);
      ok := EvalInternal(dir, dir, reach, named);
      full := lists;
      if adding {
        assert applied == {dir} + visited;
        ClosedIsClosure(world, dir, full, visited);
      }
      if ok {
        EraseAll();
      }
    }
  }

  /** Once every listed directory is visited, the visited directories are the whole closure. */
  lemma ClosedIsClosure(w: World, root: string, lists: Lists, visited: set<string>)
    requires Sum(w, lists, {root} + visited) && Closed(w, lists, visited)
    requires visited <= Closure(w, root)
    ensures visited == Closure(w, root)
  {
    ClosureIsClosed(w, root);
    assert IncludeClosed(w, root, visited) by {
      forall d, e | (d == root || d in visited) && Includes(w, d, e) ensures e in visited {
        var ident :| Adds(w, d, ident, e);
        assert d in {root} + visited && Adds(w, d, ident, e);
        assert Listed(lists, ident, e);
      }
    }
  }

  // ----- a failure that goes unseen -----

  /** A root whose one list names two directories without a file. */
  function TwoMissing(): World {
    World({"root", "a", "b"},
          (d: string) => if d == "root" then Some([AstNode("SRC", Add, ["a", "b"])]) else None,
          (d: string, e: string) => e)
  }

  lemma TwoMissingLists()
    ensures var w := TwoMissing();
            && Evaluable(w, "root") && ApplyAll(w, map[], "root", w.parse("root").value) == map["SRC" := {"a", "b"}]
            && Barren(w, map["SRC" := {"a", "b"}])
  {
    var w := TwoMissing();
    var entries := ["a", "b"];
    var node := AstNode("SRC", Add, entries);
    assert w.parse("root").value == [node];
    assert Paths(w, "root", entries) == {"a", "b"} by {
      assert w.canonical("root", entries[0]) == "a" && w.canonical("root", entries[1]) == "b";
    }
    var none: Lists := map[];
    assert entries != [] && Lookup(none, "SRC") + {"a", "b"} == {"a", "b"};
    assert Apply(w, none, "root", node) == none["SRC" := {"a", "b"}];
    assert [node][..0] == [] && ApplyAll(w, map[], "root", [node][..0]) == map[];
    assert |"a"| != |"root"| && |"b"| != |"root"|;
  }

  lemma OneOfTwo(log: seq<string>)
    requires |log| <= 1
    ensures "a" !in log || "b" !in log
  {
    assert "a"[0] != "b"[0];
  }

  /** Evaluation succeeds although a nested file fails, and leaves a listed directory unvisited. */
  method NestedFailureUnseen() returns (e: Evaluator, ok: bool, ghost full: Lists, ghost left: string)
    ensures ok && exists d :: d in e.visited && !Evaluable(e.world, d)
    ensures Listed(full, "SRC", left) && left in e.world.dirs && left !in e.visited
  {
    ghost var lists := map["SRC" := {"a", "b"}];
    TwoMissingLists();
    e := new Evaluator(TwoMissing());
    ok, full := e.Eval("root", {});
    assert full == lists && |lists| == 1;
    OneOfTwo(e.log);
    left := if "a" in e.log then "b" else "a";
    assert left in full["SRC"] && left !in e.visited;
  }
}
