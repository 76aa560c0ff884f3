/**
 * Which packages a preview release publishes (scripts/check-release-packages.ts): the packages bumped in
 * the branch, their releasable dependents, and then the releasable dependencies of all of those.
 *
 * `neededPackages` keeps insertion order and holds each package once, so it is a sequence here.
 * `deps` is what `getWorkspaceDeps` reads from the package files.
 */
module ReleaseClosure {
  import opened Sequences


  /** What a package depends on. */
  type Deps = string -> seq<string>

  /** Leads from one package to another. */
  type Edge = (string, string) -> bool

  /** From a package to one that depends on it. */
  function Dependents(deps: Deps): Edge {
    (pkg, dependent) => pkg in deps(dependent)
  }

  /** From a package to one it depends on. */
  function Dependencies(deps: Deps): Edge {
    (pkg, dependency) => dependency in deps(pkg)
  }

  /** No edge leads from the set to a releasable package outside it. */
  ghost predicate Closed(s: set<string>, releases: seq<string>, edge: Edge) {
    forall q, p | q in s && p in releases && edge(q, p) :: p in s
  }

  ghost predicate Contains(s: set<string>, packages: seq<string>) {
    forall p | p in packages :: p in s
  }

  /** `found` lists the least set that contains `base` and is closed. */
  ghost predicate IsClosure(found: seq<string>, base: seq<string>, releases: seq<string>, edge: Edge) {
    && (forall p | p in base :: p in found)
    && (forall q, p | q in found && p in releases && edge(q, p) :: p in found)
    && (forall s | Closed(s, releases, edge) && Contains(s, base) :: Contains(s, found))
  }

  predicate Distinct(packages: seq<string>) {
    forall i, j | 0 <= i < j < |packages| :: packages[i] != packages[j]
  }

  /** Adding to a set that keeps insertion order. */
  function Add(needed: seq<string>, pkg: string): (r: seq<string>)
    ensures Distinct(needed) ==> Distinct(r)
    ensures forall p :: p in r <==> p in needed || p == pkg
    ensures needed <= r
  {
    if pkg in needed then needed else needed + [pkg]
  }

  function Unique(packages: seq<string>): (r: seq<string>)
    ensures Distinct(r)
    ensures forall p :: p in r <==> p in packages
  {
    if packages == [] then [] else Add(Unique(packages[..|packages| - 1]), packages[|packages| - 1])
  }

  /** The first place of a package in a list. */
  predicate FirstAt(packages: seq<string>, pkg: string, i: nat) {
    i < |packages| && packages[i] == pkg && pkg !in packages[..i]
  }

  ghost predicate InThisOrder(packages: seq<string>, p: string, q: string) {
    exists a, b :: 0 <= a < b < |packages| && packages[a] == p && packages[b] == q
  }

  /** A set made of a list keeps the order in which its packages first appear there. */
  lemma {:induction false} UniqueKeepsOrder(packages: seq<string>, p: string, i: nat, q: string, j: nat)
    requires i < j && FirstAt(packages, p, i) && FirstAt(packages, q, j)
    ensures InThisOrder(Unique(packages), p, q)
    decreases |packages|
  {
    var front := packages[..|packages| - 1];
    var before, now := Unique(front), Unique(packages);
    assert now == Add(before, packages[|packages| - 1]);
    assert front[..i] == packages[..i] && front[i] == p;
    if j < |front| {
      assert front[..j] == packages[..j];
      UniqueKeepsOrder(front, p, i, q, j);
      var a, b :| 0 <= a < b < |before| && before[a] == p && before[b] == q;
      assert now[a] == p && now[b] == q;
    } else {
      assert front == packages[..j];
      assert p in front && p in before;
      var a :| 0 <= a < |before| && before[a] == p;
      assert now[a] == p && now[|before|] == q;
    }
  }

  // ----- the closure is what can be reached

  /** A path starts in `base` and goes along edges into releasable packages. */
  ghost predicate IsPath(path: seq<string>, base: seq<string>, releases: seq<string>, edge: Edge) {
    && path != [] && path[0] in base
    && forall i | 0 < i < |path| :: path[i] in releases && edge(path[i - 1], path[i])
  }

  ghost predicate Reachable(p: string, base: seq<string>, releases: seq<string>, edge: Edge) {
    exists path :: IsPath(path, base, releases, edge) && path[|path| - 1] == p
  }

  lemma ReachesOn(q: string, p: string, base: seq<string>, releases: seq<string>, edge: Edge)
    requires Reachable(q, base, releases, edge) && p in releases && edge(q, p)
    ensures Reachable(p, base, releases, edge)
  {
    var path :| IsPath(path, base, releases, edge) && path[|path| - 1] == q;
    var longer := path + [p];
    assert IsPath(longer, base, releases, edge) && longer[|longer| - 1] == p;
  }

  lemma {:induction false} PathStaysIn(path: seq<string>, found: seq<string>, base: seq<string>,
                                       releases: seq<string>, edge: Edge)
    requires IsClosure(found, base, releases, edge) && IsPath(path, base, releases, edge)
    ensures path[|path| - 1] in found
  {
    if |path| > 1 {
      PathStaysIn(path[..|path| - 1], found, base, releases, edge);
    }
  }

  /** The least closed set is exactly the packages some path reaches. */
  lemma ClosureIsReachable(found: seq<string>, base: seq<string>, releases: seq<string>, edge: Edge, p: string)
    requires IsClosure(found, base, releases, edge)
    ensures p in found <==> Reachable(p, base, releases, edge)
  {
    if Reachable(p, base, releases, edge) {
      var path :| IsPath(path, base, releases, edge) && path[|path| - 1] == p;
      PathStaysIn(path, found, base, releases, edge);
    }
    if p in found {
      var reached := set q | q in found && Reachable(q, base, releases, edge);
      forall q | q in base ensures q in reached {
        assert IsPath([q], base, releases, edge) && [q][0] == q;
      }
      forall q, r | q in reached && r in releases && edge(q, r) ensures r in reached {
        ReachesOn(q, r, base, releases, edge);
      }
      assert Closed(reached, releases, edge) && Contains(reached, base);
    }
  }

  // ----- the sweep

  predicate HasNeededDep(deps: seq<string>, needed: seq<string>) {
    exists dep :: dep in deps && dep in needed
  }

  lemma AddKeepsLeast(needed: seq<string>, pkg: string, q: string, base: seq<string>, releases: seq<string>, edge: Edge)
    requires q in needed && pkg in releases && edge(q, pkg)
    requires forall s | Closed(s, releases, edge) && Contains(s, base) :: Contains(s, needed)
    ensures forall s | Closed(s, releases, edge) && Contains(s, base) :: Contains(s, Add(needed, pkg))
  {
  }

  ghost function Missing(releases: seq<string>, needed: seq<string>): (m: set<string>) {
    set p | p in releases && p !in needed
  }

  /** One pass over the releasable packages; without a change there is nothing left to add. */
  method Sweep(start: seq<string>, ghost base: seq<string>, releases: seq<string>, deps: Deps)
    returns (needed: seq<string>, added: bool)
    requires Distinct(start)
    requires forall s | Closed(s, releases, Dependents(deps)) && Contains(s, base) :: Contains(s, start)
    ensures Distinct(needed) && forall p | p in start :: p in needed
    ensures forall s | Closed(s, releases, Dependents(deps)) && Contains(s, base) :: Contains(s, needed)
    ensures added ==> Missing(releases, needed) < Missing(releases, start)
    ensures !added ==> needed == start
    ensures !added ==> forall q, p | q in needed && p in releases && Dependents(deps)(q, p) :: p in needed
  {
    needed, added := start, false;
    for i := 0 to |releases|
      invariant Distinct(needed) && forall p | p in start :: p in needed
      invariant forall s | Closed(s, releases, Dependents(deps)) && Contains(s, base) :: Contains(s, needed)
      invariant added ==> Missing(releases, needed) < Missing(releases, start)
      invariant !added ==> needed == start
      invariant !added ==>
        forall j | 0 <= j < i :: releases[j] in needed || !HasNeededDep(deps(releases[j]), needed)
    {
      var pkg := releases[i];
      if pkg !in needed && HasNeededDep(deps(pkg), needed) {
        ghost var q :| q in deps(pkg) && q in needed;
        AddKeepsLeast(needed, pkg, q, base, releases, Dependents(deps));
        assert pkg in Missing(releases, needed) && pkg !in Missing(releases, Add(needed, pkg));
        assert Missing(releases, Add(needed, pkg)) <= Missing(releases, needed);
        needed := Add(needed, pkg);
        added := true;
      }
    }
    if !added {
      forall q, p | q in needed && p in releases && Dependents(deps)(q, p) ensures p in needed {
        var j :| 0 <= j < |releases| && releases[j] == p;
        assert q in deps(p);
      }
    }
  }

  /** Passes until one changes nothing: the least set with the branch packages and all their releasable dependents. */
  method WithDependents(branch: seq<string>, releases: seq<string>, deps: Deps) returns (needed: seq<string>)
    ensures Distinct(needed) && IsClosure(needed, branch, releases, Dependents(deps))
  {
    needed := Unique(branch);
    var added := true;
    while added
      invariant Distinct(needed) && forall p | p in branch :: p in needed
      invariant forall s | Closed(s, releases, Dependents(deps)) && Contains(s, branch) :: Contains(s, needed)
      invariant !added ==> forall q, p | q in needed && p in releases && Dependents(deps)(q, p) :: p in needed
      decreases Missing(releases, needed), added
    {
      needed, added := Sweep(needed, branch, releases, deps);
    }
  }

  // ----- the worklist

  /** Every releasable dependency of a package that has been handled is needed or waits in the queue. */
  ghost predicate Handled(pkg: string, needed: seq<string>, queue: seq<string>, releases: seq<string>, deps: Deps) {
    forall d | d in deps(pkg) && d in releases :: d in needed || d in queue
  }

  /** The pushes for one package: its releasable dependencies that are not needed yet, in order. */
  function Pushed(deps: seq<string>, needed: seq<string>, releases: seq<string>): (r: seq<string>)
    ensures forall d :: d in r <==> d in deps && d !in needed && d in releases
  {
    if deps == [] then []
    else (if deps[0] !in needed && deps[0] in releases then [deps[0]] else []) + Pushed(deps[1..], needed, releases)
  }

  lemma {:induction false} PushedAppend(deps: seq<string>, dep: string, needed: seq<string>, releases: seq<string>)
    ensures Pushed(deps + [dep], needed, releases)
         == Pushed(deps, needed, releases) + if dep !in needed && dep in releases then [dep] else []
  {
    if deps == [] {
      assert deps + [dep] == [dep];
    } else {
      assert (deps + [dep])[1..] == deps[1..] + [dep];
      PushedAppend(deps[1..], dep, needed, releases);
    }
  }

  method PushDependencies(queue: seq<string>, deps: seq<string>, needed: seq<string>, releases: seq<string>)
    returns (longer: seq<string>)
    ensures longer == queue + Pushed(deps, needed, releases)
  {
    longer := queue;
    for i := 0 to |deps|
      invariant longer == queue + Pushed(deps[..i], needed, releases)
    {
      PushedAppend(deps[..i], deps[i], needed, releases);
      assert deps[..i + 1] == deps[..i] + [deps[i]];
      Associate(queue, Pushed(deps[..i], needed, releases), [deps[i]]);
      if deps[i] !in needed && deps[i] in releases {
        longer := longer + [deps[i]];
      } else {
        assert Pushed(deps[..i], needed, releases) + [] == Pushed(deps[..i], needed, releases);
      }
    }
    assert deps[..|deps|] == deps;
  }

  /** The state of the worklist: what is needed so far, and what still waits. */
  ghost predicate Working(needed: seq<string>, queue: seq<string>, start: seq<string>, releases: seq<string>,
                          deps: Deps) {
    && Distinct(needed)
    && (forall p | p in start :: p in needed)
    && (forall p | p in queue :: p in needed || p in releases)
    && (forall p | p in needed :: p in queue || Handled(p, needed, queue, releases, deps))
    && (forall s | Closed(s, releases, Dependencies(deps)) && Contains(s, start) ::
          Contains(s, needed) && Contains(s, queue))
  }

  lemma StepHandles(needed: seq<string>, rest: seq<string>, pkg: string, p: string, start: seq<string>,
                    releases: seq<string>, deps: Deps)
    requires Working(needed, rest + [pkg], start, releases, deps) && p in Add(needed, pkg)
    ensures var longer := rest + Pushed(deps(pkg), Add(needed, pkg), releases);
      p in longer || Handled(p, Add(needed, pkg), longer, releases, deps)
  {
    var more := Add(needed, pkg);
    var longer := rest + Pushed(deps(pkg), more, releases);
    if p == pkg {
      assert Handled(p, more, longer, releases, deps);
    } else if p !in rest {
      assert p !in rest + [pkg] && Handled(p, needed, rest + [pkg], releases, deps);
      forall d | d in deps(p) && d in releases ensures d in more || d in longer {
        assert d in needed || d in rest + [pkg];
      }
    }
  }

  lemma StepStaysLeast(needed: seq<string>, rest: seq<string>, pkg: string, s: set<string>, start: seq<string>,
                       releases: seq<string>, deps: Deps)
    requires Working(needed, rest + [pkg], start, releases, deps)
    requires Closed(s, releases, Dependencies(deps)) && Contains(s, start)
    ensures Contains(s, Add(needed, pkg)) && Contains(s, rest + Pushed(deps(pkg), Add(needed, pkg), releases))
  {
    assert pkg in rest + [pkg] && Contains(s, needed) && Contains(s, rest + [pkg]);
    forall p | p in rest ensures p in s {
      assert p in rest + [pkg];
    }
    forall p | p in Pushed(deps(pkg), Add(needed, pkg), releases) ensures p in s {
      assert Dependencies(deps)(pkg, p);
    }
  }

  lemma StepKeepsWorking(needed: seq<string>, rest: seq<string>, pkg: string, start: seq<string>,
                         releases: seq<string>, deps: Deps)
    requires Working(needed, rest + [pkg], start, releases, deps)
    ensures Working(Add(needed, pkg), rest + Pushed(deps(pkg), Add(needed, pkg), releases), start, releases, deps)
  {
    var more := Add(needed, pkg);
    var longer := rest + Pushed(deps(pkg), more, releases);
    forall p | p in more ensures p in longer || Handled(p, more, longer, releases, deps) {
      StepHandles(needed, rest, pkg, p, start, releases, deps);
    }
    forall s | Closed(s, releases, Dependencies(deps)) && Contains(s, start)
      ensures Contains(s, more) && Contains(s, longer)
    {
      StepStaysLeast(needed, rest, pkg, s, start, releases, deps);
    }
    forall p | p in longer ensures p in more || p in releases {
      assert p in rest ==> p in rest + [pkg];
    }
  }

  /** A package is new, or it pushes nothing, or what it pushes is new: one of these makes progress. */
  lemma StepProgresses(needed: seq<string>, rest: seq<string>, pkg: string, releases: seq<string>, deps: Deps)
    requires pkg in needed || pkg in releases
    ensures var more := Add(needed, pkg);
      var pushed := Pushed(deps(pkg), more, releases);
      && (pkg !in needed ==> Missing(releases, more) < Missing(releases, needed))
      && (pkg in needed ==> more == needed)
      && (pushed == [] ==> rest + pushed == rest)
      && (pushed != [] ==> (rest + pushed)[|rest + pushed| - 1] !in more)
  {
    var more := Add(needed, pkg);
    assert pkg !in needed ==> pkg in Missing(releases, needed) && pkg !in Missing(releases, more);
    var pushed := Pushed(deps(pkg), more, releases);
    assert pushed != [] ==> pushed[|pushed| - 1] in pushed;
    assert pushed != [] ==> (rest + pushed)[|rest + pushed| - 1] == pushed[|pushed| - 1];
  }

  /**
   * The last of the queue is taken first. It ends, duplicates and cycles included, with the least set closed
   * under releasable dependencies.
   */
  method WithDependencies(start: seq<string>, releases: seq<string>, deps: Deps) returns (needed: seq<string>)
    requires Distinct(start)
    ensures Distinct(needed) && IsClosure(needed, start, releases, Dependencies(deps))
  {
    needed := start;
    var queue := start;
    while |queue| > 0
      invariant Working(needed, queue, start, releases, deps)
      decreases Missing(releases, needed), |queue| > 0 && queue[|queue| - 1] in needed, |queue|
    {
      var pkg, rest := queue[|queue| - 1], queue[..|queue| - 1];
      assert queue == rest + [pkg];
      StepKeepsWorking(needed, rest, pkg, start, releases, deps);
      StepProgresses(needed, rest, pkg, releases, deps);
      needed := Add(needed, pkg);
      queue := PushDependencies(rest, deps(pkg), needed, releases);
    }
    assert forall p | p in needed :: Handled(p, needed, queue, releases, deps);
  }

  /** The whole computation: dependents of the branch packages first, then the dependencies of them all. */
  method ReleasePackages(branch: seq<string>, releases: seq<string>, deps: Deps)
    returns (packages: seq<string>, ghost included: seq<string>)
    ensures Distinct(packages)
    ensures IsClosure(included, branch, releases, Dependents(deps))
    ensures IsClosure(packages, included, releases, Dependencies(deps))
  {
    var needed := WithDependents(branch, releases, deps);
    included := needed;
    packages := WithDependencies(needed, releases, deps);
  }

  /**
   * A package is published exactly if it is reached by going from a branch package up to releasable
   * dependents and from there down to releasable dependencies.
   */
  lemma PublishedIsReachable(packages: seq<string>, included: seq<string>, branch: seq<string>, releases: seq<string>,
                             deps: Deps, p: string)
    requires IsClosure(included, branch, releases, Dependents(deps))
    requires IsClosure(packages, included, releases, Dependencies(deps))
    ensures p in packages <==>
      exists q :: Reachable(q, branch, releases, Dependents(deps)) && Reachable(p, [q], releases, Dependencies(deps))
  {
    ClosureIsReachable(packages, included, releases, Dependencies(deps), p);
    if p in packages {
      var path :| IsPath(path, included, releases, Dependencies(deps)) && path[|path| - 1] == p;
      ClosureIsReachable(included, branch, releases, Dependents(deps), path[0]);
      assert IsPath(path, [path[0]], releases, Dependencies(deps));
    }
    if q :| Reachable(q, branch, releases, Dependents(deps)) && Reachable(p, [q], releases, Dependencies(deps)) {
      ClosureIsReachable(included, branch, releases, Dependents(deps), q);
      var path :| IsPath(path, [q], releases, Dependencies(deps)) && path[|path| - 1] == p;
      assert IsPath(path, included, releases, Dependencies(deps));
    }
  }
}
