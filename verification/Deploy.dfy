/** Deployment order: depth-first post-order over the dependency table, then first occurrences only. */
module Deploy {

  type Name = string

  const EXECUTOR_DAO: Name := "executor-dao"

  /** The `[contracts]` table of Clarinet.toml: its keys in file order, and `depends_on` where given. */
  datatype Table = Table(keys: seq<Name>, deps: map<Name, Depends>)
  datatype Depends = NoField | DependsOn(names: seq<Name>)

  datatype Result<+T> = Done(value: T) | NotFound(name: Name) | DaoDependency(name: Name) {
    predicate IsFailure() {
      !Done?
    }
    function PropagateFailure<U>(): Result<U>
      requires IsFailure()
    {
      if NotFound? then NotFound(name) else DaoDependency(name)
    }
    function Extract(): T
      requires Done?
    {
      value
    }
  }

  ghost predicate TableValid(t: Table) {
    forall name :: name in t.keys <==> name in t.deps
  }

  function DepsOf(t: Table, name: Name): seq<Name> {
    if name in t.deps && t.deps[name].DependsOn? then t.deps[name].names else []
  }

  /** A rank that falls along every dependency inside the table: the table is acyclic. */
  ghost predicate Ranked(t: Table, rank: Name -> nat) {
    forall name, d :: name in t.deps && d in DepsOf(t, name) && d in t.deps ==> rank(d) < rank(name)
  }

  function Depth(t: Table, rank: Name -> nat, name: Name): nat {
    if name in t.deps then rank(name) + 1 else 0
  }

  function FindDeps(t: Table, rank: Name -> nat, name: Name): Result<seq<Name>>
    requires Ranked(t, rank)
    decreases Depth(t, rank, name), 1, 0
  {
    if name !in t.deps then NotFound(name)
    else if t.deps[name].NoField? then Done([name])
    else if EXECUTOR_DAO in t.deps[name].names then DaoDependency(name)
    else
      var before :- FindAll(t, rank, t.deps[name].names, Depth(t, rank, name));
      Done(before + [name])
  }

  /** `names.flatMap(findDeps)`. */
  function FindAll(t: Table, rank: Name -> nat, names: seq<Name>, bound: nat): Result<seq<Name>>
    requires Ranked(t, rank) && forall d :: d in names ==> Depth(t, rank, d) < bound
    decreases bound, 0, |names|
  {
    if names == [] then Done([])
    else
      var first :- FindDeps(t, rank, names[0]);
      var rest :- FindAll(t, rank, names[1..], bound);
      Done(first + rest)
  }

  /** lodash `uniq`: the first occurrence of each value stays. */
  function Uniq(s: seq<Name>): (u: seq<Name>)
    ensures forall x :: x in u <==> x in s
  {
    if s == [] then []
    else
      var u, x := Uniq(s[..|s| - 1]), s[|s| - 1];
      assert s == s[..|s| - 1] + [x];
      if x in u then u else u + [x]
  }

  function Chosen(keys: seq<Name>, wanted: set<Name>): (r: seq<Name>)
    ensures forall x :: x in r <==> x in keys && x in wanted
  {
    if keys == [] then []
    else (if keys[0] in wanted then [keys[0]] else []) + Chosen(keys[1..], wanted)
  }

  function MaxDepth(t: Table, rank: Name -> nat, names: seq<Name>): (r: nat)
    ensures forall d :: d in names ==> Depth(t, rank, d) < r
  {
    if names == [] then 0
    else
      var rest, d := MaxDepth(t, rank, names[1..]), Depth(t, rank, names[0]) + 1;
      if d > rest then d else rest
  }

  /** mapContractsToDeployTarget, up to the file paths. Wanted names that are not table keys are ignored. */
  function DeployOrder(t: Table, rank: Name -> nat, wanted: set<Name>): Result<seq<Name>>
    requires Ranked(t, rank)
  {
    var keys := Chosen(t.keys, wanted);
    var names :- FindAll(t, rank, keys, MaxDepth(t, rank, keys));
    Done(Uniq(names))
  }

  // ---------- reachability ----------

  /** Each element is a dependency of the one before it. */
  ghost predicate IsPath(t: Table, p: seq<Name>) {
    |p| >= 1 && forall i :: 0 <= i < |p| - 1 ==> p[i + 1] in DepsOf(t, p[i])
  }

  ghost predicate Leads(t: Table, a: Name, b: Name, p: seq<Name>) {
    IsPath(t, p) && p[0] == a && p[|p| - 1] == b
  }

  /** `b` is `a` or one of its direct or indirect dependencies. */
  ghost predicate Reaches(t: Table, a: Name, b: Name) {
    exists p :: Leads(t, a, b, p)
  }

  lemma ReachesSelf(t: Table, a: Name)
    ensures Reaches(t, a, a)
  {
    assert Leads(t, a, a, [a]);
  }

  lemma ReachesCons(t: Table, a: Name, d: Name, b: Name)
    requires d in DepsOf(t, a) && Reaches(t, d, b)
    ensures Reaches(t, a, b)
  {
    var p :| Leads(t, d, b, p);
    assert Leads(t, a, b, [a] + p);
  }

  lemma ReachesFirst(t: Table, a: Name, b: Name) returns (d: Name)
    requires Reaches(t, a, b) && a != b
    ensures d in DepsOf(t, a) && Reaches(t, d, b)
  {
    var p :| Leads(t, a, b, p);
    d := p[1];
    assert Leads(t, d, b, p[1..]);
  }

  ghost predicate Broken(t: Table, name: Name) {
    name !in t.deps || EXECUTOR_DAO in DepsOf(t, name)
  }

  /** Some contract among `names` or below them is missing or depends on executor-dao. */
  ghost predicate ReachesBroken(t: Table, names: seq<Name>) {
    exists k, x :: k in names && Broken(t, x) && Reaches(t, k, x)
  }

  /** Every dependency of an element stands before it. */
  ghost predicate DepsBefore(t: Table, s: seq<Name>) {
    forall i, d :: 0 <= i < |s| && d in DepsOf(t, s[i]) ==> d in s[..i]
  }

  lemma DepsBeforeConcat(t: Table, a: seq<Name>, b: seq<Name>)
    requires DepsBefore(t, a) && DepsBefore(t, b)
    ensures DepsBefore(t, a + b)
  {
    forall i, d | 0 <= i < |a + b| && d in DepsOf(t, (a + b)[i]) ensures d in (a + b)[..i] {
      if i < |a| {
        assert (a + b)[..i] == a[..i];
      } else {
        assert (a + b)[..i] == a + b[..i - |a|];
        assert d in b[..i - |a|];
      }
    }
  }

  lemma DepsBeforeSnoc(t: Table, a: seq<Name>, x: Name)
    requires DepsBefore(t, a) && forall d :: d in DepsOf(t, x) ==> d in a
    ensures DepsBefore(t, a + [x])
  {
    forall i, d | 0 <= i < |a + [x]| && d in DepsOf(t, (a + [x])[i]) ensures d in (a + [x])[..i] {
      assert (a + [x])[..i] == a[..i];
      if i == |a| {
        assert a[..i] == a;
      }
    }
  }

  ghost predicate PostOrder(t: Table, names: seq<Name>, r: Result<seq<Name>>) {
    && (r.Done? <==> !ReachesBroken(t, names))
    && (r.Done? ==> DepsBefore(t, r.value))
    && (r.Done? ==> forall x :: x in r.value <==> exists k :: k in names && Reaches(t, k, x))
  }

  lemma FindDepsUnfold(t: Table, rank: Name -> nat, name: Name)
    requires Ranked(t, rank)
    ensures Broken(t, name) ==> !FindDeps(t, rank, name).Done?
    ensures !Broken(t, name) ==>
      var r, below := FindDeps(t, rank, name), FindAll(t, rank, DepsOf(t, name), Depth(t, rank, name));
      (r.Done? <==> below.Done?) && (r.Done? ==> r.value == below.value + [name])
  {
  }

  lemma BrokenSelf(t: Table, name: Name)
    requires Broken(t, name)
    ensures ReachesBroken(t, [name])
  {
    ReachesSelf(t, name);
    assert name in [name];
  }

  lemma DepsAreLower(t: Table, rank: Name -> nat, name: Name)
    requires Ranked(t, rank) && name in t.deps
    ensures forall d :: d in DepsOf(t, name) ==> Depth(t, rank, d) < Depth(t, rank, name)
  {
  }

  /** A name after the post-order of its dependencies is in post-order. */
  lemma AppendSelf(t: Table, name: Name, below: seq<Name>)
    requires !Broken(t, name) && PostOrder(t, DepsOf(t, name), Done(below))
    ensures PostOrder(t, [name], Done(below + [name]))
  {
    hide Reaches, ReachesBroken, DepsBefore, DepsOf;
    BelowOne(t, name);
    forall d | d in DepsOf(t, name) ensures d in below { ReachesSelf(t, d); }
    DepsBeforeSnoc(t, below, name);
    forall x ensures x in below + [name] <==> exists k :: k in [name] && Reaches(t, k, x) {
      OneBelow(t, name, x);
      assert x in below <==> exists d :: d in DepsOf(t, name) && Reaches(t, d, x);
    }
  }

  lemma {:induction false} FindDepsExact(t: Table, rank: Name -> nat, name: Name)
    requires Ranked(t, rank)
    ensures PostOrder(t, [name], FindDeps(t, rank, name))
    decreases Depth(t, rank, name), 1, 0
  {
    hide FindDeps, FindAll, Reaches, ReachesBroken, DepsBefore;
    FindDepsUnfold(t, rank, name);
    if Broken(t, name) {
      BrokenSelf(t, name);
    } else {
      DepsAreLower(t, rank, name);
      FindAllExact(t, rank, DepsOf(t, name), Depth(t, rank, name));
      var below := FindAll(t, rank, DepsOf(t, name), Depth(t, rank, name));
      if below.Done? {
        AppendSelf(t, name, below.value);
      } else {
        BelowOne(t, name);
      }
    }
  }

  /** Reaching from a name is being it or reaching from one of its dependencies. */
  lemma OneBelow(t: Table, name: Name, x: Name)
    ensures Reaches(t, name, x) <==> x == name || exists d :: d in DepsOf(t, name) && Reaches(t, d, x)
    ensures (exists k :: k in [name] && Reaches(t, k, x)) <==> Reaches(t, name, x)
  {
    if x == name {
      ReachesSelf(t, name);
    } else if Reaches(t, name, x) {
      var d := ReachesFirst(t, name, x);
    }
    if d :| d in DepsOf(t, name) && Reaches(t, d, x) {
      ReachesCons(t, name, d, x);
    }
    assert name in [name];
  }

  lemma BelowOne(t: Table, name: Name)
    requires !Broken(t, name)
    ensures ReachesBroken(t, [name]) <==> ReachesBroken(t, DepsOf(t, name))
  {
    if ReachesBroken(t, [name]) {
      var k, x :| k in [name] && Broken(t, x) && Reaches(t, k, x);
      OneBelow(t, name, x);
    }
    if ReachesBroken(t, DepsOf(t, name)) {
      var k, x :| k in DepsOf(t, name) && Broken(t, x) && Reaches(t, k, x);
      OneBelow(t, name, x);
      assert name in [name];
    }
  }

  lemma {:induction false} FindAllExact(t: Table, rank: Name -> nat, names: seq<Name>, bound: nat)
    requires Ranked(t, rank) && forall d :: d in names ==> Depth(t, rank, d) < bound
    ensures PostOrder(t, names, FindAll(t, rank, names, bound))
    decreases bound, 0, |names|
  {
    if names != [] {
      FindDepsExact(t, rank, names[0]);
      FindAllExact(t, rank, names[1..], bound);
      assert names == [names[0]] + names[1..];
      var first, rest := FindDeps(t, rank, names[0]), FindAll(t, rank, names[1..], bound);
      if first.Done? && rest.Done? {
        DepsBeforeConcat(t, first.value, rest.value);
      }
    }
  }

  /** A failure names its cause: a contract at or below the names that is missing, or one that depends on
      executor-dao. */
  ghost predicate NamesCause(t: Table, names: seq<Name>, r: Result<seq<Name>>) {
    && (r.NotFound? ==> r.name !in t.deps && exists k :: k in names && Reaches(t, k, r.name))
    && (r.DaoDependency? ==>
          r.name in t.deps && "executor-dao" in DepsOf(t, r.name) && exists k :: k in names && Reaches(t, k, r.name))
  }

  lemma {:induction false} FindDepsFails(t: Table, rank: Name -> nat, name: Name)
    requires Ranked(t, rank)
    ensures NamesCause(t, [name], FindDeps(t, rank, name))
    decreases Depth(t, rank, name), 1, 0
  {
    hide Reaches;
    ReachesSelf(t, name);
    assert name in [name];
    if name in t.deps && t.deps[name].DependsOn? && EXECUTOR_DAO !in t.deps[name].names {
      DepsAreLower(t, rank, name);
      FindAllFails(t, rank, t.deps[name].names, Depth(t, rank, name));
      var below := FindAll(t, rank, t.deps[name].names, Depth(t, rank, name));
      if !below.Done? {
        var d :| d in DepsOf(t, name) && Reaches(t, d, below.name);
        ReachesCons(t, name, d, below.name);
      }
    }
  }

  lemma {:induction false} FindAllFails(t: Table, rank: Name -> nat, names: seq<Name>, bound: nat)
    requires Ranked(t, rank) && forall d :: d in names ==> Depth(t, rank, d) < bound
    ensures NamesCause(t, names, FindAll(t, rank, names, bound))
    decreases bound, 0, |names|
  {
    hide Reaches;
    if names != [] {
      FindDepsFails(t, rank, names[0]);
      FindAllFails(t, rank, names[1..], bound);
      assert names == [names[0]] + names[1..];
    }
  }

  lemma DeployFailure(t: Table, rank: Name -> nat, wanted: set<Name>)
    requires Ranked(t, rank)
    ensures NamesCause(t, Chosen(t.keys, wanted), DeployOrder(t, rank, wanted))
  {
    hide FindAll, Reaches, Chosen;
    var keys := Chosen(t.keys, wanted);
    FindAllFails(t, rank, keys, MaxDepth(t, rank, keys));
  }

  predicate NoDuplicates(s: seq<Name>) {
    forall i, j :: 0 <= i < j < |s| ==> s[i] != s[j]
  }

  lemma {:induction false} UniqKeepsOrder(t: Table, s: seq<Name>)
    requires DepsBefore(t, s)
    ensures NoDuplicates(Uniq(s)) && DepsBefore(t, Uniq(s))
  {
    if s != [] {
      var init, x := s[..|s| - 1], s[|s| - 1];
      assert DepsBefore(t, init) by {
        assert forall i :: 0 <= i < |init| ==> init[i] == s[i] && init[..i] == s[..i];
      }
      UniqKeepsOrder(t, init);
      if x !in Uniq(init) {
        DepsBeforeSnoc(t, Uniq(init), x);
      }
    }
  }

  /** The deployment order of an acyclic table: it exists exactly when nothing needed is missing or depends
      on executor-dao, and then lists exactly the wanted contracts and all they need, each once, every
      dependency before its dependents. */
  lemma DeployOrderTopological(t: Table, rank: Name -> nat, wanted: set<Name>)
    requires TableValid(t) && Ranked(t, rank)
    ensures var r, keys := DeployOrder(t, rank, wanted), Chosen(t.keys, wanted);
      && (r.Done? <==> !ReachesBroken(t, keys))
      && (r.Done? ==>
           && NoDuplicates(r.value)
           && DepsBefore(t, r.value)
           && forall x :: x in r.value <==> exists k :: k in wanted && k in t.deps && Reaches(t, k, x))
  {
    hide FindAll, Reaches, ReachesBroken, Chosen, DepsOf;
    var keys := Chosen(t.keys, wanted);
    FindAllExact(t, rank, keys, MaxDepth(t, rank, keys));
    var names := FindAll(t, rank, keys, MaxDepth(t, rank, keys));
    if names.Done? {
      UniqKeepsOrder(t, names.value);
    }
  }
}
