/** The dependency resolver (Injector.java), with reflection replaced by an
    abstract class universe: the set of loadable class names, the pairs
    (class, supertype) that `isAssignableFrom` accepts besides a class itself,
    and for each class with a public constructor the parameter type names of
    its first constructor. */
module Injector {
  import opened Wrappers

  datatype Universe = Universe(
    classes: set<string>,
    subtypeOf: set<(string, string)>,
    constructors: map<string, seq<string>>)

  /** `target.isAssignableFrom(candidate)`: a class is assignable to itself and
      to the supertypes the universe records. */
  predicate Assignable(u: Universe, target: string, candidate: string) {
    candidate == target || (candidate, target) in u.subtypeOf
  }

  /** The exceptions `initialize` can throw. `NoPublicConstructor` is the
      ArrayIndexOutOfBoundsException of `getConstructors()[0]`. */
  datatype Error =
    | ClassNotFound(name: string)
    | AmbiguousImplementation
    | ImplementationNotFound
    | InjectionCycle
    | NoPublicConstructor(name: string)

  /** An object created by the injector: its class and the creation indices of
      the arguments passed to its constructor. */
  datatype Instance = Instance(cls: string, args: seq<nat>)

  /** Number of entries of `s` assignable to `target`. */
  function CountAssignable(u: Universe, target: string, s: seq<string>): (n: nat)
    ensures n <= |s|
    decreases |s|
  {
    if s == [] then 0
    else CountAssignable(u, target, s[..|s| - 1]) + (if Assignable(u, target, s[|s| - 1]) then 1 else 0)
  }

  /** Every entry of `s` names a loadable class. */
  predicate AllLoadable(u: Universe, s: seq<string>) {
    forall k :: 0 <= k < |s| ==> s[k] in u.classes
  }

  /** The selection loop of `initializeInContext` from position `i` on, having
      found `found` so far: each candidate is loaded (ClassNotFound otherwise);
      a second assignable candidate is ambiguous; none at all is not found. */
  function SelectFrom(u: Universe, target: string, cands: seq<string>, i: nat, found: Option<string>): (r: Result<string, Error>)
    requires i <= |cands|
    requires found.Some? ==> found.value in cands && Assignable(u, target, found.value)
    ensures r.Success? ==> r.value in cands && Assignable(u, target, r.value)
    ensures r.Failure? ==> r.error.ClassNotFound? || r.error.AmbiguousImplementation? || r.error.ImplementationNotFound?
    decreases |cands| - i
  {
    if i == |cands| then
      if found.None? then Failure(ImplementationNotFound) else Success(found.value)
    else if cands[i] !in u.classes then Failure(ClassNotFound(cands[i]))
    else if !Assignable(u, target, cands[i]) then SelectFrom(u, target, cands, i + 1, found)
    else if found.Some? then Failure(AmbiguousImplementation)
    else SelectFrom(u, target, cands, i + 1, Some(cands[i]))
  }

  /** The implementation chosen for `target` among `cands`. */
  function Select(u: Universe, target: string, cands: seq<string>): (r: Result<string, Error>)
    ensures r.Success? ==> r.value in cands && Assignable(u, target, r.value)
    ensures target !in u.classes ==> r == Failure(ClassNotFound(target))
  {
    if target !in u.classes then Failure(ClassNotFound(target))
    else SelectFrom(u, target, cands, 0, None)
  }

  lemma {:induction false} SelectFromCounts(u: Universe, target: string, cands: seq<string>, i: nat, found: Option<string>)
    requires i <= |cands| && AllLoadable(u, cands)
    requires found.Some? ==> found.value in cands && Assignable(u, target, found.value)
    requires CountAssignable(u, target, cands[..i]) == (if found.Some? then 1 else 0)
    ensures var n := CountAssignable(u, target, cands);
            && (n == 0 <==> SelectFrom(u, target, cands, i, found) == Failure(ImplementationNotFound))
            && (n == 1 <==> SelectFrom(u, target, cands, i, found).Success?)
            && (n >= 2 <==> SelectFrom(u, target, cands, i, found) == Failure(AmbiguousImplementation))
    decreases |cands| - i
  {
    if i == |cands| {
      assert cands[..i] == cands;
    } else {
      assert cands[..i + 1][..i] == cands[..i];
      if !Assignable(u, target, cands[i]) {
        SelectFromCounts(u, target, cands, i + 1, found);
      } else if found.Some? {
        CountPrefixMonotone(u, target, cands, i + 1, |cands|);
        assert cands[..|cands|] == cands;
      } else {
        SelectFromCounts(u, target, cands, i + 1, Some(cands[i]));
      }
    }
  }

  lemma {:induction false} CountPrefixMonotone(u: Universe, target: string, s: seq<string>, i: nat, j: nat)
    requires i <= j <= |s|
    ensures CountAssignable(u, target, s[..i]) <= CountAssignable(u, target, s[..j])
    decreases j - i
  {
    if i < j {
      CountPrefixMonotone(u, target, s, i, j - 1);
      assert s[..j][..j - 1] == s[..j - 1];
    }
  }

  /** When every name involved is loadable, selection is decided by how many
      candidates are assignable: none is ImplementationNotFound, exactly one is
      that candidate, two or more is AmbiguousImplementation. */
  lemma SelectByCount(u: Universe, target: string, cands: seq<string>)
    requires target in u.classes && AllLoadable(u, cands)
    ensures var n := CountAssignable(u, target, cands);
            && (n == 0 <==> Select(u, target, cands) == Failure(ImplementationNotFound))
            && (n == 1 <==> Select(u, target, cands).Success?)
            && (n >= 2 <==> Select(u, target, cands) == Failure(AmbiguousImplementation))
  {
    assert cands[..0] == [];
    SelectFromCounts(u, target, cands, 0, None);
  }

  lemma {:induction false} CountPositive(u: Universe, target: string, s: seq<string>, k: nat)
    requires k < |s| && Assignable(u, target, s[k])
    ensures CountAssignable(u, target, s) >= 1
    decreases |s|
  {
    if k < |s| - 1 {
      CountPositive(u, target, s[..|s| - 1], k);
    }
  }

  /** `initialize` appends the root to the candidates, so a root that was
      already listed is found twice and resolving it is ambiguous. */
  lemma RootListedTwiceIsAmbiguous(u: Universe, root: string, impls: seq<string>)
    requires root in impls && root in u.classes && AllLoadable(u, impls)
    ensures Select(u, root, impls + [root]) == Failure(AmbiguousImplementation)
  {
    var cands := impls + [root];
    var k :| 0 <= k < |impls| && impls[k] == root;
    CountPositive(u, root, impls, k);
    assert cands[..|cands| - 1] == impls;
    SelectByCount(u, root, cands);
  }

  /** The object created `k`-th among `objs` was built by the first public
      constructor of its class: one argument per parameter, each created
      before it and of the class selected for that parameter's type. */
  ghost predicate WellBuilt(u: Universe, cands: seq<string>, objs: seq<Instance>, k: nat)
    requires k < |objs|
  {
    var obj := objs[k];
    && obj.cls in u.constructors
    && |obj.args| == |u.constructors[obj.cls]|
    && forall j :: 0 <= j < |obj.args| ==>
         obj.args[j] < k && Select(u, u.constructors[obj.cls][j], cands) == Success(objs[obj.args[j]].cls)
  }

  /** A chain of nested resolutions, as the recursion of
      `initializeInContext` walks it: every type after the first is a
      parameter type of the first public constructor of the class selected
      for the type before it. */
  ghost predicate DependencyPath(u: Universe, cands: seq<string>, ts: seq<string>) {
    && |ts| > 0
    && forall i :: 0 <= i < |ts| - 1 ==>
         && Select(u, ts[i], cands).Success?
         && Select(u, ts[i], cands).value in u.constructors
         && ts[i + 1] in u.constructors[Select(u, ts[i], cands).value]
  }

  /** Along `ts` the same class is selected twice: a dependency cycle. */
  ghost predicate Repeats(u: Universe, cands: seq<string>, ts: seq<string>) {
    exists i, j :: 0 <= i < j < |ts| && Select(u, ts[i], cands).Success? && Select(u, ts[i], cands) == Select(u, ts[j], cands)
  }

  /** Every chain of nested resolutions that continues `prefix` selects a
      class with a public constructor at its end, and never selects the same
      class twice. */
  ghost predicate ResolvableFrom(u: Universe, cands: seq<string>, prefix: seq<string>) {
    forall ts :: DependencyPath(u, cands, ts) && prefix <= ts ==>
      && Select(u, ts[|ts| - 1], cands).Success?
      && Select(u, ts[|ts| - 1], cands).value in u.constructors
      && !Repeats(u, cands, ts)
  }

  /** The error `e` has a cause on some chain of nested resolutions that
      continues `prefix`: a class selected twice for InjectionCycle, a
      selected class without a public constructor for NoPublicConstructor,
      and the failing selection at its end for the others. */
  ghost predicate Explains(u: Universe, cands: seq<string>, prefix: seq<string>, e: Error) {
    exists ts :: DependencyPath(u, cands, ts) && prefix <= ts && Cause(u, cands, ts, e)
  }

  ghost predicate Cause(u: Universe, cands: seq<string>, ts: seq<string>, e: Error)
    requires |ts| > 0
  {
    match e
    case InjectionCycle => Repeats(u, cands, ts)
    case NoPublicConstructor(c) => Select(u, ts[|ts| - 1], cands) == Success(c) && c !in u.constructors
    case _ => Select(u, ts[|ts| - 1], cands) == Failure(e)
  }

  /** A cause found on a continuation of a longer chain is one on a
      continuation of its prefix. */
  lemma ExplainsWiden(u: Universe, cands: seq<string>, prefix: seq<string>, longer: seq<string>, e: Error)
    requires Explains(u, cands, longer, e) && prefix <= longer
    ensures Explains(u, cands, prefix, e)
  {
    var ts :| DependencyPath(u, cands, ts) && longer <= ts && Cause(u, cands, ts, e);
    PrefixTransitive(prefix, longer, ts);
  }

  /** No error has a cause where every continuation resolves. */
  lemma ResolvableUnexplained(u: Universe, cands: seq<string>, prefix: seq<string>, e: Error)
    ensures ResolvableFrom(u, cands, prefix) ==> !Explains(u, cands, prefix, e)
  {
  }

  /** An injection cycle is explained by a chain that selects some class
      twice. */
  lemma CycleExplained(u: Universe, cands: seq<string>, prefix: seq<string>)
    requires Explains(u, cands, prefix, InjectionCycle)
    ensures exists ts :: DependencyPath(u, cands, ts) && prefix <= ts && Repeats(u, cands, ts)
  {
    var ts :| DependencyPath(u, cands, ts) && prefix <= ts && Cause(u, cands, ts, InjectionCycle);
    assert Repeats(u, cands, ts);
  }

  /** Every class marked as under construction in `ctx` was selected for
      one of the types of `trail`, the chain of calls still open. */
  /** Every entry of `before` is still in `after`, unchanged. */
  ghost predicate Extends(before: map<string, Option<nat>>, after: map<string, Option<nat>>) {
    forall c :: c in before ==> c in after && after[c] == before[c]
  }

  /** Marking a class that was not recorded and then keeping every other
      entry keeps every entry there was before the marking. */
  lemma ExtendsMarked(before: map<string, Option<nat>>, after: map<string, Option<nat>>, c: string)
    requires c !in before && Extends(before[c := None] - {c}, after)
    ensures Extends(before, after)
  {
    assert before[c := None] - {c} == before;
  }

  ghost predicate Pending(u: Universe, cands: seq<string>, ctx: map<string, Option<nat>>, trail: seq<string>) {
    forall c :: c in ctx && ctx[c].None? ==>
      exists i :: 0 <= i < |trail| && Select(u, trail[i], cands) == Success(c)
  }

  lemma PrefixTransitive(a: seq<string>, b: seq<string>, c: seq<string>)
    requires a <= b && b <= c
    ensures a <= c
  {
    assert c[..|b|][..|a|] == c[..|a|];
  }

  /** One link of a chain. */
  lemma PathStep(u: Universe, cands: seq<string>, ts: seq<string>, i: nat)
    requires DependencyPath(u, cands, ts) && i < |ts| - 1
    ensures Select(u, ts[i], cands).Success? && Select(u, ts[i], cands).value in u.constructors
    ensures ts[i + 1] in u.constructors[Select(u, ts[i], cands).value]
  {
  }

  /** A chain can go on with a parameter type of the class it ends at. */
  lemma PathExtend(u: Universe, cands: seq<string>, chain: seq<string>, p: string)
    requires DependencyPath(u, cands, chain)
    requires Select(u, chain[|chain| - 1], cands).Success?
    requires Select(u, chain[|chain| - 1], cands).value in u.constructors
    requires p in u.constructors[Select(u, chain[|chain| - 1], cands).value]
    ensures DependencyPath(u, cands, chain + [p])
  {
    var ts := chain + [p];
    forall i | 0 <= i < |ts| - 1
      ensures && Select(u, ts[i], cands).Success?
              && Select(u, ts[i], cands).value in u.constructors
              && ts[i + 1] in u.constructors[Select(u, ts[i], cands).value]
    {
      assert ts[i] == chain[i];
      if i < |chain| - 1 {
        assert ts[i + 1] == chain[i + 1];
      }
    }
  }

  /** Marking the class selected at the end of `chain` keeps the marked
      classes on the chain. */
  lemma PendingMark(u: Universe, cands: seq<string>, ctx: map<string, Option<nat>>, chain: seq<string>, c: string)
    requires |chain| > 0 && Pending(u, cands, ctx, chain[..|chain| - 1])
    requires Select(u, chain[|chain| - 1], cands) == Success(c)
    ensures Pending(u, cands, ctx[c := None], chain)
  {
    var trail := chain[..|chain| - 1];
    forall d | d in ctx[c := None] && ctx[c := None][d].None?
      ensures exists i :: 0 <= i < |chain| && Select(u, chain[i], cands) == Success(d)
    {
      if d != c {
        var i :| 0 <= i < |trail| && Select(u, trail[i], cands) == Success(d);
        assert chain[i] == trail[i];
      }
    }
  }

  /** Recording the object of the class selected at the end of `chain`
      leaves only the classes of the calls before it marked. */
  lemma PendingUnmark(u: Universe, cands: seq<string>, ctx: map<string, Option<nat>>, chain: seq<string>, c: string, k: nat)
    requires |chain| > 0 && Pending(u, cands, ctx, chain)
    requires Select(u, chain[|chain| - 1], cands) == Success(c)
    ensures Pending(u, cands, ctx[c := Some(k)], chain[..|chain| - 1])
  {
    var trail := chain[..|chain| - 1];
    forall d | d in ctx[c := Some(k)] && ctx[c := Some(k)][d].None?
      ensures exists i :: 0 <= i < |trail| && Select(u, trail[i], cands) == Success(d)
    {
      var i :| 0 <= i < |chain| && Select(u, chain[i], cands) == Success(d);
      assert i < |trail| && trail[i] == chain[i];
    }
  }

  /** A class with a constructor without parameters, given as the root with
      no other implementations: its only chain is itself, so it resolves. */
  lemma LeafResolves()
    ensures var u := Universe({"A"}, {}, map["A" := []]);
            ResolvableFrom(u, [] + ["A"], ["A"])
  {
    var u := Universe({"A"}, {}, map["A" := []]);
    var cands := [] + ["A"];
    assert cands[0] == "A" && "A" in u.classes && Assignable(u, "A", "A");
    assert SelectFrom(u, "A", cands, 1, Some("A")) == Success("A");
    assert SelectFrom(u, "A", cands, 0, None) == SelectFrom(u, "A", cands, 1, Some("A"));
    forall ts | DependencyPath(u, cands, ts) && ["A"] <= ts
      ensures && Select(u, ts[|ts| - 1], cands).Success?
              && Select(u, ts[|ts| - 1], cands).value in u.constructors
              && !Repeats(u, cands, ts)
    {
      assert ts[0] == "A";
      assert Select(u, ts[0], cands) == Success("A") && u.constructors["A"] == [];
      if |ts| > 1 {
        PathStep(u, cands, ts, 0);
        assert false;
      }
    }
  }

  /** Two classes whose constructors take each other: the chain A, B, A
      selects A twice, so an injection cycle has a cause. */
  lemma MutualDependencyRepeats()
    ensures var u := Universe({"A", "B"}, {}, map["A" := ["B"], "B" := ["A"]]);
            && DependencyPath(u, ["B"] + ["A"], ["A", "B", "A"])
            && Repeats(u, ["B"] + ["A"], ["A", "B", "A"])
  {
    var u := Universe({"A", "B"}, {}, map["A" := ["B"], "B" := ["A"]]);
    var cands, ts := ["B"] + ["A"], ["A", "B", "A"];
    assert cands[0] == "B" && cands[1] == "A";
    assert !Assignable(u, "A", "B") && !Assignable(u, "B", "A");
    assert SelectFrom(u, "A", cands, 2, Some("A")) == Success("A");
    assert SelectFrom(u, "A", cands, 1, None) == SelectFrom(u, "A", cands, 2, Some("A"));
    assert SelectFrom(u, "A", cands, 0, None) == SelectFrom(u, "A", cands, 1, None);
    assert SelectFrom(u, "B", cands, 2, Some("B")) == Success("B");
    assert SelectFrom(u, "B", cands, 1, Some("B")) == SelectFrom(u, "B", cands, 2, Some("B"));
    assert SelectFrom(u, "B", cands, 0, None) == SelectFrom(u, "B", cands, 1, Some("B"));
    assert ts[0] == ts[2];
  }

  /** Following a chain of nested resolutions through well-built objects:
      from an object of the class selected at position `i`, each later
      position has an object of its selected class, created at least one
      step earlier per link. */
  lemma {:induction false} Descends(u: Universe, cands: seq<string>, objs: seq<Instance>, ts: seq<string>, i: nat, ki: nat, j: nat)
    requires forall k :: 0 <= k < |objs| ==> WellBuilt(u, cands, objs, k)
    requires DependencyPath(u, cands, ts) && i <= j < |ts|
    requires ki < |objs| && Select(u, ts[i], cands) == Success(objs[ki].cls)
    ensures exists kj :: 0 <= kj < |objs| && kj + (j - i) <= ki && Select(u, ts[j], cands) == Success(objs[kj].cls)
    decreases j - i
  {
    if i < j {
      PathStep(u, cands, ts, i);
      var obj := objs[ki];
      assert WellBuilt(u, cands, objs, ki);
      var params := u.constructors[obj.cls];
      var p :| 0 <= p < |params| && params[p] == ts[i + 1];
      Descends(u, cands, objs, ts, i + 1, obj.args[p], j);
    }
  }

  /** Objects built this way, one per class, with one of the root's class:
      every chain of nested resolutions from the root reaches a class with a
      public constructor and never selects a class twice, since the creation
      indices fall strictly along the chain. */
  lemma BuiltResolvable(u: Universe, cands: seq<string>, objs: seq<Instance>, root: string, rk: nat)
    requires forall k :: 0 <= k < |objs| ==> WellBuilt(u, cands, objs, k)
    requires forall a, b :: 0 <= a < b < |objs| ==> objs[a].cls != objs[b].cls
    requires rk < |objs| && Select(u, root, cands) == Success(objs[rk].cls)
    ensures ResolvableFrom(u, cands, [root])
  {
    forall ts | DependencyPath(u, cands, ts) && [root] <= ts
      ensures && Select(u, ts[|ts| - 1], cands).Success?
              && Select(u, ts[|ts| - 1], cands).value in u.constructors
              && !Repeats(u, cands, ts)
    {
      assert ts[0] == root;
      Descends(u, cands, objs, ts, 0, rk, |ts| - 1);
      var kl :| 0 <= kl < |objs| && Select(u, ts[|ts| - 1], cands) == Success(objs[kl].cls);
      assert WellBuilt(u, cands, objs, kl);
      forall i, j | 0 <= i < j < |ts| && Select(u, ts[i], cands).Success?
        ensures Select(u, ts[i], cands) != Select(u, ts[j], cands)
      {
        Descends(u, cands, objs, ts, 0, rk, i);
        var ki :| 0 <= ki < |objs| && ki + i <= rk && Select(u, ts[i], cands) == Success(objs[ki].cls);
        Descends(u, cands, objs, ts, i, ki, j);
        var kj :| 0 <= kj < |objs| && kj + (j - i) <= ki && Select(u, ts[j], cands) == Success(objs[kj].cls);
        assert objs[kj].cls != objs[ki].cls;
      }
    }
  }

  /** A resolution in progress: the candidate list, the `context` map from
      class name to instance (None is the null sentinel that marks a class
      under construction), and the log of created objects. */
  class Injection {
    const universe: Universe
    const candidates: seq<string>
    var context: map<string, Option<nat>>
    var created: seq<Instance>

    ghost function CandidateSet(): set<string> {
      set c | c in candidates
    }

    /** The context only names candidates; every built entry points at an
        object of that class; every object is the built entry of its class;
        every object's arguments were created before it, one per parameter of
        its class's first constructor, each of the class selected for that
        parameter type. */
    ghost predicate Valid()
      reads this
    {
      && context.Keys <= CandidateSet()
      && (forall c :: c in context && context[c].Some? ==>
            context[c].value < |created| && created[context[c].value].cls == c)
      && (forall k :: 0 <= k < |created| ==>
            created[k].cls in context && context[created[k].cls] == Some(k))
      && (forall k :: 0 <= k < |created| ==> WellBuilt(universe, candidates, created, k))
    }

    constructor (u: Universe, cands: seq<string>)
      ensures universe == u && candidates == cands
      ensures context == map[] && created == []
      ensures Valid()
    {
      universe, candidates := u, cands;
      context, created := map[], [];
    }

    /** The search loop of `initializeInContext`. */
    method SelectImplementation(target: string) returns (r: Result<string, Error>)
      ensures r == Select(universe, target, candidates)
    {
      if target !in universe.classes {
        return Failure(ClassNotFound(target));
      }
      var solution: Option<string> := None;
      var i := 0;
      while i < |candidates|
        invariant 0 <= i <= |candidates|
        invariant solution.Some? ==> solution.value in candidates && Assignable(universe, target, solution.value)
        invariant Select(universe, target, candidates) == SelectFrom(universe, target, candidates, i, solution)
      {
        var candidate := candidates[i];
        if candidate !in universe.classes {
          return Failure(ClassNotFound(candidate));
        }
        if Assignable(universe, target, candidate) {
          if solution.Some? {
            return Failure(AmbiguousImplementation);
          }
          solution := Some(candidate);
        }
        i := i + 1;
      }
      if solution.None? {
        return Failure(ImplementationNotFound);
      }
      r := Success(solution.value);
    }

    lemma CandidatesShrink(before: set<string>, after: set<string>, c: string)
      requires before <= CandidateSet() && after <= CandidateSet()
      requires before + {c} <= after && c !in before
      ensures |CandidateSet() - after| < |CandidateSet() - before|
    {
      var all := CandidateSet();
      var gone := (all - before) - (all - after);
      assert c in gone;
      assert all - before == (all - after) + gone;
      assert (all - after) !! gone;
    }

    lemma CandidatesNoGrow(before: set<string>, after: set<string>)
      requires before <= after
      ensures |CandidateSet() - after| <= |CandidateSet() - before|
    {
      var all := CandidateSet();
      var gone := (all - before) - (all - after);
      assert all - before == (all - after) + gone;
      assert (all - after) !! gone;
    }

    /** `initializeInContext`: select the implementation, return the object
        already built for it, fail on a class still under construction, or
        else construct it. */
    method InitializeInContext(name: string, ghost trail: seq<string>) returns (r: Result<nat, Error>)
      requires Valid()
      requires DependencyPath(universe, candidates, trail + [name]) && Pending(universe, candidates, context, trail)
      modifies this
      ensures Valid()
      ensures Extends(old(context), context)
      ensures |old(created)| <= |created| && forall k :: 0 <= k < |old(created)| ==> created[k] == old(created)[k]
      ensures Select(universe, name, candidates).Failure? ==>
                r == Failure(Select(universe, name, candidates).error)
      ensures Select(universe, name, candidates).Success? ==>
                var cls := Select(universe, name, candidates).value;
                && (cls in old(context) && old(context)[cls].None? ==> r == Failure(InjectionCycle))
                && (cls in old(context) && old(context)[cls].Some? ==>
                      r == Success(old(context)[cls].value) && context == old(context) && created == old(created))
                && (r.Success? ==> r.value < |created| && created[r.value].cls == cls && context[cls] == Some(r.value))
      ensures r.Success? ==> Pending(universe, candidates, context, trail)
      ensures r.Failure? ==> Explains(universe, candidates, trail + [name], r.error)
      decreases |CandidateSet() - context.Keys|, 1
    {
      ghost var chain := trail + [name];
      assert chain[|chain| - 1] == name && chain[..|chain| - 1] == trail;
      var selected := SelectImplementation(name);
      if selected.Failure? {
        assert chain <= chain && Cause(universe, candidates, chain, selected.error);
        return Failure(selected.error);
      }
      var className := selected.value;
      if className in context {
        var instance := context[className];
        if instance.None? {
          ghost var i :| 0 <= i < |trail| && Select(universe, trail[i], candidates) == Success(className);
          assert chain[i] == trail[i];
          assert chain <= chain && Cause(universe, candidates, chain, InjectionCycle);
          return Failure(InjectionCycle);
        }
        return Success(instance.value);
      }
      r := Construct(className, chain);
    }

    /** The rest of `initializeInContext` for a class not yet in the context:
        mark it as under construction, build the arguments of its first public
        constructor in declaration order, create it and record it. The
        recursion ends because every nested call starts with one more
        candidate marked in the context. */
    method Construct(className: string, ghost chain: seq<string>) returns (r: Result<nat, Error>)
      requires Valid() && className in CandidateSet() && className !in context
      requires DependencyPath(universe, candidates, chain) && Select(universe, chain[|chain| - 1], candidates) == Success(className)
      requires Pending(universe, candidates, context, chain[..|chain| - 1])
      modifies this
      ensures Valid()
      ensures Extends(old(context), context)
      ensures |old(created)| <= |created| && forall k :: 0 <= k < |old(created)| ==> created[k] == old(created)[k]
      ensures className !in universe.constructors ==> r == Failure(NoPublicConstructor(className))
      ensures r.Success? ==> r.value < |created| && created[r.value].cls == className && context[className] == Some(r.value)
      ensures r.Success? ==> Pending(universe, candidates, context, chain[..|chain| - 1])
      ensures r.Failure? ==> Explains(universe, candidates, chain, r.error)
      decreases |CandidateSet() - context.Keys|, 0
    {
      Mark(className, chain);
      r := Build(className, chain);
      ExtendsMarked(old(context), context, className);
    }

    /** `context.put(className, null)`: the class selected at the end of the
        chain is recorded as under construction, which leaves fewer classes
        unrecorded. */
    method Mark(className: string, ghost chain: seq<string>)
      requires Valid() && className in CandidateSet() && className !in context
      requires |chain| > 0 && Select(universe, chain[|chain| - 1], candidates) == Success(className)
      requires Pending(universe, candidates, context, chain[..|chain| - 1])
      modifies this`context
      ensures Valid()
      ensures context == old(context)[className := None]
      ensures Pending(universe, candidates, context, chain)
      ensures |CandidateSet() - context.Keys| < |CandidateSet() - old(context).Keys|
    {
      PendingMark(universe, candidates, context, chain, className);
      context := context[className := None];
      CandidatesShrink(old(context).Keys, context.Keys, className);
    }

    /** The part of `initializeInContext` after the class is marked: take
        its first public constructor, build the arguments, then create the
        object and record it. */
    method Build(className: string, ghost chain: seq<string>) returns (r: Result<nat, Error>)
      requires Valid()
      requires className in context && context[className] == None
      requires DependencyPath(universe, candidates, chain) && Select(universe, chain[|chain| - 1], candidates) == Success(className)
      requires Pending(universe, candidates, context, chain)
      modifies this
      ensures Valid()
      ensures Extends(old(context) - {className}, context)
      ensures |old(created)| <= |created| && forall k :: 0 <= k < |old(created)| ==> created[k] == old(created)[k]
      ensures className !in universe.constructors ==> r == Failure(NoPublicConstructor(className))
      ensures r.Success? ==> r.value < |created| && created[r.value].cls == className && context[className] == Some(r.value)
      ensures r.Failure? ==> className in context && context[className] == None
      ensures r.Success? ==> Pending(universe, candidates, context, chain[..|chain| - 1])
      ensures r.Failure? ==> Explains(universe, candidates, chain, r.error)
      decreases |CandidateSet() - context.Keys|, 4
    {
      if className !in universe.constructors {
        assert chain <= chain && Cause(universe, candidates, chain, NoPublicConstructor(className));
        return Failure(NoPublicConstructor(className));
      }
      var args := ResolveArguments(className, chain);
      if args.Failure? {
        return Failure(args.error);
      }
      PendingUnmark(universe, candidates, context, chain, className, |created|);
      var index := Create(className, args.value);
      r := Success(index);
    }

    /** The loop building `params`: each parameter type of the first public
        constructor of `className`, in declaration order, resolved in the
        context where `className` is marked as under construction. */
    method ResolveArguments(className: string, ghost chain: seq<string>) returns (r: Result<seq<nat>, Error>)
      requires Valid() && className in universe.constructors
      requires className in context && context[className] == None
      requires DependencyPath(universe, candidates, chain) && Select(universe, chain[|chain| - 1], candidates) == Success(className)
      requires Pending(universe, candidates, context, chain)
      modifies this
      ensures Valid()
      ensures Extends(old(context), context)
      ensures |old(created)| <= |created| && forall k :: 0 <= k < |old(created)| ==> created[k] == old(created)[k]
      ensures r.Success? ==>
                |r.value| == |universe.constructors[className]| && ArgumentsResolved(created, universe.constructors[className], r.value)
      ensures r.Success? ==> Pending(universe, candidates, context, chain)
      ensures r.Failure? ==> Explains(universe, candidates, chain, r.error)
      decreases |CandidateSet() - context.Keys|, 3
    {
      ghost var keysBefore := context.Keys;
      var paramTypes := universe.constructors[className];
      var args: seq<nat> := [];
      var i := 0;
      while i < |paramTypes|
        invariant 0 <= i <= |paramTypes| && |args| == i
        invariant Valid()
        invariant keysBefore <= context.Keys
        invariant Extends(old(context), context)
        invariant |old(created)| <= |created| && forall k :: 0 <= k < |old(created)| ==> created[k] == old(created)[k]
        invariant ArgumentsResolved(created, paramTypes, args)
        invariant Pending(universe, candidates, context, chain)
      {
        CandidatesNoGrow(keysBefore, context.Keys);
        PathExtend(universe, candidates, chain, paramTypes[i]);
        ghost var createdBefore := created;
        var sub := ResolveArgument(paramTypes[i], chain);
        if sub.Failure? {
          ExplainsWiden(universe, candidates, chain, chain + [paramTypes[i]], sub.error);
          return Failure(sub.error);
        }
        ArgumentsResolvedGrow(createdBefore, created, paramTypes, args, sub.value);
        args := args + [sub.value];
        i := i + 1;
      }
      r := Success(args);
    }

    /** One constructor argument: the nested `initializeInContext` call, seen
        from the context that is building the object. */
    method ResolveArgument(paramType: string, ghost chain: seq<string>) returns (r: Result<nat, Error>)
      requires Valid()
      requires DependencyPath(universe, candidates, chain + [paramType]) && Pending(universe, candidates, context, chain)
      modifies this
      ensures Valid()
      ensures Extends(old(context), context)
      ensures |old(created)| <= |created| && forall k :: 0 <= k < |old(created)| ==> created[k] == old(created)[k]
      ensures r.Success? ==> r.value < |created| && Select(universe, paramType, candidates) == Success(created[r.value].cls)
      ensures r.Success? ==> Pending(universe, candidates, context, chain)
      ensures r.Failure? ==> Explains(universe, candidates, chain + [paramType], r.error)
      decreases |CandidateSet() - context.Keys|, 2
    {
      r := InitializeInContext(paramType, chain);
    }

    /** The first |args| parameters of a constructor are resolved: each
        argument names an object in `objs` of the class selected for the
        parameter's type. */
    ghost predicate ArgumentsResolved(objs: seq<Instance>, paramTypes: seq<string>, args: seq<nat>) {
      && |args| <= |paramTypes|
      && forall j :: 0 <= j < |args| ==>
           args[j] < |objs| && Select(universe, paramTypes[j], candidates) == Success(objs[args[j]].cls)
    }

    lemma ArgumentsResolvedGrow(before: seq<Instance>, after: seq<Instance>, paramTypes: seq<string>, args: seq<nat>, next: nat)
      requires ArgumentsResolved(before, paramTypes, args) && |args| < |paramTypes|
      requires |before| <= |after| && forall k :: 0 <= k < |before| ==> after[k] == before[k]
      requires next < |after| && Select(universe, paramTypes[|args|], candidates) == Success(after[next].cls)
      ensures ArgumentsResolved(after, paramTypes, args + [next])
    {
    }

    /** Records a new object of class `className`, built from `args`, as the
        instance of that class. */
    method Create(className: string, args: seq<nat>) returns (index: nat)
      requires Valid()
      requires className in context && context[className] == None
      requires className in universe.constructors && |args| == |universe.constructors[className]|
      requires ArgumentsResolved(created, universe.constructors[className], args)
      modifies this
      ensures Valid()
      ensures index == |old(created)| && created == old(created) + [Instance(className, args)]
      ensures context == old(context)[className := Some(index)]
    {
      index := |created|;
      created := created + [Instance(className, args)];
      context := context[className := Some(index)];
      forall k | 0 <= k < |created| ensures WellBuilt(universe, candidates, created, k) {
        if k < index {
          assert WellBuilt(universe, candidates, old(created), k);
        }
      }
    }
  }

  /** `initialize`: resolve `rootClassName` with the root itself appended to the
      candidate list, in a fresh context. Returns the root object's index and
      every object created, at most one per class. */
  method Initialize(u: Universe, rootClassName: string, impls: seq<string>)
    returns (r: Result<nat, Error>, objects: seq<Instance>)
    ensures Select(u, rootClassName, impls + [rootClassName]).Failure? ==>
              r == Failure(Select(u, rootClassName, impls + [rootClassName]).error)
    ensures r.Success? ==>
              r.value < |objects| && objects[r.value].cls == Select(u, rootClassName, impls + [rootClassName]).value
    ensures forall a, b :: 0 <= a < b < |objects| ==> objects[a].cls != objects[b].cls
    ensures forall k, j :: 0 <= k < |objects| && 0 <= j < |objects[k].args| ==> objects[k].args[j] < k
    ensures forall k :: 0 <= k < |objects| ==> WellBuilt(u, impls + [rootClassName], objects, k)
    ensures r.Failure? ==> Explains(u, impls + [rootClassName], [rootClassName], r.error)
    ensures ResolvableFrom(u, impls + [rootClassName], [rootClassName]) <==> r.Success?
    ensures r == Failure(InjectionCycle) ==>
              exists ts :: DependencyPath(u, impls + [rootClassName], ts) && [rootClassName] <= ts && Repeats(u, impls + [rootClassName], ts)
  {
    var injection := new Injection(u, impls + [rootClassName]);
    assert [] + [rootClassName] == [rootClassName];
    r := injection.InitializeInContext(rootClassName, []);
    if r.Failure? {
      ResolvableUnexplained(u, impls + [rootClassName], [rootClassName], r.error);
      if r.error == InjectionCycle {
        CycleExplained(u, impls + [rootClassName], [rootClassName]);
      }
    }
    objects := injection.created;
    forall a, b | 0 <= a < b < |objects| ensures objects[a].cls != objects[b].cls {
      assert injection.context[objects[a].cls] == Some(a);
      assert injection.context[objects[b].cls] == Some(b);
    }
    forall k, j | 0 <= k < |objects| && 0 <= j < |objects[k].args| ensures objects[k].args[j] < k {
      assert WellBuilt(u, impls + [rootClassName], objects, k);
    }
    if r.Success? {
      BuiltResolvable(u, impls + [rootClassName], objects, rootClassName, r.value);
    }
  }
}
