/** The order of the workspace members: a post-order depth-first search over
    the package graph with one `seen` set shared by all searches. A package
    is listed after everything reachable from it that was not already seen;
    cycles are not detected, they only cut the search short. */
module TopoSort {
  import opened Wrappers
  import opened PackageGraph

  /** The two pieces of state `visit` mutates: the `seen` set and the
      `orderedPackages` list. */
  datatype VisitState = VisitState(seen: set<string>, order: seq<string>)

  predicate Distinct(s: seq<string>) {
    forall i, j :: 0 <= i < j < |s| ==> s[i] != s[j]
  }

  /** What holds between two calls of `visit`: seen packages are packages of
      the graph, and every listed package was seen and is listed once. */
  predicate Inv(g: Graph, st: VisitState) {
    st.seen <= g.Keys && (forall x :: x in st.order ==> x in st.seen) && Distinct(st.order)
  }

  /** Every dependency of every package is itself a package. */
  predicate Closed(g: Graph) {
    forall p, d :: p in g && d in g[p] ==> d in g
  }

  /** `after` continues `before`: more is seen, the list only grows at the
      end, and what it grows by is exactly what became seen. */
  ghost predicate Extends(before: VisitState, after: VisitState) {
    before.seen <= after.seen &&
    |before.order| <= |after.order| && after.order[..|before.order|] == before.order &&
    forall x :: x in after.order[|before.order|..] <==> x in after.seen && x !in before.seen
  }

  /** Every dependency of a listed package is listed before it. */
  predicate DepsFirst(g: Graph, order: seq<string>) {
    forall i, d :: 0 <= i < |order| && order[i] in g && d in g[order[i]] ==> d in order[..i]
  }

  /** A ranking that strictly decreases along every edge. */
  ghost predicate Ranked(g: Graph, rank: string -> nat) {
    forall p, d :: p in g && d in g[p] ==> rank(d) < rank(p)
  }

  ghost predicate Acyclic(g: Graph) {
    exists rank: string -> nat :: Ranked(g, rank)
  }

  lemma SubsetCard(a: set<string>, b: set<string>)
    requires a <= b
    ensures |a| <= |b|
    decreases |a|
  {
    if a != {} {
      var x :| x in a;
      SubsetCard(a - {x}, b - {x});
    }
  }

  lemma SeenShrinks(keys: set<string>, a: set<string>, b: set<string>)
    requires a <= b
    ensures |keys - b| <= |keys - a|
  {
    SubsetCard(keys - b, keys - a);
  }

  lemma SeenStrictlyShrinks(keys: set<string>, a: set<string>, x: string)
    requires x in keys && x !in a
    ensures |keys - (a + {x})| < |keys - a|
  {
    assert keys - a == (keys - (a + {x})) + {x};
  }

  /** Two calls in a row extend the state as one call would. */
  lemma ExtendsTrans(a: VisitState, b: VisitState, c: VisitState)
    requires Extends(a, b) && Extends(b, c)
    ensures Extends(a, c)
  {
    assert c.order[..|a.order|] == b.order[..|a.order|];
    assert c.order[|a.order|..] == b.order[|a.order|..] + c.order[|b.order|..];
  }

  /** Listing `pkg` once the visit of its dependencies returned: the
      state extends the one before `pkg` was marked as seen. */
  lemma ListingExtends(st: VisitState, st2: VisitState, pkg: string)
    requires pkg !in st.seen && pkg !in st2.order
    requires Extends(VisitState(st.seen + {pkg}, st.order), st2)
    ensures Extends(st, VisitState(st2.seen, st2.order + [pkg]))
  {
    var st3 := VisitState(st2.seen, st2.order + [pkg]);
    assert st3.order[..|st.order|] == st2.order[..|st.order|];
    assert st3.order[|st.order|..] == st2.order[|st.order|..] + [pkg];
  }

  /** `visit(pkg)`. Fails with the name of a package whose dependency set
      `pkgDeps.get(pkg)!` does not exist. */
  function Visit(g: Graph, pkg: string, st: VisitState): (r: Result<VisitState, string>)
    requires Inv(g, st)
    ensures r.Success? ==> Inv(g, r.value) && Extends(st, r.value) && pkg in r.value.seen
    ensures r.Failure? ==> r.error !in g && (r.error == pkg || exists p :: p in g && r.error in g[p])
    ensures Closed(g) && pkg in g ==> r.Success?
    decreases |g.Keys - st.seen|, 0, 0
  {
    if pkg in st.seen then Success(st)
    else if pkg !in g then Failure(pkg)
    else
      var st1 := VisitState(st.seen + {pkg}, st.order);
      SeenStrictlyShrinks(g.Keys, st.seen, pkg);
      match VisitAll(g, g[pkg], st1)
      case Failure(e) => Failure(e)
      case Success(st2) =>
        var st3 := VisitState(st2.seen, st2.order + [pkg]);
        ListingExtends(st, st2, pkg);
        Success(st3)
  }

  /** `for (const dep of deps) visit(dep)`, stopping at the first failure. */
  function VisitAll(g: Graph, deps: seq<string>, st: VisitState): (r: Result<VisitState, string>)
    requires Inv(g, st)
    ensures r.Success? ==> Inv(g, r.value) && Extends(st, r.value)
    ensures r.Success? ==> forall d :: d in deps ==> d in r.value.seen
    ensures r.Failure? ==> r.error !in g && (r.error in deps || exists p :: p in g && r.error in g[p])
    ensures Closed(g) && (forall d :: d in deps ==> d in g) ==> r.Success?
    decreases |g.Keys - st.seen|, 1, |deps|
  {
    if |deps| == 0 then Success(st)
    else
      match Visit(g, deps[0], st)
      case Failure(e) => Failure(e)
      case Success(st1) =>
        SeenShrinks(g.Keys, st.seen, st1.seen);
        match VisitAll(g, deps[1..], st1)
        case Failure(e) => Failure(e)
        case Success(st2) =>
          ExtendsTrans(st, st1, st2);
          assert forall d :: d in deps ==> d == deps[0] || d in deps[1..];
          Success(st2)
  }

  /** Every package that is seen but not yet listed (the packages whose
      `visit` is still running) ranks above `n`. */
  ghost predicate GrayAbove(st: VisitState, rank: string -> nat, n: nat) {
    forall x :: x in st.seen && x !in st.order ==> rank(x) > n
  }

  /** On a ranked graph, `visit(pkg)` lists `pkg` and keeps every listed
      package after its dependencies. */
  lemma {:induction false} VisitRanked(g: Graph, rank: string -> nat, pkg: string, st: VisitState)
    requires Inv(g, st) && Ranked(g, rank) && DepsFirst(g, st.order)
    requires GrayAbove(st, rank, rank(pkg))
    requires Visit(g, pkg, st).Success?
    ensures DepsFirst(g, Visit(g, pkg, st).value.order)
    ensures pkg in Visit(g, pkg, st).value.order
    decreases |g.Keys - st.seen|, 0, 0
  {
    if pkg !in st.seen {
      var st1 := VisitState(st.seen + {pkg}, st.order);
      SeenStrictlyShrinks(g.Keys, st.seen, pkg);
      assert forall d :: d in g[pkg] ==> GrayAbove(st1, rank, rank(d));
      VisitAllRanked(g, rank, g[pkg], st1);
      DepsFirstAppend(g, VisitAll(g, g[pkg], st1).value.order, pkg);
    }
  }

  /** Listing a package whose dependencies are all listed keeps the order
      dependencies-first. */
  lemma DepsFirstAppend(g: Graph, order: seq<string>, p: string)
    requires DepsFirst(g, order)
    requires p in g ==> forall d :: d in g[p] ==> d in order
    ensures DepsFirst(g, order + [p])
  {
    var o := order + [p];
    forall i, d | 0 <= i < |o| && o[i] in g && d in g[o[i]]
      ensures d in o[..i]
    {
      if i < |order| {
        assert o[..i] == order[..i];
      } else {
        assert o[..i] == order;
      }
    }
  }

  lemma {:induction false} VisitAllRanked(g: Graph, rank: string -> nat, deps: seq<string>, st: VisitState)
    requires Inv(g, st) && Ranked(g, rank) && DepsFirst(g, st.order)
    requires forall d :: d in deps ==> GrayAbove(st, rank, rank(d))
    requires VisitAll(g, deps, st).Success?
    ensures DepsFirst(g, VisitAll(g, deps, st).value.order)
    ensures forall d :: d in deps ==> d in VisitAll(g, deps, st).value.order
    decreases |g.Keys - st.seen|, 1, |deps|
  {
    if |deps| > 0 {
      VisitRanked(g, rank, deps[0], st);
      var st1 := Visit(g, deps[0], st).value;
      SeenShrinks(g.Keys, st.seen, st1.seen);
      forall d | d in deps[1..]
        ensures GrayAbove(st1, rank, rank(d))
      {
        assert d in deps;
        GrayStays(st, st1, rank, rank(d));
      }
      VisitAllRanked(g, rank, deps[1..], st1);
      var st2 := VisitAll(g, deps[1..], st1).value;
      ListedStays(st1, st2, deps[0]);
      assert forall d :: d in deps ==> d == deps[0] || d in deps[1..];
    }
  }

  /** A call that returns leaves the set of running visits as it was. */
  lemma GrayStays(st: VisitState, st1: VisitState, rank: string -> nat, n: nat)
    requires forall x :: x in st.order ==> x in st.seen
    requires Extends(st, st1) && GrayAbove(st, rank, n)
    ensures GrayAbove(st1, rank, n)
  {
    forall x | x in st1.seen && x !in st1.order
      ensures rank(x) > n
    {
      assert x !in st1.order[|st.order|..] && x !in st1.order[..|st.order|] by {
        assert st1.order == st1.order[..|st.order|] + st1.order[|st.order|..];
      }
    }
  }

  /** A listed package stays listed. */
  lemma ListedStays(st: VisitState, st1: VisitState, x: string)
    requires Extends(st, st1) && x in st.order
    ensures x in st1.order
  {
    var k :| 0 <= k < |st.order| && st.order[k] == x;
    assert st1.order[k] == st1.order[..|st.order|][k];
  }

  /** Lines 146-158: visit every package in turn. */
  method TopologicalOrder(g: Graph, packages: seq<string>) returns (r: Result<seq<string>, string>)
    ensures r.Success? ==> Distinct(r.value)
    ensures r.Success? ==> forall p :: p in packages ==> p in r.value
    ensures r.Success? ==> forall x :: x in r.value ==> x in g
    ensures r.Failure? ==> r.error !in g && (r.error in packages || exists p :: p in g && r.error in g[p])
    ensures Closed(g) && (forall p :: p in packages ==> p in g) ==> r.Success?
    ensures r.Success? && Acyclic(g) ==> DepsFirst(g, r.value)
  {
    var st := VisitState({}, []);
    var i := 0;
    while i < |packages|
      invariant 0 <= i <= |packages|
      invariant Inv(g, st)
      invariant forall x :: x in st.seen ==> x in st.order
      invariant forall j :: 0 <= j < i ==> packages[j] in st.order
      invariant Acyclic(g) ==> DepsFirst(g, st.order)
    {
      var res := Visit(g, packages[i], st);
      if res.Failure? {
        return Failure(res.error);
      }
      ghost var rank: string -> nat := _ => 0;
      if Acyclic(g) {
        rank :| Ranked(g, rank);
        VisitRanked(g, rank, packages[i], st);
      }
      var st1 := res.value;
      forall x | x in st1.seen
        ensures x in st1.order
      {
        if x in st.seen {
          assert x in st1.order[..|st.order|];
        } else {
          assert x in st1.order[|st.order|..];
        }
      }
      forall j | 0 <= j < i + 1
        ensures packages[j] in st1.order
      {
        if j < i {
          assert packages[j] in st1.order[..|st.order|];
        }
      }
      st := st1;
      i := i + 1;
    }
    return Success(st.order);
  }

  /** Index of the first occurrence of `x` in `order`. */
  function Position(order: seq<string>, x: string): (k: nat)
    requires x in order
    ensures k < |order| && order[k] == x
    ensures forall j :: 0 <= j < k ==> order[j] != x
  {
    if order[0] == x then 0 else Position(order[1..], x) + 1
  }

  /** Conversely, a dependencies-first listing of every package ranks the
      graph by position, so only acyclic graphs have one. */
  lemma DepsFirstMeansAcyclic(g: Graph, order: seq<string>)
    requires forall p :: p in g ==> p in order
    requires DepsFirst(g, order)
    ensures Acyclic(g)
  {
    var rank: string -> nat := x => if x in order then Position(order, x) else 0;
    forall p, d | p in g && d in g[p]
      ensures rank(d) < rank(p)
    {
      var i := Position(order, p);
      assert d in order[..i];
      var j :| 0 <= j < i && order[..i][j] == d;
      assert order[j] == d;
    }
    assert Ranked(g, rank);
  }

  /** Cycles are not reported: on `a -> b -> a` the search lists `b` before
      its dependency `a`. */
  lemma CycleNotDetected()
    ensures var g: Graph := map["a" := ["b"], "b" := ["a"]];
            Visit(g, "a", VisitState({}, [])) == Success(VisitState({"a", "b"}, ["b", "a"])) &&
            !DepsFirst(g, ["b", "a"])
  {
    var g: Graph := map["a" := ["b"], "b" := ["a"]];
    var s0 := VisitState({"a"}, []);
    var s1 := VisitState({"a", "b"}, []);
    assert Visit(g, "a", VisitState({"a", "b"}, [])) == Success(s1);
    assert VisitAll(g, ["a"], s1) == Success(s1);
    assert "b" !in s0.seen && g["b"] == ["a"] && s0.seen + {"b"} == s1.seen;
    assert s1.order + ["b"] == ["b"];
    assert Visit(g, "b", s0) == Success(VisitState({"a", "b"}, ["b"]));
    assert VisitAll(g, ["b"], s0) == Success(VisitState({"a", "b"}, ["b"]));
    assert {} + {"a"} == s0.seen && g["a"] == ["b"];
    assert ["b"] + ["a"] == ["b", "a"];
    var o: seq<string> := ["b", "a"];
    assert o[0] in g && "a" in g[o[0]] && "a" !in o[..0];
  }
}
