/** The order `just` runs recipes in, and the gate that keeps one recipe list a subset of another. */
module Recipes {
  /** Recipe name to dependency names; a name without an entry has no dependencies. */
  type Graph = map<string, seq<string>>

  function Deps(g: Graph, name: string): seq<string> {
    if name in g then g[name] else []
  }

  predicate IsPath(g: Graph, p: seq<string>) {
    p != [] && forall i :: 0 <= i < |p| - 1 ==> p[i + 1] in Deps(g, p[i])
  }

  ghost predicate PathFrom(g: Graph, p: seq<string>, a: string, b: string) {
    IsPath(g, p) && p[0] == a && p[|p| - 1] == b
  }

  ghost predicate Reaches(g: Graph, a: string, b: string) {
    exists p :: PathFrom(g, p, a, b)
  }

  lemma ReachesSelf(g: Graph, a: string)
    ensures Reaches(g, a, a)
  {
    assert PathFrom(g, [a], a, a);
  }

  lemma ReachesNext(g: Graph, a: string, b: string, c: string)
    requires Reaches(g, a, b) && c in Deps(g, b)
    ensures Reaches(g, a, c)
  {
    var p :| PathFrom(g, p, a, b);
    assert PathFrom(g, p + [c], a, c);
  }

  // ----- How just runs recipes

  /** No dependency of a recipe reachable from the root leads back to it. */
  ghost predicate AcyclicFrom(g: Graph, root: string) {
    forall a, b :: Reaches(g, root, a) && b in Deps(g, a) ==> !Reaches(g, b, a)
  }

  function Universe(g: Graph, root: string): set<string> {
    {root} + g.Keys + set x, d | x in g.Keys && d in g[x] :: d
  }

  ghost function Below(g: Graph, root: string, name: string): set<string> {
    set x | x in Universe(g, root) && Reaches(g, name, x)
  }

  /** How many recipes a recipe leads to, itself included: the measure by which an acyclic graph is run. */
  ghost function Rank(g: Graph, root: string, name: string): nat {
    |Below(g, root, name)|
  }

  lemma ReachesVia(g: Graph, a: string, b: string, c: string)
    requires b in Deps(g, a) && Reaches(g, b, c)
    ensures Reaches(g, a, c)
  {
    var p :| PathFrom(g, p, b, c);
    var q := [a] + p;
    forall i | 0 <= i < |q| - 1 ensures q[i + 1] in Deps(g, q[i]) {
      if i > 0 {
        assert p[(i - 1) + 1] in Deps(g, p[i - 1]);
      }
    }
    assert PathFrom(g, q, a, c);
  }

  lemma SmallerSet(a: set<string>, b: set<string>)
    requires a < b
    ensures |a| < |b|
  {
    var x :| x in b && x !in a;
    assert a <= b - {x} && b == (b - {x}) + {x};
    SubsetSize(a, b - {x});
  }

  lemma {:induction false} SubsetSize(a: set<string>, b: set<string>)
    requires a <= b
    ensures |a| <= |b|
  {
    assert b == a + (b - a);
  }

  /** Where no cycle is reachable, a dependency leads to fewer recipes than what depends on it. */
  lemma RankFalls(g: Graph, root: string, name: string)
    requires AcyclicFrom(g, root) && Reaches(g, root, name)
    ensures forall d :: d in Deps(g, name) ==> Reaches(g, root, d) && Rank(g, root, d) < Rank(g, root, name)
  {
    hide Reaches;
    forall d | d in Deps(g, name) ensures Reaches(g, root, d) && Rank(g, root, d) < Rank(g, root, name) {
      ReachesNext(g, root, name, d);
      forall x | x in Below(g, root, d) ensures x in Below(g, root, name) {
        ReachesVia(g, name, d, x);
      }
      ReachesSelf(g, name);
      assert name in Below(g, root, name) && name !in Below(g, root, d);
      SmallerSet(Below(g, root, d), Below(g, root, name));
    }
  }

  /** What has run once `name` has: nothing new if it had run, else its dependencies first, then itself. */
  ghost function RunOne(g: Graph, root: string, done: seq<string>, name: string): seq<string>
    requires AcyclicFrom(g, root) && Reaches(g, root, name)
    decreases Rank(g, root, name) + 1, 0
  {
    RankFalls(g, root, name);
    if name in done then done else RunAll(g, root, done, Deps(g, name), Rank(g, root, name)) + [name]
  }

  ghost predicate AllBelow(g: Graph, root: string, names: seq<string>, bound: nat) {
    forall x :: x in names ==> Reaches(g, root, x) && Rank(g, root, x) < bound
  }

  /** The same for several recipes, left to right. */
  ghost function RunAll(g: Graph, root: string, done: seq<string>, names: seq<string>, bound: nat): seq<string>
    requires AcyclicFrom(g, root) && AllBelow(g, root, names, bound)
    decreases bound, |names|
  {
    if names == [] then done
    else
      var n := |names| - 1;
      assert names[n] in names;
      RunOne(g, root, RunAll(g, root, done, names[..n], bound), names[n])
  }

  lemma RunAllStep(g: Graph, root: string, done: seq<string>, names: seq<string>, i: nat, bound: nat)
    requires AcyclicFrom(g, root) && i < |names| && AllBelow(g, root, names, bound)
    ensures AllBelow(g, root, names[..i], bound) && AllBelow(g, root, names[..i + 1], bound)
    ensures Reaches(g, root, names[i])
    ensures RunAll(g, root, done, names[..i + 1], bound) ==
            RunOne(g, root, RunAll(g, root, done, names[..i], bound), names[i])
  {
    hide AcyclicFrom, Reaches, Rank;
    assert forall x :: x in names[..i + 1] ==> x in names;
    assert forall x :: x in names[..i] ==> x in names;
    assert names[..i + 1][..i] == names[..i];
  }

  // ----- The depth-first walk

  predicate Distinct(s: seq<string>) {
    forall i, j :: 0 <= i < j < |s| ==> s[i] != s[j]
  }

  /** Every finished recipe comes after its dependencies, unless a dependency leads back to it. */
  ghost predicate Layered(g: Graph, order: seq<string>) {
    forall i, d :: 0 <= i < |order| && d in Deps(g, order[i]) ==> d in order[..i] || Reaches(g, d, order[i])
  }

  function Elements(s: seq<string>): set<string> {
    set x | x in s
  }

  /** What the walk keeps: seen is what is finished or in progress, and finished recipes are closed in it. */
  ghost predicate WalkInv(g: Graph, root: string, seen: set<string>, order: seq<string>, open: set<string>) {
    && seen == Elements(order) + open && Elements(order) !! open
    && Distinct(order) && Layered(g, order)
    && (forall x :: x in order ==> Reaches(g, root, x))
    && (forall x, d :: x in order && d in Deps(g, x) ==> d in seen)
  }

  ghost predicate IsUniverse(g: Graph, u: set<string>) {
    forall x, d :: x in u && d in Deps(g, x) ==> d in u
  }

  // The walk against the reference order, kept as opaque facts for the loop below.

  ghost predicate RunsAs(g: Graph, root: string, done: seq<string>, name: string, order: seq<string>) {
    AcyclicFrom(g, root) && Reaches(g, root, name) ==> order == RunOne(g, root, done, name)
  }

  ghost predicate RunsAllAs(g: Graph, root: string, done: seq<string>, name: string, i: nat, order: seq<string>)
    requires i <= |Deps(g, name)|
  {
    AcyclicFrom(g, root) && Reaches(g, root, name) ==>
      && AllBelow(g, root, Deps(g, name)[..i], Rank(g, root, name))
      && order == RunAll(g, root, done, Deps(g, name)[..i], Rank(g, root, name))
  }

  ghost predicate Above(g: Graph, root: string, open: set<string>, name: string) {
    AcyclicFrom(g, root) ==> forall a :: a in open ==> Rank(g, root, name) < Rank(g, root, a)
  }

  lemma RunsStep(g: Graph, root: string, done: seq<string>, name: string, i: nat, order: seq<string>, next: seq<string>)
    requires i < |Deps(g, name)| && RunsAllAs(g, root, done, name, i, order)
    requires RunsAs(g, root, order, Deps(g, name)[i], next)
    ensures RunsAllAs(g, root, done, name, i + 1, next)
  {
    hide RunOne, RunAll, AcyclicFrom, Reaches, Rank;
    if AcyclicFrom(g, root) && Reaches(g, root, name) {
      RankFalls(g, root, name);
      RunAllStep(g, root, done, Deps(g, name), i, Rank(g, root, name));
    }
  }

  lemma RunsEnds(g: Graph, root: string, done: seq<string>, name: string, order: seq<string>)
    ensures RunsAllAs(g, root, done, name, 0, done)
    ensures name !in done && RunsAllAs(g, root, done, name, |Deps(g, name)|, order)
            ==> RunsAs(g, root, done, name, order + [name])
    ensures name in done ==> RunsAs(g, root, done, name, done)
  {
    hide RunOne, RunAll, AcyclicFrom, Reaches, Rank;
    if AcyclicFrom(g, root) && Reaches(g, root, name) {
      RunOneUnfold(g, root, done, name);
      RunAllNothing(g, root, done, Deps(g, name), Rank(g, root, name));
      assert Deps(g, name)[..|Deps(g, name)|] == Deps(g, name);
    }
  }

  /** A recipe in progress leads to, and ranks above, the one being walked to. */
  ghost predicate Leads(g: Graph, root: string, open: set<string>, name: string) {
    && Reaches(g, root, name) && (forall a :: a in open ==> Reaches(g, a, name))
    && Above(g, root, open, name)
  }

  method Walk(g: Graph, name: string, seen0: set<string>, order0: seq<string>,
              ghost root: string, ghost open: set<string>, ghost u: set<string>)
    returns (seen: set<string>, order: seq<string>)
    requires IsUniverse(g, u) && name in u && seen0 <= u
    requires WalkInv(g, root, seen0, order0, open) && Leads(g, root, open, name)
    ensures WalkInv(g, root, seen, order, open) && seen <= u
    ensures name in seen && seen0 <= seen && order0 <= order
    ensures name !in seen0 ==> |order| > |order0| && order[|order| - 1] == name
    ensures RunsAs(g, root, order0, name, order)
    decreases u - seen0
  {
    hide WalkInv, Leads, RunsAs, RunsAllAs, Deps;
    RunsEnds(g, root, order0, name, []);
    if name in seen0 {
      SeenIsFinished(g, root, seen0, order0, open, name);
      return seen0, order0;
    }
    seen, order := seen0 + {name}, order0;
    ghost var active := open + {name};
    var deps := Deps(g, name);
    BeginKeeps(g, root, seen0, order0, open, name);
    for i := 0 to |deps|
      invariant WalkInv(g, root, seen, order, active) && seen <= u
      invariant seen0 + {name} <= seen && order0 <= order
      invariant forall j :: 0 <= j < i ==> deps[j] in seen
      invariant RunsAllAs(g, root, order0, name, i, order)
    {
      LeadsOn(g, root, open, name, deps[i]);
      ghost var before := order;
      seen, order := Walk(g, deps[i], seen, order, root, active, u);
      RunsStep(g, root, order0, name, i, before, order);
    }
    NotYetFinished(g, root, seen0, order0, open, name);
    FinishKeeps(g, root, seen, order, open, name);
    RunsEnds(g, root, order0, name, order);
    order := order + [name];
  }

  lemma SeenIsFinished(g: Graph, root: string, seen: set<string>, order: seq<string>, open: set<string>, name: string)
    requires WalkInv(g, root, seen, order, open) && name in seen && Leads(g, root, open, name)
    ensures RunsAs(g, root, order, name, order)
  {
    hide RunOne, Reaches, Layered;
    RunsEnds(g, root, order, name, []);
  }

  lemma NotYetFinished(g: Graph, root: string, seen: set<string>, order: seq<string>, open: set<string>, name: string)
    requires WalkInv(g, root, seen, order, open) && name !in seen
    ensures name !in order && name !in open
  {
  }

  lemma BeginKeeps(g: Graph, root: string, seen: set<string>, order: seq<string>, open: set<string>, name: string)
    requires WalkInv(g, root, seen, order, open) && name !in seen
    ensures WalkInv(g, root, seen + {name}, order, open + {name})
  {
    hide Layered, Reaches, Distinct;
  }

  lemma LeadsOn(g: Graph, root: string, open: set<string>, name: string, dep: string)
    requires Leads(g, root, open, name) && dep in Deps(g, name)
    ensures Leads(g, root, open + {name}, dep)
  {
    hide Reaches, Deps, Rank, AcyclicFrom;
    ReachesSelf(g, name);
    ReachesNext(g, root, name, dep);
    if AcyclicFrom(g, root) {
      RankFalls(g, root, name);
    }
    forall a | a in open + {name} ensures Reaches(g, a, dep) {
      ReachesNext(g, a, name, dep);
    }
  }

  lemma RunOneUnfold(g: Graph, root: string, done: seq<string>, name: string)
    requires AcyclicFrom(g, root) && Reaches(g, root, name)
    ensures AllBelow(g, root, Deps(g, name), Rank(g, root, name))
    ensures RunOne(g, root, done, name) ==
            if name in done then done else RunAll(g, root, done, Deps(g, name), Rank(g, root, name)) + [name]
  {
    hide AcyclicFrom, Reaches, Rank;
    RankFalls(g, root, name);
  }

  lemma RunAllNothing(g: Graph, root: string, done: seq<string>, names: seq<string>, bound: nat)
    requires AcyclicFrom(g, root)
    ensures AllBelow(g, root, names[..0], bound) && RunAll(g, root, done, names[..0], bound) == done
  {
    hide AcyclicFrom, Reaches, Rank;
  }

  lemma FinishKeeps(g: Graph, root: string, seen: set<string>, order: seq<string>, open: set<string>, name: string)
    requires WalkInv(g, root, seen, order, open + {name}) && name !in open && Leads(g, root, open, name)
    requires forall j :: 0 <= j < |Deps(g, name)| ==> Deps(g, name)[j] in seen
    ensures WalkInv(g, root, seen, order + [name], open)
  {
    hide Reaches, Deps;
    ReachesSelf(g, name);
    var order' := order + [name];
    assert Elements(order') == Elements(order) + {name};
    assert name !in order by { assert name in open + {name}; }
    forall i, d | 0 <= i < |order'| && d in Deps(g, order'[i])
      ensures d in order'[..i] || Reaches(g, d, order'[i])
    {
      if i < |order| {
        assert order'[..i] == order[..i];
      } else {
        assert order'[..i] == order;
      }
    }
  }

  // ----- The order of a whole run

  ghost predicate AfterDeps(g: Graph, order: seq<string>) {
    forall i, d :: 0 <= i < |order| && d in Deps(g, order[i]) ==> d in order[..i]
  }

  lemma {:induction false} ClosedHoldsPath(g: Graph, s: set<string>, p: seq<string>)
    requires IsPath(g, p) && p[0] in s && forall x, d :: x in s && d in Deps(g, x) ==> d in s
    ensures p[|p| - 1] in s
  {
    if |p| > 1 {
      ClosedHoldsPath(g, s, p[..|p| - 1]);
      assert p[|p| - 2 + 1] in Deps(g, p[|p| - 2]);
    }
  }

  lemma ClosedHoldsReachable(g: Graph, s: set<string>, root: string)
    requires root in s && forall x, d :: x in s && d in Deps(g, x) ==> d in s
    ensures forall x :: Reaches(g, root, x) ==> x in s
  {
    forall x | Reaches(g, root, x) ensures x in s {
      var p :| PathFrom(g, p, root, x);
      ClosedHoldsPath(g, s, p);
    }
  }

  lemma {:induction false} PathDescends(g: Graph, order: seq<string>, p: seq<string>, i: nat)
    requires Distinct(order) && AfterDeps(g, order) && IsPath(g, p) && i < |order| && order[i] == p[0]
    ensures exists j :: 0 <= j <= i && order[j] == p[|p| - 1]
    decreases |p|
  {
    if |p| > 1 {
      var d := p[0 + 1];
      assert d in Deps(g, order[i]);
      var k :| 0 <= k < |order[..i]| && order[..i][k] == d;
      assert IsPath(g, p[1..]) by {
        forall m | 0 <= m < |p[1..]| - 1 ensures p[1..][m + 1] in Deps(g, p[1..][m]) {
          assert p[(m + 1) + 1] in Deps(g, p[m + 1]);
        }
      }
      PathDescends(g, order, p[1..], k);
    }
  }

  /** An order in which everything follows its dependencies exists for a graph only if it has no cycle. */
  lemma AfterDepsIsAcyclic(g: Graph, order: seq<string>, root: string)
    requires Distinct(order) && AfterDeps(g, order) && forall x :: Reaches(g, root, x) ==> x in order
    ensures AcyclicFrom(g, root)
  {
    forall a, b | Reaches(g, root, a) && b in Deps(g, a) ensures !Reaches(g, b, a) {
      var i :| 0 <= i < |order| && order[i] == a;
      assert b in order[..i];
      var k :| 0 <= k < |order[..i]| && order[..i][k] == b;
      forall p | PathFrom(g, p, b, a) ensures false {
        PathDescends(g, order, p, k);
      }
    }
  }

  lemma StartKeeps(g: Graph, root: string)
    ensures WalkInv(g, root, {}, [], {}) && Leads(g, root, {}, root) && IsUniverse(g, Universe(g, root))
  {
    hide Reaches;
    ReachesSelf(g, root);
  }

  lemma FinishedOrder(g: Graph, root: string, seen: set<string>, order: seq<string>)
    requires WalkInv(g, root, seen, order, {}) && root in seen
    ensures Distinct(order)
    ensures forall x :: x in order <==> Reaches(g, root, x)
    ensures AfterDeps(g, order) <==> AcyclicFrom(g, root)
  {
    hide Reaches;
    ClosedHoldsReachable(g, seen, root);
    if AfterDeps(g, order) {
      AfterDepsIsAcyclic(g, order, root);
    }
    if AcyclicFrom(g, root) {
      forall i, d | 0 <= i < |order| && d in Deps(g, order[i]) ensures d in order[..i] {
        assert order[i] in order;
      }
    }
  }

  /** For every graph: exactly the recipes reachable from the root, each once, without the root; and each
      after all its dependencies if and only if no cycle is reachable, and then in the order in which just
      runs them. */
  method ExecutionOrder(g: Graph, root: string) returns (r: seq<string>)
    ensures Distinct(r) && forall x :: x in r <==> x != root && Reaches(g, root, x)
    ensures AfterDeps(g, r + [root]) <==> AcyclicFrom(g, root)
    ensures AcyclicFrom(g, root) ==> Reaches(g, root, root) && r + [root] == RunOne(g, root, [], root)
  {
    hide Reaches, AcyclicFrom, AfterDeps, RunOne, WalkInv, Leads;
    StartKeeps(g, root);
    var seen, order := Walk(g, root, {}, [], root, {}, Universe(g, root));
    ReachesSelf(g, root);
    FinishedOrder(g, root, seen, order);
    ghost var n := |order| - 1;
    assert order == order[..n] + [root];
    r := [];
    for i := 0 to |order|
      invariant r == if i <= n then order[..i] else order[..n]
    {
      if order[i] != root {
        r := r + [order[i]];
      }
    }
  }

  // ----- The subset gate

  /** One line of the ledger of recipes left out on purpose. */
  datatype Excuse = Excuse(name: string, reason: string)

  datatype Finding =
    | NotInSuperset(name: string)
    | OutOfOrder(name: string)
    | Unexcused(name: string)
    | StaleExcuse(name: string)
    | ContradictoryExcuse(name: string)
    | NoReason(name: string)

  /** Strictly increasing positions of `b` that spell `a`. */
  predicate Embeds(f: seq<nat>, a: seq<string>, b: seq<string>) {
    && |f| == |a|
    && (forall i :: 0 <= i < |f| ==> f[i] < |b| && b[f[i]] == a[i])
    && (forall i, j :: 0 <= i < j < |f| ==> f[i] < f[j])
  }

  ghost predicate IsSubsequence(a: seq<string>, b: seq<string>) {
    exists f :: Embeds(f, a, b)
  }

  function Shared(a: seq<string>, b: seq<string>): seq<string> {
    if a == [] then []
    else Shared(a[..|a| - 1], b) + (if a[|a| - 1] in b then [a[|a| - 1]] else [])
  }

  /** `b.index(x, from)`, or the length of `b` when Python raises. */
  function IndexFrom(b: seq<string>, x: string, from: nat): (k: nat)
    ensures k <= |b| && (k < |b| ==> from <= k && b[k] == x)
    ensures forall i :: from <= i < |b| && i < k ==> b[i] != x
    decreases |b| - from
  {
    if from >= |b| then |b| else if b[from] == x then from else IndexFrom(b, x, from + 1)
  }

  lemma SharedStep(a: seq<string>, b: seq<string>, i: nat)
    requires i < |a|
    ensures Shared(a[..i + 1], b) == if a[i] in b then Shared(a[..i], b) + [a[i]] else Shared(a[..i], b)
  {
    assert a[..i + 1][..i] == a[..i];
  }

  lemma {:induction false} SharedPrefix(a: seq<string>, b: seq<string>, i: nat)
    requires i <= |a|
    ensures Shared(a[..i], b) <= Shared(a, b)
    decreases |a| - i
  {
    if i < |a| {
      SharedPrefix(a, b, i + 1);
      assert a[..i + 1][..i] == a[..i];
    } else {
      assert a[..i] == a;
    }
  }

  /** `f` is the greedy embedding of the list so far: no embedding of any extension ends a prefix earlier. */
  ghost predicate Greedy(f: seq<nat>, a: seq<string>, b: seq<string>, index: nat) {
    && Embeds(f, a, b)
    && index == (if f == [] then 0 else f[|f| - 1] + 1)
    && forall h, c :: Embeds(h, c, b) && a <= c && |a| > 0 ==> f[|f| - 1] <= h[|a| - 1]
  }

  lemma GreedyStep(f: seq<nat>, a: seq<string>, b: seq<string>, index: nat, x: string)
    requires Greedy(f, a, b, index)
    ensures var k := IndexFrom(b, x, index);
            if k < |b| then Greedy(f + [k], a + [x], b, k + 1)
            else forall c :: a + [x] <= c ==> !IsSubsequence(c, b)
  {
    var k := IndexFrom(b, x, index);
    var a' := a + [x];
    forall h, c | Embeds(h, c, b) && a' <= c ensures index <= h[|a|] < |b| && b[h[|a|]] == x {
      assert a <= c && c[|a|] == x;
      if |a| > 0 {
        assert f[|f| - 1] <= h[|a| - 1] < h[|a|];
      }
    }
  }

  /** The members of `a`, in order, that `b` runs no later than it runs the member before them. */
  function Descents(a: seq<string>, b: seq<string>): seq<Finding> {
    if |a| <= 1 then []
    else
      var x, previous := a[|a| - 1], a[|a| - 2];
      Descents(a[..|a| - 1], b) + (if IndexFrom(b, x, 0) <= IndexFrom(b, previous, 0) then [OutOfOrder(x)] else [])
  }

  /** Where the search for the next member starts once `a` has been looked up. */
  function After(a: seq<string>, b: seq<string>): nat {
    if a == [] then 0 else IndexFrom(b, a[|a| - 1], 0) + 1
  }

  lemma IndexOnce(b: seq<string>, x: string, from: nat)
    requires Distinct(b) && x in b
    ensures IndexFrom(b, x, from) == if from <= IndexFrom(b, x, 0) then IndexFrom(b, x, 0) else |b|
  {
  }

  lemma DescentsStep(a: seq<string>, b: seq<string>, x: string)
    requires Distinct(b) && x in b
    ensures var found := IndexFrom(b, x, After(a, b)) < |b|;
            Descents(a + [x], b) == Descents(a, b) + (if found then [] else [OutOfOrder(x)])
            && (found ==> IndexFrom(b, x, After(a, b)) == IndexFrom(b, x, 0))
  {
    hide IndexFrom;
    IndexOnce(b, x, After(a, b));
    assert (a + [x])[..|a|] == a;
  }

  /** The order check reports nothing exactly when the shared members stand in the superset's order; what it
      reports, when no recipe runs twice, is exactly the members the superset runs before their predecessor. */
  method OrderFindings(subset: seq<string>, superset: seq<string>) returns (out: seq<Finding>)
    ensures out == [] <==> IsSubsequence(Shared(subset, superset), superset)
    ensures Distinct(superset) ==> out == Descents(Shared(subset, superset), superset)
  {
    hide IsSubsequence, IndexFrom, Greedy, Descents, Distinct;
    out := [];
    var index: nat := 0;
    ghost var f: seq<nat> := [];
    GreedyStart(superset);
    for i := 0 to |subset|
      invariant out == [] ==> Greedy(f, Shared(subset[..i], superset), superset, index)
      invariant out != [] ==> !IsSubsequence(Shared(subset, superset), superset)
      invariant Distinct(superset) ==> out == Descents(Shared(subset[..i], superset), superset)
      invariant Distinct(superset) ==> index == After(Shared(subset[..i], superset), superset)
    {
      var name := subset[i];
      SharedStep(subset, superset, i);
      if name !in superset {
        continue;
      }
      ghost var a := Shared(subset[..i], superset);
      SharedPrefix(subset, superset, i + 1);
      if out == [] {
        GreedyStep(f, a, superset, index, name);
      }
      if Distinct(superset) {
        DescentsStep(a, superset, name);
      }
      var k := IndexFrom(superset, name, index);
      if k < |superset| {
        index := k + 1;
        f := f + [k];
      } else {
        out := out + [OutOfOrder(name)];
        index := IndexFrom(superset, name, 0) + 1;
      }
    }
    assert subset[..|subset|] == subset;
    if out == [] {
      GreedyIsSubsequence(f, Shared(subset, superset), superset, index);
    }
  }

  lemma GreedyStart(b: seq<string>)
    ensures Greedy([], Shared([], b), b, 0) && Descents(Shared([], b), b) == [] && After(Shared([], b), b) == 0
  {
  }

  lemma GreedyIsSubsequence(f: seq<nat>, a: seq<string>, b: seq<string>, index: nat)
    requires Greedy(f, a, b, index)
    ensures IsSubsequence(a, b)
  {
  }

  /** What the gate demands of the two lists and the ledger. */
  ghost predicate InStep(subset: seq<string>, superset: seq<string>, ledger: seq<Excuse>) {
    && (forall x :: x in subset ==> x in superset)
    && IsSubsequence(subset, superset)
    && (forall x :: x in superset ==> x in subset || IsExcused(ledger, x))
    && (forall i :: 0 <= i < |ledger| ==> IsSound(ledger[i], subset, superset))
  }

  /** A ledger line excuses a recipe the superset runs and the subset does not, with a reason. */
  predicate IsSound(e: Excuse, subset: seq<string>, superset: seq<string>) {
    e.name in superset && e.name !in subset && e.reason != ""
  }

  lemma {:induction false} SharedAll(a: seq<string>, b: seq<string>)
    requires forall x :: x in a ==> x in b
    ensures Shared(a, b) == a
  {
    if a != [] {
      SharedAll(a[..|a| - 1], b);
      assert a[|a| - 1] in a;
    }
  }

  method SubsetFindings(subset: seq<string>, superset: seq<string>) returns (out: seq<Finding>)
    ensures forall f :: f in out <==> f.NotInSuperset? && f.name in subset && f.name !in superset
  {
    out := [];
    for i := 0 to |subset|
      invariant forall f :: f in out <==> f.NotInSuperset? && f.name in subset[..i] && f.name !in superset
    {
      if subset[i] !in superset {
        out := out + [NotInSuperset(subset[i])];
      }
    }
  }

  ghost predicate IsExcused(ledger: seq<Excuse>, name: string) {
    exists i :: 0 <= i < |ledger| && ledger[i].name == name
  }

  method CoverageFindings(subset: seq<string>, superset: seq<string>, ledger: seq<Excuse>) returns (out: seq<Finding>)
    ensures forall f :: f in out <==>
              f.Unexcused? && f.name in superset && f.name !in subset && !IsExcused(ledger, f.name)
  {
    out := [];
    var excused := set e | e in ledger :: e.name;
    assert forall x :: x in excused <==> IsExcused(ledger, x) by {
      forall x | x in excused ensures IsExcused(ledger, x) {
        var e :| e in ledger && e.name == x;
      }
    }
    for i := 0 to |superset|
      invariant forall f :: f in out <==>
                  f.Unexcused? && f.name in superset[..i] && f.name !in subset && f.name !in excused
    {
      if superset[i] !in subset && superset[i] !in excused {
        out := out + [Unexcused(superset[i])];
      }
    }
  }

  /** What is wrong with one ledger line: it excuses nothing, contradicts the subset, or says no reason. */
  ghost predicate Wrong(e: Excuse, subset: seq<string>, superset: seq<string>, f: Finding) {
    && f.name == e.name
    && match f
       case StaleExcuse(_) => e.name !in superset
       case ContradictoryExcuse(_) => e.name in superset && e.name in subset
       case NoReason(_) => e.name in superset && e.name !in subset && e.reason == ""
       case _ => false
  }

  method LedgerFindings(subset: seq<string>, superset: seq<string>, ledger: seq<Excuse>) returns (out: seq<Finding>)
    ensures forall f :: f in out <==> exists i :: 0 <= i < |ledger| && Wrong(ledger[i], subset, superset, f)
  {
    out := [];
    for i := 0 to |ledger|
      invariant forall f :: f in out <==> exists j :: 0 <= j < i && Wrong(ledger[j], subset, superset, f)
    {
      if ledger[i].name !in superset {
        out := out + [StaleExcuse(ledger[i].name)];
      } else if ledger[i].name in subset {
        out := out + [ContradictoryExcuse(ledger[i].name)];
      } else if ledger[i].reason == "" {
        out := out + [NoReason(ledger[i].name)];
      }
    }
  }

  /** No findings of any kind is what the gate demands. */
  lemma SilentIsInStep(subset: seq<string>, superset: seq<string>, ledger: seq<Excuse>,
                       a: seq<Finding>, b: seq<Finding>, c: seq<Finding>, d: seq<Finding>)
    requires forall f :: f in a <==> f.NotInSuperset? && f.name in subset && f.name !in superset
    requires b == [] <==> IsSubsequence(Shared(subset, superset), superset)
    requires forall f :: f in c <==>
               f.Unexcused? && f.name in superset && f.name !in subset && !IsExcused(ledger, f.name)
    requires forall f :: f in d <==> exists i :: 0 <= i < |ledger| && Wrong(ledger[i], subset, superset, f)
    ensures a + b + c + d == [] <==> InStep(subset, superset, ledger)
  {
    hide IsSubsequence, IsExcused, Wrong;
    NoneIn(a);
    NoneIn(c);
    NoneIn(d);
    assert a == [] <==> forall x :: x in subset ==> x in superset by {
      assert forall x :: x in subset && x !in superset <==> NotInSuperset(x) in a;
    }
    assert c == [] <==> forall x :: x in superset ==> x in subset || IsExcused(ledger, x) by {
      assert forall x :: x in superset && x !in subset && !IsExcused(ledger, x) <==> Unexcused(x) in c;
    }
    assert d == [] <==> forall i :: 0 <= i < |ledger| ==> IsSound(ledger[i], subset, superset) by {
      forall i | 0 <= i < |ledger|
        ensures IsSound(ledger[i], subset, superset) <==> forall f :: !Wrong(ledger[i], subset, superset, f)
        ensures !IsSound(ledger[i], subset, superset) ==> exists f :: f in d
      {
        SoundIsNotWrong(ledger[i], subset, superset);
        if !IsSound(ledger[i], subset, superset) {
          var f :| Wrong(ledger[i], subset, superset, f);
          assert f in d;
        }
      }
    }
    if a == [] {
      SharedAll(subset, superset);
    }
  }

  lemma NoneIn(s: seq<Finding>)
    ensures s == [] <==> forall f :: f !in s
  {
    if s != [] {
      assert s[0] in s;
    }
  }

  lemma SoundIsNotWrong(e: Excuse, subset: seq<string>, superset: seq<string>)
    ensures IsSound(e, subset, superset) <==> forall f :: !Wrong(e, subset, superset, f)
  {
    if !IsSound(e, subset, superset) {
      var f := if e.name !in superset then StaleExcuse(e.name)
               else if e.name in subset then ContradictoryExcuse(e.name) else NoReason(e.name);
      assert Wrong(e, subset, superset, f);
    }
  }

  /** A member the superset runs no later than it runs the member before it. */
  lemma {:induction false} DescentsAre(a: seq<string>, b: seq<string>, f: Finding)
    ensures f in Descents(a, b) <==> f.OutOfOrder? && FollowsLater(f.name, a, b)
  {
    hide IndexFrom, FollowsLater;
    if |a| <= 1 {
      assert !FollowsLater(f.name, a, b) by { NothingFollows(f.name, a, b); }
    } else {
      DescentsAre(a[..|a| - 1], b, f);
      FollowsSnoc(f.name, a, b);
    }
  }

  lemma NothingFollows(x: string, a: seq<string>, b: seq<string>)
    requires |a| <= 1
    ensures !FollowsLater(x, a, b)
  {
  }

  lemma FollowsSnoc(x: string, a: seq<string>, b: seq<string>)
    requires |a| > 1
    ensures var n := |a| - 1;
            FollowsLater(x, a, b) <==>
            FollowsLater(x, a[..n], b) || (a[n] == x && IndexFrom(b, a[n], 0) <= IndexFrom(b, a[n - 1], 0))
  {
    hide IndexFrom;
    var n := |a| - 1;
    var prev := a[..n];
    assert forall i :: 0 <= i < n ==> prev[i] == a[i];
    if FollowsLater(x, prev, b) {
      var i :| 0 < i < n && prev[i] == x && IndexFrom(b, prev[i], 0) <= IndexFrom(b, prev[i - 1], 0);
      assert a[i] == x;
    }
    if FollowsLater(x, a, b) {
      var i :| 0 < i <= n && a[i] == x && IndexFrom(b, a[i], 0) <= IndexFrom(b, a[i - 1], 0);
      assert i < n ==> prev[i] == x;
    }
  }

  ghost predicate FollowsLater(x: string, a: seq<string>, b: seq<string>) {
    exists i :: 0 < i < |a| && a[i] == x && IndexFrom(b, a[i], 0) <= IndexFrom(b, a[i - 1], 0)
  }

  /** Everything the gate may find, and when it does. */
  ghost predicate IsFinding(f: Finding, subset: seq<string>, superset: seq<string>, ledger: seq<Excuse>) {
    match f
    case NotInSuperset(x) => x in subset && x !in superset
    case OutOfOrder(x) => FollowsLater(x, Shared(subset, superset), superset)
    case Unexcused(x) => x in superset && x !in subset && !IsExcused(ledger, x)
    case _ => exists i :: 0 <= i < |ledger| && Wrong(ledger[i], subset, superset, f)
  }

  lemma AllFindings(subset: seq<string>, superset: seq<string>, ledger: seq<Excuse>,
                    a: seq<Finding>, b: seq<Finding>, c: seq<Finding>, d: seq<Finding>)
    requires forall f :: f in a <==> f.NotInSuperset? && f.name in subset && f.name !in superset
    requires b == Descents(Shared(subset, superset), superset)
    requires forall f :: f in c <==>
               f.Unexcused? && f.name in superset && f.name !in subset && !IsExcused(ledger, f.name)
    requires forall f :: f in d <==> exists i :: 0 <= i < |ledger| && Wrong(ledger[i], subset, superset, f)
    ensures forall f :: f in a + b + c + d <==> IsFinding(f, subset, superset, ledger)
  {
    hide IsExcused, FollowsLater, Descents, Shared;
    forall f ensures f in a + b + c + d <==> IsFinding(f, subset, superset, ledger) {
      DescentsAre(Shared(subset, superset), superset, f);
    }
  }

  /** How the gate ends: with an error for a recipe that does not exist, or with its findings. */
  datatype Verdict = NoRecipe(name: string) | Report(findings: seq<Finding>)

  /** The gate over any recipe graph: it is silent exactly when both recipes exist, the subset's run is part
      of the superset's, in the same order, and the ledger accounts for everything else and for nothing more. */
  method Findings(g: Graph, subsetRoot: string, supersetRoot: string, ledger: seq<Excuse>)
    returns (v: Verdict, ghost subset: seq<string>, ghost superset: seq<string>)
    ensures v.NoRecipe? <==> subsetRoot !in g || supersetRoot !in g
    ensures v.NoRecipe? ==> v.name == if subsetRoot !in g then subsetRoot else supersetRoot
    ensures v.Report? ==>
              && (forall x :: x in subset <==> x != subsetRoot && Reaches(g, subsetRoot, x))
              && (forall x :: x in superset <==> x != supersetRoot && Reaches(g, supersetRoot, x))
              && (v.findings == [] <==> InStep(subset, superset, ledger))
              && (forall f :: f in v.findings <==> IsFinding(f, subset, superset, ledger))
    ensures v.Report? && AcyclicFrom(g, subsetRoot) ==>
              Reaches(g, subsetRoot, subsetRoot) && subset + [subsetRoot] == RunOne(g, subsetRoot, [], subsetRoot)
    ensures v.Report? && AcyclicFrom(g, supersetRoot) ==>
              && Reaches(g, supersetRoot, supersetRoot)
              && superset + [supersetRoot] == RunOne(g, supersetRoot, [], supersetRoot)
  {
    hide Reaches, IsSubsequence, RunOne, InStep, Wrong, IsExcused, IsFinding, Descents;
    subset, superset := [], [];
    if subsetRoot !in g {
      v := NoRecipe(subsetRoot);
      return;
    }
    if supersetRoot !in g {
      v := NoRecipe(supersetRoot);
      return;
    }
    var sub := ExecutionOrder(g, subsetRoot);
    var sup := ExecutionOrder(g, supersetRoot);
    subset, superset := sub, sup;
    var a := SubsetFindings(sub, sup);
    var b := OrderFindings(sub, sup);
    var c := CoverageFindings(sub, sup, ledger);
    var d := LedgerFindings(sub, sup, ledger);
    SilentIsInStep(sub, sup, ledger, a, b, c, d);
    AllFindings(sub, sup, ledger, a, b, c, d);
    v := Report(a + b + c + d);
  }
}
