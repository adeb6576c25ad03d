/** dependsOn graphs and the validator's search for a cycle. */
module Dependencies {
  import opened Common

  /** Service name to the names it depends on. A name that is no service reads
      as one without dependencies. */
  type Graph = map<string, seq<string>>

  function Deps(g: Graph, n: string): seq<string> {
    if n in g then g[n] else []
  }

  /** Each element depends on the next. */
  predicate IsPath(g: Graph, p: seq<string>) {
    forall i :: 0 <= i < |p| - 1 ==> p[i + 1] in Deps(g, p[i])
  }

  predicate IsCycle(g: Graph, p: seq<string>) {
    |p| > 1 && p[0] == p[|p| - 1] && IsPath(g, p)
  }

  ghost predicate Acyclic(g: Graph) {
    forall p :: !IsCycle(g, p)
  }

  /** Written out: a list of services that ends where it begins has one whose
      successor is not among its dependencies. */
  lemma AcyclicIs(g: Graph)
    ensures Acyclic(g) <==> forall p: seq<string> :: |p| > 1 && p[0] == p[|p| - 1] ==>
              exists i: nat :: i + 1 < |p| && !(p[i] in g && p[i + 1] in g[p[i]])
  {
    forall p: seq<string> | |p| > 1 && p[0] == p[|p| - 1]
      ensures IsCycle(g, p) <==> !exists i: nat :: i + 1 < |p| && !(p[i] in g && p[i + 1] in g[p[i]])
    {
      if !IsCycle(g, p) {
        var i :| 0 <= i < |p| - 1 && p[i + 1] !in Deps(g, p[i]);
        assert i + 1 < |p| && !(p[i] in g && p[i + 1] in g[p[i]]);
      } else {
        forall i: nat | i + 1 < |p| ensures p[i] in g && p[i + 1] in g[p[i]] {
          assert p[i + 1] in Deps(g, p[i]);
        }
      }
    }
  }

  ghost function Universe(g: Graph): set<string> {
    g.Keys + set n, d | n in g && d in g[n] :: d
  }

  // ---- orders ----

  /** Everything an element depends on comes before it. */
  predicate DepsFirst(g: Graph, order: seq<string>) {
    forall i, d :: 0 <= i < |order| && d in Deps(g, order[i]) ==> d in order[..i]
  }

  lemma {:induction false} PathDescends(g: Graph, order: seq<string>, p: seq<string>, i: nat) returns (j: nat)
    requires Distinct(order) && DepsFirst(g, order)
    requires IsPath(g, p) && p != [] && i < |order| && order[i] == p[0]
    ensures j < |order| && order[j] == p[|p| - 1] && (|p| > 1 ==> j < i) && (|p| == 1 ==> j == i)
    decreases |p|
  {
    if |p| == 1 {
      j := i;
    } else {
      assert p[1] in Deps(g, p[0]);
      assert p[1] in order[..i];
      var k :| 0 <= k < i && order[k] == p[1];
      var q := p[1..];
      forall x | 0 <= x < |q| - 1 ensures q[x + 1] in Deps(g, q[x]) {
        assert p[x + 1 + 1] in Deps(g, p[x + 1]);
      }
      j := PathDescends(g, order, q, k);
    }
  }

  /** A graph whose services all occur in such an order has no cycle. */
  lemma OrderedIsAcyclic(g: Graph, order: seq<string>)
    requires Distinct(order) && DepsFirst(g, order)
    requires forall n :: n in g ==> n in order
    ensures Acyclic(g)
  {
    forall p ensures !IsCycle(g, p) {
      if IsCycle(g, p) {
        assert p[1] in Deps(g, p[0]);
        var i :| 0 <= i < |order| && order[i] == p[0];
        var j := PathDescends(g, order, p, i);
      }
    }
  }

  /** A path that comes back to itself contains a cycle. */
  lemma BackEdgeIsCycle(g: Graph, p: seq<string>, d: string)
    requires IsPath(g, p) && p != [] && d in p && d in Deps(g, p[|p| - 1])
    ensures !Acyclic(g)
  {
    var i :| 0 <= i < |p| && p[i] == d;
    var c := p[i..] + [d];
    forall k | 0 <= k < |c| - 1 ensures c[k + 1] in Deps(g, c[k]) {
      if k < |p| - i - 1 {
        assert c[k] == p[i + k] && c[k + 1] == p[i + k + 1];
      }
    }
    assert IsCycle(g, c);
  }

  // ---- detectCycle ----

  datatype Color = White | Grey | Black

  function ColorIn(color: map<string, Color>, n: string): Color {
    if n in color then color[n] else White
  }

  /** path is the stack of names being visited, finished the black names in the
      order they were finished. */
  ghost predicate Searching(g: Graph, color: map<string, Color>, finished: seq<string>, path: seq<string>) {
    && IsPath(g, path)
    && (forall n :: ColorIn(color, n) == Grey <==> n in path)
    && (forall n :: ColorIn(color, n) == Black <==> n in finished)
    && (forall n :: n in path || n in finished ==> n in Universe(g))
    && Distinct(finished) && DepsFirst(g, finished)
  }

  ghost function Unseen(g: Graph, color: map<string, Color>): set<string> {
    set n | n in Universe(g) && ColorIn(color, n) == White
  }

  /** The path leads to a name that depends on a name of the path. */
  ghost predicate ClosesOnItself(g: Graph, path: seq<string>) {
    IsPath(g, path) && path != [] && exists d :: d in path && d in Deps(g, path[|path| - 1])
  }

  lemma Enter(g: Graph, color: map<string, Color>, finished: seq<string>, path: seq<string>, name: string)
    requires Searching(g, color, finished, path) && ColorIn(color, name) == White
    requires name in Universe(g) && IsPath(g, path + [name])
    ensures Searching(g, color[name := Grey], finished, path + [name])
    ensures Unseen(g, color[name := Grey]) < Unseen(g, color)
    ensures name !in path
  {
    hide DepsFirst;
    assert name in Unseen(g, color) && name !in Unseen(g, color[name := Grey]);
  }

  lemma Leave(g: Graph, color: map<string, Color>, finished: seq<string>, path: seq<string>, name: string)
    requires Searching(g, color, finished, path + [name]) && name !in path
    requires forall d :: d in Deps(g, name) ==> d in finished
    ensures Searching(g, color[name := Black], finished + [name], path)
    ensures Unseen(g, color[name := Black]) == Unseen(g, color)
  {
    hide Universe;
    var all := finished + [name];
    assert (path + [name])[|path|] == name;
    assert forall n :: n in path + [name] <==> n in path || n == name;
    assert ColorIn(color, name) == Grey && name !in finished;
    forall i | 0 <= i < |path| - 1 ensures path[i + 1] in Deps(g, path[i]) {
      assert (path + [name])[i + 1] in Deps(g, (path + [name])[i]);
    }
    forall i, d | 0 <= i < |all| && d in Deps(g, all[i]) ensures d in all[..i] {
      assert all[..i] == finished[..i];
    }
  }

  lemma ExtendPath(g: Graph, p: seq<string>, d: string)
    requires IsPath(g, p) && p != [] && d in Deps(g, p[|p| - 1])
    ensures IsPath(g, p + [d])
  {
    var q := p + [d];
    forall i | 0 <= i < |q| - 1 ensures q[i + 1] in Deps(g, q[i]) {
      if i < |p| - 1 { assert q[i] == p[i] && q[i + 1] == p[i + 1]; }
    }
  }

  lemma DepInUniverse(g: Graph, n: string, d: string)
    requires d in Deps(g, n)
    ensures d in Universe(g)
  {
  }

  /** The depth-first search and the colours it marks. */
  class CycleDetector {
    const g: Graph
    var color: map<string, Color>
    ghost var finished: seq<string>

    constructor (g: Graph)
      ensures this.g == g && color == map[] && finished == []
    {
      this.g := g;
      color, finished := map[], [];
    }

    ghost predicate Valid(path: seq<string>)
      reads this
    {
      Searching(g, color, finished, path)
    }

    /** On success name and all it reaches are finished; on failure the reported
        path extends the given one and closes on itself. */
    method Visit(name: string, path: seq<string>) returns (cycle: Option<seq<string>>)
      requires Valid(path) && ColorIn(color, name) == White && name in Universe(g)
      requires IsPath(g, path + [name])
      modifies this
      ensures cycle.None? ==> Valid(path) && old(finished) <= finished && name in finished &&
                              Unseen(g, color) < old(Unseen(g, color))
      ensures cycle.Some? ==> path <= cycle.value && ClosesOnItself(g, cycle.value)
      decreases Unseen(g, color)
    {
      hide Unseen, Universe, DepsFirst;
      Enter(g, color, finished, path, name);
      color := color[name := Grey];
      var deps := Deps(g, name);
      var here := path + [name];
      for i := 0 to |deps|
        invariant Valid(here)
        invariant Unseen(g, color) < old(Unseen(g, color)) && old(finished) <= finished
        invariant forall d :: d in deps[..i] ==> d in finished
      {
        var dep := deps[i];
        assert dep in Deps(g, name) && here[|here| - 1] == name;
        assert deps[..i + 1] == deps[..i] + [dep];
        match ColorIn(color, dep) {
          case Grey =>
            assert dep in here;
            return Some(here);
          case White =>
            ExtendPath(g, here, dep);
            DepInUniverse(g, name, dep);
            ghost var before := finished;
            cycle := Visit(dep, here);
            if cycle.Some? {
              return;
            }
            assert forall d :: d in before ==> d in finished;
          case Black =>
            assert dep in finished;
        }
      }
      assert deps[..|deps|] == deps;
      Leave(g, color, finished, path, name);
      color := color[name := Black];
      finished := finished + [name];
      return None;
    }
  }

  lemma PathIs(g: Graph, p: seq<string>)
    requires IsPath(g, p)
    ensures forall i: nat :: i + 1 < |p| ==> p[i] in g && p[i + 1] in g[p[i]]
  {
    forall i: nat | i + 1 < |p| ensures p[i] in g && p[i + 1] in g[p[i]] {
      assert p[i + 1] in Deps(g, p[i]);
    }
  }

  /** detectCycle: succeeds exactly on acyclic graphs; otherwise it reports a
      dependency path whose last name depends on a name of the path. */
  method DetectCycle(g: Graph) returns (cycle: Option<seq<string>>)
    ensures cycle.None? <==> Acyclic(g)
    ensures cycle.Some? ==> ClosesOnItself(g, cycle.value)
    ensures cycle.Some? ==>
              && cycle.value != []
              && (forall i: nat :: i + 1 < |cycle.value| ==> cycle.value[i] in g && cycle.value[i + 1] in g[cycle.value[i]])
              && var last := cycle.value[|cycle.value| - 1]; last in g && exists d :: d in cycle.value && d in g[last]
  {
    var search := new CycleDetector(g);
    var rest := g.Keys;
    while rest != {}
      invariant search.g == g && rest <= g.Keys
      invariant search.Valid([])
      invariant forall n :: n in g && n !in rest ==> n in search.finished
      decreases rest
    {
      var name :| name in rest;
      rest := rest - {name};
      if ColorIn(search.color, name) == White {
        ghost var before := search.finished;
        cycle := search.Visit(name, []);
        if cycle.Some? {
          ghost var d :| d in cycle.value && d in Deps(g, cycle.value[|cycle.value| - 1]);
          BackEdgeIsCycle(g, cycle.value, d);
          PathIs(g, cycle.value);
          return;
        }
        assert forall n :: n in before ==> n in search.finished;
      }
    }
    OrderedIsAcyclic(g, search.finished);
    return None;
  }

  /** validateDependsOn: no service depends on itself or on an unknown name, and
      there is no cycle. */
  method ValidateDependsOn(g: Graph) returns (ok: bool)
    ensures ok <==> (forall n, d :: n in g && d in g[n] ==> d != n && d in g) && Acyclic(g)
  {
    var rest := g.Keys;
    while rest != {}
      invariant rest <= g.Keys
      invariant forall n, d :: n in g && n !in rest && d in g[n] ==> d != n && d in g
      decreases rest
    {
      var name :| name in rest;
      rest := rest - {name};
      var deps := g[name];
      for i := 0 to |deps|
        invariant forall d :: d in deps[..i] ==> d != name && d in g
      {
        var dep := deps[i];
        assert deps[..i + 1] == deps[..i] + [dep];
        assert dep in g[name];
        if dep == name || dep !in g {
          return false;
        }
      }
      assert deps[..|deps|] == deps;
    }
    var cycle := DetectCycle(g);
    return cycle.None?;
  }
}
