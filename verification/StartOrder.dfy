/** The lifecycle's own depth-first search: the selected services with their
    selected dependencies first. */
module StartOrder {
  import opened Common
  import opened Dependencies

  function Keep(deps: seq<string>, selected: set<string>): (r: seq<string>)
    ensures forall d :: d in r <==> d in deps && d in selected
  {
    if deps == [] then []
    else
      var r := Keep(deps[1..], selected);
      assert deps == [deps[0]] + deps[1..];
      if deps[0] in selected then [deps[0]] + r else r
  }

  /** The graph on the selected names with the dependencies between them. */
  function Induced(g: Graph, selected: set<string>): Graph {
    map n | n in selected :: Keep(Deps(g, n), selected)
  }

  lemma InducedDeps(g: Graph, selected: set<string>, n: string)
    requires n in selected
    ensures forall d :: d in Deps(Induced(g, selected), n) <==> d in Deps(g, n) && d in selected
  {
  }

  /** The stack of names being visited, and the names placed so far. */
  ghost predicate Placing(ind: Graph, visiting: set<string>, visited: set<string>, order: seq<string>, path: seq<string>) {
    && IsPath(ind, path) && Distinct(order) && DepsFirst(ind, order)
    && (forall n :: n in visiting <==> n in path)
    && (forall n :: n in visited <==> n in order)
    && visiting !! visited
    && (forall n :: n in path || n in order ==> n in ind)
  }

  lemma EnterVisit(ind: Graph, visiting: set<string>, visited: set<string>, order: seq<string>, path: seq<string>, name: string)
    requires Placing(ind, visiting, visited, order, path) && name in ind && name !in visiting && name !in visited
    requires IsPath(ind, path + [name])
    ensures Placing(ind, visiting + {name}, visited, order, path + [name])
  {
    hide DepsFirst;
  }

  lemma LeaveVisit(ind: Graph, visiting: set<string>, visited: set<string>, order: seq<string>, path: seq<string>, name: string)
    requires Placing(ind, visiting, visited, order, path + [name]) && name !in path
    requires forall d :: d in Deps(ind, name) ==> d in order
    ensures Placing(ind, visiting - {name}, visited + {name}, order + [name], path)
  {
    var all, here := order + [name], path + [name];
    assert here[|path|] == name;
    assert forall n :: n in here <==> n in path || n == name;
    forall i | 0 <= i < |path| - 1 ensures path[i + 1] in Deps(ind, path[i]) {
      assert here[i + 1] in Deps(ind, here[i]);
    }
    forall i, d | 0 <= i < |all| && d in Deps(ind, all[i]) ensures d in all[..i] {
      assert all[..i] == order[..i];
    }
  }

  class Orderer {
    const g: Graph
    const selected: set<string>
    var visiting: set<string>
    var visited: set<string>
    var order: seq<string>

    constructor (g: Graph, selected: set<string>)
      ensures this.g == g && this.selected == selected && visiting == visited == {} && order == []
    {
      this.g, this.selected := g, selected;
      visiting, visited, order := {}, {}, [];
    }

    ghost predicate Valid(path: seq<string>)
      reads this
    {
      Placing(Induced(g, selected), visiting, visited, order, path)
    }

    ghost function Unvisited(): set<string>
      reads this
    {
      selected - visited - visiting
    }

    /** On success name is placed after its selected dependencies; failure means
        the selection's graph has a cycle. */
    method Visit(name: string, ghost path: seq<string>) returns (ok: bool)
      requires Valid(path) && name in selected && IsPath(Induced(g, selected), path + [name])
      modifies this
      ensures ok ==> Valid(path) && old(order) <= order && name in order && Unvisited() <= old(Unvisited())
      ensures !ok ==> !Acyclic(Induced(g, selected))
      decreases Unvisited(), 0
    {
      hide DepsFirst, Distinct, Induced;
      ghost var ind := Induced(g, selected);
      assert ind.Keys == selected by { KeysOfInduced(g, selected); }
      if name in visited {
        return true;
      }
      if name in visiting {
        assert name in path && name in Deps(ind, path[|path| - 1]) by {
          assert (path + [name])[|path| - 1 + 1] in Deps(ind, (path + [name])[|path| - 1]);
        }
        BackEdgeIsCycle(ind, path, name);
        return false;
      }
      EnterVisit(ind, visiting, visited, order, path, name);
      visiting := visiting + {name};
      var deps := Deps(g, name);
      ghost var here := path + [name];
      InducedDeps(g, selected, name);
      for i := 0 to |deps|
        invariant Valid(here) && old(order) <= order
        invariant Unvisited() < old(Unvisited())
        invariant forall d :: d in deps[..i] && d in selected ==> d in order
      {
        var dep := deps[i];
        assert dep in deps && deps[..i + 1] == deps[..i] + [dep];
        if dep in selected {
          assert here[|here| - 1] == name;
          ExtendPath(ind, here, dep);
          ghost var before := order;
          ok := Visit(dep, here);
          if !ok {
            return;
          }
          assert forall d :: d in before ==> d in order;
        }
      }
      assert deps[..|deps|] == deps;
      assert name !in path;
      LeaveVisit(ind, visiting, visited, order, path, name);
      visiting := visiting - {name};
      visited := visited + {name};
      order := order + [name];
      return true;
    }
  }

  lemma KeysOfInduced(g: Graph, selected: set<string>)
    ensures Induced(g, selected).Keys == selected
  {
  }

  /** startOrder: fails exactly when the selection's own graph has a cycle;
      otherwise each selected name once, every selected direct dependency
      before its dependent. */
  method ComputeStartOrder(g: Graph, selected: seq<string>) returns (order: Option<seq<string>>)
    ensures order.Some? <==> Acyclic(Induced(g, set n | n in selected :: n))
    ensures order.Some? ==> Distinct(order.value) && (forall n :: n in order.value <==> n in selected)
    ensures order.Some? ==> forall i, d :: 0 <= i < |order.value| && d in Deps(g, order.value[i]) && d in selected ==>
                              d in order.value[..i]
  {
    var isSelected := set n | n in selected :: n;
    ghost var ind := Induced(g, isSelected);
    KeysOfInduced(g, isSelected);
    var search := new Orderer(g, isSelected);
    for i := 0 to |selected|
      invariant search.g == g && search.selected == isSelected && search.Valid([])
      invariant forall n :: n in selected[..i] ==> n in search.order
    {
      var name := selected[i];
      assert name in selected && selected[..i + 1] == selected[..i] + [name];
      ghost var before := search.order;
      var ok := search.Visit(name, []);
      if !ok {
        return None;
      }
      assert forall n :: n in before ==> n in search.order;
    }
    assert selected[..|selected|] == selected;
    OrderedIsAcyclic(ind, search.order);
    forall i, d | 0 <= i < |search.order| && d in Deps(g, search.order[i]) && d in selected ensures d in search.order[..i] {
      InducedDeps(g, isSelected, search.order[i]);
    }
    return Some(search.order);
  }

  /** A cycle among the selected services is a cycle. */
  lemma CycleOfInduced(g: Graph, selected: set<string>, p: seq<string>)
    requires IsCycle(Induced(g, selected), p)
    ensures IsCycle(g, p)
  {
    forall i | 0 <= i < |p| - 1 ensures p[i + 1] in Deps(g, p[i]) {
      assert p[i + 1] in Deps(Induced(g, selected), p[i]);
      InducedDeps(g, selected, p[i]);
    }
  }

  /** Every name on a cycle has a dependency, so it is a service. */
  lemma CycleIsInduced(g: Graph, p: seq<string>)
    requires IsCycle(g, p)
    ensures IsCycle(Induced(g, g.Keys), p)
  {
    var n := |p| - 1;
    forall i | 0 <= i <= n ensures p[i] in g {
      if i < n { assert p[i + 1] in Deps(g, p[i]); } else { assert p[1] in Deps(g, p[0]); }
    }
    forall i | 0 <= i < n ensures p[i + 1] in Deps(Induced(g, g.Keys), p[i]) {
      assert p[i + 1] in Deps(g, p[i]);
      InducedDeps(g, g.Keys, p[i]);
    }
  }

  /** Choosing services cannot create a cycle. */
  lemma SelectionStaysAcyclic(g: Graph, selected: set<string>)
    requires Acyclic(g)
    ensures Acyclic(Induced(g, selected))
  {
    var ind := Induced(g, selected);
    forall p ensures !IsCycle(ind, p) {
      if IsCycle(ind, p) { CycleOfInduced(g, selected, p); }
    }
  }

  lemma WholeSelection(g: Graph)
    ensures Acyclic(g) <==> Acyclic(Induced(g, g.Keys))
  {
    if Acyclic(g) {
      SelectionStaysAcyclic(g, g.Keys);
    }
    if Acyclic(Induced(g, g.Keys)) {
      forall p ensures !IsCycle(g, p) {
        if IsCycle(g, p) { CycleIsInduced(g, p); }
      }
    }
  }

  /** The two searches agree on every graph: the white/grey/black one reports no
      cycle exactly when the visiting/visited one can order all services. */
  method SearchesAgree(g: Graph, names: seq<string>) returns (cycle: Option<seq<string>>, order: Option<seq<string>>)
    requires forall n :: n in names <==> n in g
    ensures cycle.None? <==> order.Some?
    ensures cycle.None? <==> Acyclic(g)
  {
    cycle := DetectCycle(g);
    order := ComputeStartOrder(g, names);
    assert (set n | n in names :: n) == g.Keys;
    WholeSelection(g);
  }

  /** After a successful validation no selection of services fails to order. */
  method OrderValidated(g: Graph, selected: seq<string>) returns (valid: bool, order: Option<seq<string>>)
    ensures valid ==> order.Some?
  {
    valid := ValidateDependsOn(g);
    order := ComputeStartOrder(g, selected);
    if valid {
      SelectionStaysAcyclic(g, set n | n in selected :: n);
    }
  }
}
