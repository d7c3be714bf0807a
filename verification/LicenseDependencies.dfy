/** The transitive dependencies of one package, collected from Cargo metadata for the licence
    inventory (`dependency_ids`). */
module LicenseDependencies {

  /** The dependency edges: a package without an entry has none. */
  type Graph = map<string, seq<string>>

  function Deps(nodes: Graph, id: string): seq<string> {
    if id in nodes then nodes[id] else []
  }

  predicate EdgeAt(nodes: Graph, path: seq<string>, i: int)
    requires 0 <= i < |path| - 1
  {
    path[i + 1] in Deps(nodes, path[i])
  }

  ghost predicate IsPath(nodes: Graph, path: seq<string>) {
    |path| >= 2 && forall i :: 0 <= i < |path| - 1 ==> EdgeAt(nodes, path, i)
  }

  /** `target` can be reached from `source` over one or more edges. */
  ghost predicate Reachable(nodes: Graph, source: string, target: string) {
    exists path :: IsPath(nodes, path) && path[0] == source && path[|path| - 1] == target
  }

  lemma ReachStep(nodes: Graph, source: string, via: string, target: string)
    requires via == source || Reachable(nodes, source, via)
    requires target in Deps(nodes, via)
    ensures Reachable(nodes, source, target)
  {
    var path := [source];
    if via != source {
      path :| IsPath(nodes, path) && path[0] == source && path[|path| - 1] == via;
    }
    var longer := path + [target];
    forall i | 0 <= i < |path| ensures EdgeAt(nodes, longer, i) {
      assert i < |path| - 1 ==> EdgeAt(nodes, path, i);
    }
    assert IsPath(nodes, longer);
  }

  /** A set that holds the dependencies of the source and of its own members holds all that can be reached. */
  lemma {:induction false} ClosedHoldsPath(nodes: Graph, source: string, closed: set<string>, path: seq<string>)
    requires forall d :: d in Deps(nodes, source) ==> d in closed
    requires forall id, d :: id in closed && d in Deps(nodes, id) ==> d in closed
    requires IsPath(nodes, path) && path[0] == source
    ensures path[|path| - 1] in closed
    decreases |path|
  {
    var last := |path| - 2;
    assert EdgeAt(nodes, path, last);
    if last > 0 {
      var shorter := path[..last + 1];
      forall i | 0 <= i < last ensures EdgeAt(nodes, shorter, i) {
        assert EdgeAt(nodes, path, i);
      }
      ClosedHoldsPath(nodes, source, closed, shorter);
    }
  }

  ghost predicate Expanded(nodes: Graph, id: string, collected: set<string>) {
    forall d :: d in Deps(nodes, id) ==> d in collected
  }

  ghost predicate IdOk(nodes: Graph, root: string, collected: set<string>, open: set<string>, id: string) {
    && (id in collected ==> Reachable(nodes, root, id))
    && (id in open ==> id == root || id in collected)
    && (id == root || id in collected ==> id in open || Expanded(nodes, id, collected))
  }

  /** What the worklist keeps: only reachable ids are collected, and every one of them, like the root, has
      been expanded or is still open. */
  ghost predicate Inv(nodes: Graph, root: string, collected: set<string>, open: set<string>) {
    forall id :: IdOk(nodes, root, collected, open, id)
  }

  function Elements(s: seq<string>): set<string> {
    set id | id in s
  }

  lemma StartsWithInv(nodes: Graph, root: string)
    ensures Inv(nodes, root, {}, Elements([root]))
  {}

  lemma CollectKeepsInv(nodes: Graph, root: string, collected: set<string>, open: set<string>, current: string,
                        d: string)
    requires Inv(nodes, root, collected, open) && current in open && d in Deps(nodes, current)
    ensures Inv(nodes, root, collected + {d}, open + {d})
  {
    assert IdOk(nodes, root, collected, open, current);
    ReachStep(nodes, root, current, d);
    forall id ensures IdOk(nodes, root, collected + {d}, open + {d}, id) {
      assert IdOk(nodes, root, collected, open, id);
    }
  }

  lemma ExpandedKeepsInv(nodes: Graph, root: string, collected: set<string>, open: set<string>, current: string)
    requires Inv(nodes, root, collected, open + {current}) && Expanded(nodes, current, collected)
    ensures Inv(nodes, root, collected, open)
  {
    forall id ensures IdOk(nodes, root, collected, open, id) {
      assert IdOk(nodes, root, collected, open + {current}, id);
    }
  }

  /** Once nothing is open, exactly the reachable ids are collected. */
  lemma NothingOpen(nodes: Graph, root: string, collected: set<string>)
    requires Inv(nodes, root, collected, {})
    ensures forall id :: id in collected <==> Reachable(nodes, root, id)
  {
    assert IdOk(nodes, root, collected, {}, root);
    forall id | id in collected ensures Reachable(nodes, root, id) && Expanded(nodes, id, collected) {
      assert IdOk(nodes, root, collected, {}, id);
    }
    forall id | Reachable(nodes, root, id) ensures id in collected {
      var path :| IsPath(nodes, path) && path[0] == root && path[|path| - 1] == id;
      ClosedHoldsPath(nodes, root, collected, path);
    }
  }

  lemma ElementsSnoc(s: seq<string>, id: string)
    ensures Elements(s + [id]) == Elements(s) + {id}
  {
    assert forall x :: x in s + [id] <==> x in s || x == id;
  }

  ghost function Targets(nodes: Graph): set<string> {
    set id, d | id in nodes && d in nodes[id] :: d
  }

  lemma PushKeepsInv(nodes: Graph, root: string, collected: set<string>, pending: seq<string>, current: string,
                     d: string)
    requires Inv(nodes, root, collected, Elements(pending) + {current}) && d in Deps(nodes, current)
    ensures Inv(nodes, root, collected + {d}, Elements(pending + [d]) + {current})
    ensures d in Targets(nodes)
  {
    CollectKeepsInv(nodes, root, collected, Elements(pending) + {current}, current, d);
    ElementsSnoc(pending, d);
    assert Elements(pending + [d]) + {current} == Elements(pending) + {current} + {d};
  }

  /** The worklist ends on every graph, cycles and missing nodes included, and returns exactly what can be
      reached from the root over one or more edges, without the root itself. */
  method DependencyIds(nodes: Graph, root: string) returns (collected: set<string>)
    ensures forall id :: id in collected <==> id != root && Reachable(nodes, root, id)
  {
    collected := {};
    var pending := [root];
    StartsWithInv(nodes, root);
    while pending != []
      invariant Inv(nodes, root, collected, Elements(pending))
      invariant collected <= Targets(nodes)
      decreases Targets(nodes) - collected, |pending|
    {
      var current := pending[|pending| - 1];
      ghost var before, rest := collected, pending[..|pending| - 1];
      assert pending == rest + [current];
      ElementsSnoc(rest, current);
      pending := pending[..|pending| - 1];
      var deps := Deps(nodes, current);
      for i := 0 to |deps|
        invariant Inv(nodes, root, collected, Elements(pending) + {current})
        invariant before <= collected <= Targets(nodes)
        invariant collected == before ==> pending == rest
        invariant forall j :: 0 <= j < i ==> deps[j] in collected
      {
        var d := deps[i];
        if d !in collected {
          PushKeepsInv(nodes, root, collected, pending, current, d);
          collected, pending := collected + {d}, pending + [d];
        }
      }
      ExpandedKeepsInv(nodes, root, collected, Elements(pending), current);
    }
    assert Elements(pending) == {};
    NothingOpen(nodes, root, collected);
    collected := collected - {root};
  }
}
