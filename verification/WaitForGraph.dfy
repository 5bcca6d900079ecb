/** The wait-for graph of two-phase locking. */
module WaitForGraph {
  // An edge T -> H says that transaction T waits for transaction H.

  import opened Collections

  type Node = int
  type Graph = map<Node, set<Node>>

  function Successors(g: Graph, n: Node): set<Node> {
    if n in g then g[n] else {}
  }

  function AddEdge(g: Graph, a: Node, b: Node): Graph {
    g[a := Successors(g, a) + {b}]
  }

  /** Removing one edge; a transaction that waits for nobody has no entry. */
  function RemoveEdge(g: Graph, a: Node, b: Node): Graph {
    if Successors(g, a) - {b} == {} then g - {a} else g[a := Successors(g, a) - {b}]
  }

  /** Removing a transaction, as a waiter and as a holder. */
  function RemoveNode(g: Graph, t: Node): Graph {
    map n | n in g && n != t && g[n] - {t} != {} :: g[n] - {t}
  }

  ghost predicate IsPath(g: Graph, p: seq<Node>) {
    && p != []
    && forall i :: 0 <= i < |p| - 1 ==> p[i + 1] in Successors(g, p[i])
  }

  /** A closed walk of at least one edge. */
  ghost predicate IsCycle(g: Graph, p: seq<Node>) {
    IsPath(g, p) && |p| >= 2 && p[0] == p[|p| - 1]
  }

  ghost predicate Acyclic(g: Graph) {
    forall p :: !IsCycle(g, p)
  }

  ghost predicate CycleVia(g: Graph, start: Node, p: seq<Node>, c: seq<Node>) {
    IsPath(g, p) && p[0] == start && IsCycle(g, c) && c[0] == p[|p| - 1]
  }

  /** Some cycle can be reached from `start`. */
  ghost predicate CycleReachable(g: Graph, start: Node) {
    exists p, c :: CycleVia(g, start, p, c)
  }

  ghost predicate SubGraph(g: Graph, g': Graph) {
    forall n :: Successors(g, n) <= Successors(g', n)
  }

  lemma SubGraphAcyclic(g: Graph, g': Graph)
    requires SubGraph(g, g') && Acyclic(g')
    ensures Acyclic(g)
  {
    forall p
      ensures IsCycle(g, p) ==> IsCycle(g', p)
    {
    }
  }

  /** Adding an edge to an acyclic graph creates a cycle only if one is reachable from its source. */
  lemma AddEdgeKeepsAcyclic(g: Graph, a: Node, b: Node)
    requires Acyclic(g)
    requires !CycleReachable(AddEdge(g, a, b), a)
    ensures Acyclic(AddEdge(g, a, b))
  {
    var g' := AddEdge(g, a, b);
    forall p
      ensures !IsCycle(g', p)
    {
      if i :| 0 <= i < |p| - 1 && p[i] == a {
        if IsCycle(g', p) {
          RotateCycle(g', p, i);
          CycleAt(g', a, p[i..] + p[1..i + 1]);
        }
      } else {
        assert IsCycle(g', p) ==> IsCycle(g, p);
      }
    }
  }

  lemma CycleAt(g: Graph, start: Node, c: seq<Node>)
    requires IsCycle(g, c) && c[0] == start
    ensures CycleReachable(g, start)
  {
    assert CycleVia(g, start, [start], c);
  }

  lemma RotateCycle(g: Graph, p: seq<Node>, i: int)
    requires IsCycle(g, p) && 0 <= i < |p| - 1
    ensures IsCycle(g, p[i..] + p[1..i + 1])
  {
    var q := p[i..] + p[1..i + 1];
    forall k | 0 <= k < |q| - 1
      ensures q[k + 1] in Successors(g, q[k])
    {
      if k < |p| - i - 1 {
        assert q[k] == p[i + k] && q[k + 1] == p[i + k + 1];
      } else {
        var m := k - (|p| - i - 1);
        assert q[k] == (if m == 0 then p[|p| - 1] else p[m]) == p[m];
        assert q[k + 1] == p[m + 1];
      }
    }
  }

  // ---------- depth-first search ----------

  ghost predicate Closed(g: Graph, s: set<Node>) {
    forall n :: n in s ==> Successors(g, n) <= s
  }

  ghost predicate NoCycleFrom(g: Graph, s: set<Node>) {
    forall c {:trigger IsCycle(g, c)} :: IsCycle(g, c) ==> c[0] !in s
  }

  ghost function Elements(p: seq<Node>): set<Node> {
    set n | n in p
  }

  function Nodes(g: Graph): set<Node> {
    g.Keys + set n, m | n in g && m in g[n] :: m
  }

  lemma {:induction false} ClosedPath(g: Graph, s: set<Node>, p: seq<Node>)
    requires Closed(g, s) && IsPath(g, p) && p[0] in s
    ensures p[|p| - 1] in s
  {
    if |p| > 1 {
      var q := p[..|p| - 1];
      assert IsPath(g, q);
      ClosedPath(g, s, q);
      assert p[|p| - 2 + 1] in Successors(g, p[|p| - 2]);
    }
  }

  lemma NoCycleReachable(g: Graph, s: set<Node>, start: Node)
    requires Closed(g, s) && NoCycleFrom(g, s) && start in s
    ensures !CycleReachable(g, start)
  {
    forall p, c | IsPath(g, p) && p[0] == start && IsCycle(g, c)
      ensures c[0] != p[|p| - 1]
    {
      ClosedPath(g, s, p);
    }
  }

  /** A node all of whose successors are finished can be finished itself. */
  lemma FinishNode(g: Graph, s: set<Node>, n: Node)
    requires Closed(g, s) && NoCycleFrom(g, s) && Successors(g, n) <= s
    ensures Closed(g, s + {n}) && NoCycleFrom(g, s + {n})
  {
    forall c | IsCycle(g, c)
      ensures c[0] !in s + {n}
    {
      assert c[0 + 1] in Successors(g, c[0]);
      var r := c[1..] + [c[1]];
      assert IsCycle(g, r) by {
        forall i | 0 <= i < |r| - 1
          ensures r[i + 1] in Successors(g, r[i])
        {
          if i < |c| - 2 {
            assert r[i] == c[i + 1] && r[i + 1] == c[i + 1 + 1];
          } else {
            assert r[i] == c[|c| - 1] == c[0];
          }
        }
      }
    }
  }

  /** Meeting a node of the recursion stack closes a cycle. */
  lemma BackEdge(g: Graph, path: seq<Node>, n: Node)
    requires IsPath(g, path) && n in path && n in Successors(g, path[|path| - 1])
    ensures CycleReachable(g, path[0])
  {
    var i :| 0 <= i < |path| && path[i] == n;
    var c := path[i..] + [n];
    forall k | 0 <= k < |c| - 1
      ensures c[k + 1] in Successors(g, c[k])
    {
      assert c[k] == path[i + k];
      assert k < |c| - 2 ==> c[k + 1] == path[i + k + 1];
    }
    assert IsCycle(g, c);
    assert CycleVia(g, path[0], path[..i + 1], c);
  }

  /** The recursive search: `path` is the way from the start of the search to `current`, and
      `recStack` holds the nodes on it; the visited nodes that left the stack are finished. */
  method CheckCycle(g: Graph, current: Node, visited: set<Node>, recStack: set<Node>, ghost path: seq<Node>)
    returns (found: bool, visited': set<Node>, recStack': set<Node>)
    requires current in Nodes(g) && visited <= Nodes(g) && current !in visited
    requires recStack <= visited && recStack == Elements(path)
    requires IsPath(g, path + [current])
    requires Closed(g, visited - recStack) && NoCycleFrom(g, visited - recStack)
    ensures found ==> CycleReachable(g, (path + [current])[0])
    ensures !found ==>
      && recStack' == recStack && visited + {current} <= visited' <= Nodes(g)
      && Closed(g, visited' - recStack') && NoCycleFrom(g, visited' - recStack')
    decreases |Nodes(g) - visited|
  {
    visited', recStack' := visited + {current}, recStack + {current};
    ghost var here := path + [current];
    assert visited' - recStack' == visited - recStack;
    assert Elements(here) == recStack';
    ghost var finished := visited - recStack;
    var neighbours := Successors(g, current);
    while neighbours != {}
      invariant neighbours <= Successors(g, current)
      invariant visited + {current} <= visited' <= Nodes(g)
      invariant recStack' == recStack + {current} == Elements(here)
      invariant finished == visited' - recStack' && Successors(g, current) - neighbours <= finished
      invariant Closed(g, finished) && NoCycleFrom(g, finished)
      decreases neighbours
    {
      var n := Pick(neighbours);
      neighbours := neighbours - {n};
      if n in recStack' {
        BackEdge(g, here, n);
        return true, visited', recStack';
      }
      if n !in visited' {
        assert here[0] == (here + [n])[0];
        SmallerUniverse(Nodes(g), visited, visited', current);
        found, visited', recStack' := CheckCycle(g, n, visited', recStack', here);
        if found {
          return;
        }
        assert finished <= visited' - recStack';
        finished := visited' - recStack';
      }
      assert n in finished;
    }
    FinishNode(g, finished, current);
    recStack' := recStack' - {current};
    assert recStack' == recStack;
    assert visited' - recStack' == finished + {current};
    found := false;
  }

  lemma SmallerUniverse(all: set<Node>, s: set<Node>, s': set<Node>, n: Node)
    requires s + {n} <= s' && n in all && n !in s
    ensures |all - s'| < |all - s|
  {
    assert all - s' <= (all - s) - {n};
    SubsetSize(all - s', (all - s) - {n});
  }

  /** The search from scratch decides whether a cycle is reachable. */
  method HasCycleFrom(g: Graph, start: Node) returns (found: bool)
    requires start in Nodes(g)
    ensures found <==> CycleReachable(g, start)
  {
    var visited, recStack: set<Node>;
    assert Elements([]) == {};
    assert [] + [start] == [start];
    found, visited, recStack := CheckCycle(g, start, {}, {}, []);
    if !found {
      NoCycleReachable(g, visited - recStack, start);
    }
  }
}
