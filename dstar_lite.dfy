/**
 * The D* Lite planner of PathFinder::DStarLite on a 4-connected grid.
 *
 * The planner keeps three cost tables (g, rhs and the per-cell step cost),
 * an open list that is a priority queue with lazy deletion, and an open set
 * that says which cells are really open.  The open list is a multiset of
 * keyed entries; its top is any entry with a minimal key, as
 * std::priority_queue leaves the order of equal keys unspecified.
 */
module DStarLite {
  import opened Costs
  import opened Common

  datatype Node = Node(x: int, y: int)

  /** An open-list element: the key it was pushed with and its cell. */
  datatype Entry = Entry(key: Key, node: Node)

  function Abs(v: int): nat
  {
    if v < 0 then -v else v
  }

  /** heuristic: Manhattan distance. */
  function Heuristic(a: Node, b: Node): (r: nat)
    ensures r == 0 <==> a == b
    ensures r == Abs(b.x - a.x) + Abs(b.y - a.y)
  {
    Abs(a.x - b.x) + Abs(a.y - b.y)
  }

  /** The heuristic changes by at most one between grid neighbours, the
      consistency D* Lite relies on. */
  lemma HeuristicConsistent(a: Node, s: Node, n: Node)
    requires Heuristic(s, n) == 1
    ensures Heuristic(a, s) <= Heuristic(a, n) + 1
    ensures Heuristic(a, n) <= Heuristic(a, s) + 1
  {
  }

  predicate InGrid(width: int, height: int, n: Node)
  {
    0 <= n.x < width && 0 <= n.y < height
  }

  /** A cell getNeighbors may return: inside the grid, with a finite cost. */
  predicate Traversable(cost: map<Node, ExtNat>, width: int, height: int, n: Node)
  {
    InGrid(width, height, n) && n in cost && cost[n].Fin?
  }

  /** The four moves getNeighbors tries, in its order (dx = 1, -1, 0, 0;
      dy = 0, 0, 1, -1). */
  function Candidates(s: Node): (r: seq<Node>)
    ensures |r| == 4
    ensures forall n :: n in r <==> Heuristic(s, n) == 1
  {
    [Node(s.x + 1, s.y), Node(s.x - 1, s.y), Node(s.x, s.y + 1), Node(s.x, s.y - 1)]
  }

  /** The traversable cells of `cs`, in order. */
  function Passable(cost: map<Node, ExtNat>, width: int, height: int, cs: seq<Node>): seq<Node>
  {
    if cs == [] then []
    else
      Passable(cost, width, height, cs[..|cs| - 1]) +
      (if Traversable(cost, width, height, cs[|cs| - 1]) then [cs[|cs| - 1]] else [])
  }

  lemma {:induction false} PassableMembers(cost: map<Node, ExtNat>, width: int, height: int, cs: seq<Node>)
    ensures |Passable(cost, width, height, cs)| <= |cs|
    ensures forall n :: n in Passable(cost, width, height, cs) <==> n in cs && Traversable(cost, width, height, n)
  {
    if cs != [] {
      var init := cs[..|cs| - 1];
      PassableMembers(cost, width, height, init);
      assert cs == init + [cs[|cs| - 1]];
    }
  }

  /** getNeighbors: at most four cells, exactly the traversable cells at
      Manhattan distance one. */
  function Neighbors(cost: map<Node, ExtNat>, width: int, height: int, s: Node): (r: seq<Node>)
    ensures |r| <= 4
    ensures forall n :: n in r <==> Traversable(cost, width, height, n) && Heuristic(s, n) == 1
    ensures forall i :: 0 <= i < |r| ==> Traversable(cost, width, height, r[i])
  {
    PassableMembers(cost, width, height, Candidates(s));
    Passable(cost, width, height, Candidates(s))
  }

  /** cost(n) + g(n), the sum run's greedy step compares. */
  function StepSum(cost: map<Node, ExtNat>, g: map<Node, ExtNat>, n: Node): ExtNat
  {
    Add(Get(cost, n), Get(g, n))
  }

  /** A missing table entry reads as infinity (the source never reads one). */
  function Get(m: map<Node, ExtNat>, n: Node): ExtNat
  {
    if n in m then m[n] else Inf
  }

  /** The value updateVertex's loop computes: the minimum over `ns` of
      `c + g(s)`, starting from infinity and folding with std::min. */
  function MinOver(c: ExtNat, g: map<Node, ExtNat>, ns: seq<Node>): ExtNat
  {
    if ns == [] then Inf
    else Min(MinOver(c, g, ns[..|ns| - 1]), Add(c, Get(g, ns[|ns| - 1])))
  }

  /** MinOver is the minimum: below every candidate, equal to one of them,
      and infinity when there is none. */
  lemma {:induction false} MinOverIsMinimum(c: ExtNat, g: map<Node, ExtNat>, ns: seq<Node>)
    ensures ns == [] ==> MinOver(c, g, ns) == Inf
    ensures forall s :: s in ns ==> !Less(Add(c, Get(g, s)), MinOver(c, g, ns))
    ensures ns != [] ==> exists s :: s in ns && MinOver(c, g, ns) == Add(c, Get(g, s))
  {
    if ns != [] {
      var init, last := ns[..|ns| - 1], ns[|ns| - 1];
      MinOverIsMinimum(c, g, init);
      assert ns == init + [last];
      var m := MinOver(c, g, init);
      var a := Add(c, Get(g, last));
      var r := MinOver(c, g, ns);
      assert r == Min(m, a);
      forall s | s in ns
        ensures !Less(Add(c, Get(g, s)), r)
      {
        if s in init {
          LessIsStrictTotalOrder(Add(c, Get(g, s)), r, m);
        } else {
          assert s == last;
        }
      }
      if r == a {
        assert last in ns;
      } else {
        assert init != [];
        var w :| w in init && m == Add(c, Get(g, w));
        assert w in ns;
      }
    }
  }

  /** MinOver does not depend on cells outside `ns`. */
  lemma {:induction false} MinOverFrame(c: ExtNat, g: map<Node, ExtNat>, ns: seq<Node>, u: Node, v: ExtNat)
    requires u !in ns
    ensures MinOver(c, g[u := v], ns) == MinOver(c, g, ns)
  {
    if ns != [] {
      assert ns[..|ns| - 1] + [ns[|ns| - 1]] == ns;
      MinOverFrame(c, g, ns[..|ns| - 1], u, v);
    }
  }

  /** From an infinite own cost, or when every candidate is infinite, the
      minimum is infinite. */
  lemma {:induction false} MinOverInf(c: ExtNat, g: map<Node, ExtNat>, ns: seq<Node>)
    requires c == Inf || forall s :: s in ns ==> Get(g, s) == Inf
    ensures MinOver(c, g, ns) == Inf
  {
    if ns != [] {
      assert ns[..|ns| - 1] + [ns[|ns| - 1]] == ns;
      MinOverInf(c, g, ns[..|ns| - 1]);
    }
  }

  /** The value updateVertex assigns to rhs(u) for u other than the goal. */
  function RhsFor(cost: map<Node, ExtNat>, g: map<Node, ExtNat>, width: int, height: int, u: Node): ExtNat
  {
    MinOver(Get(cost, u), g, Neighbors(cost, width, height, u))
  }

  /** updateVertex's rhs value is the minimum over u's neighbours of
      cost(u) + g(s), or infinity when u has none. */
  lemma RhsForIsMinimum(cost: map<Node, ExtNat>, g: map<Node, ExtNat>, width: int, height: int, u: Node)
    ensures Neighbors(cost, width, height, u) == [] ==> RhsFor(cost, g, width, height, u) == Inf
    ensures forall s :: Traversable(cost, width, height, s) && Heuristic(u, s) == 1 ==>
      !Less(Add(Get(cost, u), Get(g, s)), RhsFor(cost, g, width, height, u))
    ensures Neighbors(cost, width, height, u) != [] ==>
      exists s :: Traversable(cost, width, height, s) && Heuristic(u, s) == 1 &&
        RhsFor(cost, g, width, height, u) == Add(Get(cost, u), Get(g, s))
  {
    MinOverIsMinimum(Get(cost, u), g, Neighbors(cost, width, height, u));
  }

  /** Changing g(u) leaves rhs(v) as it was unless v is one of the cells
      getNeighbors(u) returns: a cell that has u as a neighbour but is not
      itself traversable has an infinite own cost. */
  lemma RhsAfterChange(cost: map<Node, ExtNat>, g: map<Node, ExtNat>, width: int, height: int, u: Node, val: ExtNat, v: Node)
    requires InGrid(width, height, v) && v in cost
    requires v !in Neighbors(cost, width, height, u)
    ensures RhsFor(cost, g[u := val], width, height, v) == RhsFor(cost, g, width, height, v)
  {
    var ns := Neighbors(cost, width, height, v);
    if u in ns {
      assert !Traversable(cost, width, height, v);
      MinOverInf(Get(cost, v), g, ns);
      MinOverInf(Get(cost, v), g[u := val], ns);
    } else {
      MinOverFrame(Get(cost, v), g, ns, u, val);
    }
  }

  /** calculateKey: [min(g, rhs) + h(start, s) + km; min(g, rhs)]. */
  function CalculateKey(g: map<Node, ExtNat>, rhs: map<Node, ExtNat>, start: Node, km: nat, s: Node): (k: Key)
    ensures k.secondary == Min(Get(g, s), Get(rhs, s))
    ensures k.primary.Inf? <==> Get(g, s).Inf? && Get(rhs, s).Inf?
  {
    var m := Min(Get(g, s), Get(rhs, s));
    Key(Add(Add(m, Fin(Heuristic(start, s))), Fin(km)), m)
  }

  /** The entry std::priority_queue::top may return: no key is smaller. */
  predicate IsTop(e: Entry, m: multiset<Entry>)
  {
    e in m && forall e' :: e' in m ==> !KeyLess(e'.key, e.key)
  }

  lemma {:induction false} TopExists(m: multiset<Entry>)
    requires m != multiset{}
    ensures exists e :: IsTop(e, m)
    decreases |m|
  {
    var x :| x in m;
    var rest := m - multiset{x};
    assert m == rest + multiset{x};
    if rest == multiset{} {
      assert IsTop(x, m);
    } else {
      TopExists(rest);
      var y :| IsTop(y, rest);
      TopAfterAdd(rest, x, y);
    }
  }

  /** Adding x to a multiset whose top is y: x or y is on top. */
  lemma TopAfterAdd(rest: multiset<Entry>, x: Entry, y: Entry)
    requires IsTop(y, rest)
    ensures IsTop(x, rest + multiset{x}) || IsTop(y, rest + multiset{x})
  {
    var m := rest + multiset{x};
    if KeyLess(x.key, y.key) {
      forall e' | e' in m
        ensures !KeyLess(e'.key, x.key)
      {
        KeyLessIsStrictOrder(e'.key, x.key, y.key);
        if e' != x {
          assert e' in rest;
        }
      }
    } else {
      forall e' | e' in m
        ensures !KeyLess(e'.key, y.key)
      {
        if e' != x {
          assert e' in rest;
        }
      }
    }
  }

  /** Per-cell step cost built by the constructor: infinity on an obstacle
      (grid value 1), otherwise 1. */
  function CellCost(grid: seq<seq<byte>>, n: Node): ExtNat
    requires 0 <= n.y < |grid| && 0 <= n.x < |grid[n.y]|
  {
    if grid[n.y][n.x] == 1 then Inf else Fin(1)
  }

  predicate Rectangular(grid: seq<seq<byte>>)
  {
    forall y :: 0 <= y < |grid| ==> |grid[y]| == |grid[0]|
  }

  /** Successive cells of a walk are getNeighbors neighbours. */
  ghost predicate IsWalk(cost: map<Node, ExtNat>, width: int, height: int, path: seq<Node>)
  {
    forall i :: 0 < i < |path| ==> path[i] in Neighbors(cost, width, height, path[i - 1])
  }

  /** Appending a neighbour of its last cell keeps a walk a walk. */
  lemma WalkExtend(cost: map<Node, ExtNat>, width: int, height: int, path: seq<Node>, n: Node)
    requires |path| >= 1 && IsWalk(cost, width, height, path)
    requires n in Neighbors(cost, width, height, path[|path| - 1])
    ensures IsWalk(cost, width, height, path + [n])
  {
    var p := path + [n];
    forall i | 0 < i < |p|
      ensures p[i] in Neighbors(cost, width, height, p[i - 1])
    {
      if i < |path| {
        assert p[i] == path[i] && p[i - 1] == path[i - 1];
      }
    }
  }

  /** A snapshot of the planner's tables and open list. */
  datatype Tables = Tables(
    g: map<Node, ExtNat>,
    rhs: map<Node, ExtNat>,
    cost: map<Node, ExtNat>,
    openList: multiset<Entry>,
    openSet: set<Node>)

  /** Every table covers exactly the grid, and open cells are in it. */
  ghost predicate TablesCover(t: Tables, width: int, height: int)
  {
    && (forall n :: n in t.g <==> InGrid(width, height, n))
    && (forall n :: n in t.rhs <==> InGrid(width, height, n))
    && (forall n :: n in t.cost <==> InGrid(width, height, n))
    && (forall n :: n in t.openSet ==> InGrid(width, height, n))
  }

  /** The D* Lite invariants, except at the cells of `pending`, which are
      about to be passed to updateVertex: rhs(goal) is 0, every other rhs is
      the one-step lookahead of g, a cell is in the open set exactly when it
      is locally inconsistent (g != rhs), and every open cell has an entry in
      the open list. */
  ghost predicate ConsistentExcept(t: Tables, width: int, height: int, goal: Node, pending: seq<Node>)
    requires TablesCover(t, width, height) && InGrid(width, height, goal)
  {
    && t.rhs[goal] == Fin(0)
    && (forall v :: InGrid(width, height, v) && v != goal && v !in pending ==>
          t.rhs[v] == RhsFor(t.cost, t.g, width, height, v))
    && (forall v :: InGrid(width, height, v) && v !in pending ==>
          (v in t.openSet <==> t.g[v] != t.rhs[v]))
    && (forall v :: v in t.openSet ==> exists e :: e in t.openList && e.node == v)
  }

  /** A stale open-list entry (its cell is no longer open) can be popped. */
  lemma DropStale(t: Tables, width: int, height: int, goal: Node, e: Entry)
    requires TablesCover(t, width, height) && InGrid(width, height, goal)
    requires ConsistentExcept(t, width, height, goal, []) && e.node !in t.openSet
    ensures var t' := t.(openList := t.openList - multiset{e});
      TablesCover(t', width, height) && ConsistentExcept(t', width, height, goal, [])
  {
    var t' := t.(openList := t.openList - multiset{e});
    forall v | v in t'.openSet
      ensures exists x :: x in t'.openList && x.node == v
    {
      var x :| x in t.openList && x.node == v;
      assert x != e;
      assert x in t'.openList;
    }
  }

  /** Popping an open cell's entry and pushing it again with a new key. */
  lemma Requeue(t: Tables, width: int, height: int, goal: Node, e: Entry, k: Key)
    requires TablesCover(t, width, height) && InGrid(width, height, goal)
    requires ConsistentExcept(t, width, height, goal, []) && e.node in t.openSet
    ensures var t' := t.(openList := t.openList - multiset{e} + multiset{Entry(k, e.node)});
      TablesCover(t', width, height) && ConsistentExcept(t', width, height, goal, [])
  {
    var t' := t.(openList := t.openList - multiset{e} + multiset{Entry(k, e.node)});
    forall v | v in t'.openSet
      ensures exists x :: x in t'.openList && x.node == v
    {
      if v == e.node {
        assert Entry(k, e.node) in t'.openList;
      } else {
        var x :| x in t.openList && x.node == v;
        assert x != e;
        assert x in t'.openList;
      }
    }
  }

  /** The tables after g(u) is set to `val` and u's top entry popped and
      erased from the open set. */
  function Settle(t: Tables, u: Node, val: ExtNat, e: Entry): Tables
  {
    t.(g := t.g[u := val], openList := t.openList - multiset{e}, openSet := t.openSet - {u})
  }

  /** After g(u) changes, only u and the cells getNeighbors(u) returns can
      be inconsistent; when g(u) becomes rhs(u), only the neighbours. */
  lemma SettleCell(t: Tables, width: int, height: int, goal: Node, u: Node, val: ExtNat, e: Entry)
    requires TablesCover(t, width, height) && InGrid(width, height, goal) && InGrid(width, height, u)
    requires ConsistentExcept(t, width, height, goal, []) && e.node == u
    ensures TablesCover(Settle(t, u, val, e), width, height)
    ensures ConsistentExcept(Settle(t, u, val, e), width, height, goal, [u] + Neighbors(t.cost, width, height, u))
    ensures val == t.rhs[u] ==> ConsistentExcept(Settle(t, u, val, e), width, height, goal, Neighbors(t.cost, width, height, u))
  {
    var t' := Settle(t, u, val, e);
    var nbrs := Neighbors(t.cost, width, height, u);
    forall v | InGrid(width, height, v) && v !in nbrs
      ensures RhsFor(t'.cost, t'.g, width, height, v) == RhsFor(t.cost, t.g, width, height, v)
    {
      RhsAfterChange(t.cost, t.g, width, height, u, val, v);
    }
    forall v | v in t'.openSet
      ensures exists x :: x in t'.openList && x.node == v
    {
      var x :| x in t.openList && x.node == v;
      assert x != e;
      assert x in t'.openList;
    }
    assert u !in nbrs;
  }

  /** One updateVertex call on the first pending cell repairs that cell. */
  lemma RepairFirst(t: Tables, t': Tables, width: int, height: int, goal: Node, pending: seq<Node>)
    requires TablesCover(t, width, height) && InGrid(width, height, goal)
    requires pending != [] && InGrid(width, height, pending[0])
    requires ConsistentExcept(t, width, height, goal, pending)
    requires t'.g == t.g && t'.cost == t.cost
    requires t'.rhs == t.rhs[pending[0] := if pending[0] != goal then RhsFor(t.cost, t.g, width, height, pending[0])
                                          else t.rhs[pending[0]]]
    requires pending[0] in t'.openSet <==> t'.g[pending[0]] != t'.rhs[pending[0]]
    requires t'.openSet - {pending[0]} == t.openSet - {pending[0]}
    requires t.openList <= t'.openList
    requires pending[0] in t'.openSet ==> exists x :: x in t'.openList && x.node == pending[0]
    ensures TablesCover(t', width, height)
    ensures ConsistentExcept(t', width, height, goal, pending[1..])
  {
    var u := pending[0];
    assert pending == [u] + pending[1..];
    forall n | n in t'.openSet
      ensures InGrid(width, height, n)
    {
      if n != u {
        assert n in t'.openSet - {u};
      }
    }
    forall v | v in t'.openSet
      ensures exists x :: x in t'.openList && x.node == v
    {
      if v != u {
        assert v in t.openSet by {
          assert v in t'.openSet - {u};
        }
        var x :| x in t.openList && x.node == v;
        assert x in t'.openList;
      }
    }
    forall v | InGrid(width, height, v) && v !in pending[1..]
      ensures v in t'.openSet <==> t'.g[v] != t'.rhs[v]
    {
      if v != u {
        assert v in t'.openSet <==> v in t'.openSet - {u};
        assert v in t.openSet <==> v in t.openSet - {u};
      }
    }
  }

  /** The loops of the constructor that fill the three tables. */
  method InitialTables(grid: seq<seq<byte>>) returns (g: map<Node, ExtNat>, rhs: map<Node, ExtNat>, cost: map<Node, ExtNat>)
    requires |grid| > 0 && Rectangular(grid)
    ensures forall n :: n in g <==> InGrid(|grid[0]|, |grid|, n)
    ensures forall n :: n in rhs <==> InGrid(|grid[0]|, |grid|, n)
    ensures forall n :: n in cost <==> InGrid(|grid[0]|, |grid|, n)
    ensures forall n :: n in g ==> g[n] == Inf
    ensures forall n :: n in rhs ==> rhs[n] == Inf
    ensures forall n :: n in cost ==> InGrid(|grid[0]|, |grid|, n) && cost[n] == CellCost(grid, n)
  {
    var w, h := |grid[0]|, |grid|;
    g, rhs, cost := map[], map[], map[];
    for y := 0 to h
      invariant forall n :: n in g <==> Filled(w, y, 0, n)
      invariant forall n :: n in rhs <==> Filled(w, y, 0, n)
      invariant forall n :: n in cost <==> Filled(w, y, 0, n)
      invariant forall n :: n in g ==> g[n] == Inf
      invariant forall n :: n in rhs ==> rhs[n] == Inf
      invariant forall n :: n in cost ==> InGrid(w, h, n) && cost[n] == CellCost(grid, n)
    {
      for x := 0 to w
        invariant forall n :: n in g <==> Filled(w, y, x, n)
        invariant forall n :: n in rhs <==> Filled(w, y, x, n)
        invariant forall n :: n in cost <==> Filled(w, y, x, n)
        invariant forall n :: n in g ==> g[n] == Inf
        invariant forall n :: n in rhs ==> rhs[n] == Inf
        invariant forall n :: n in cost ==> InGrid(w, h, n) && cost[n] == CellCost(grid, n)
      {
        g := g[Node(x, y) := Inf];
        rhs := rhs[Node(x, y) := Inf];
        cost := cost[Node(x, y) := if grid[y][x] == 1 then Inf else Fin(1)];
      }
    }
  }

  /** The cells the row-major fill has reached before column x of row y. */
  predicate Filled(width: int, y: int, x: int, n: Node)
  {
    (0 <= n.y < y && 0 <= n.x < width) || (n.y == y && 0 <= n.x < x)
  }

  /** With g infinite everywhere and rhs infinite except rhs(goal) = 0, only
      the goal is inconsistent. */
  lemma InitiallyConsistent(t: Tables, width: int, height: int, goal: Node)
    requires TablesCover(t, width, height) && InGrid(width, height, goal)
    requires forall n :: n in t.g ==> t.g[n] == Inf
    requires forall n :: n in t.rhs ==> t.rhs[n] == if n == goal then Fin(0) else Inf
    requires t.openSet == {} && t.openList == multiset{}
    ensures ConsistentExcept(t, width, height, goal, [goal])
  {
    forall v | InGrid(width, height, v) && v != goal
      ensures t.rhs[v] == RhsFor(t.cost, t.g, width, height, v)
    {
      MinOverInf(Get(t.cost, v), t.g, Neighbors(t.cost, width, height, v));
    }
  }

  /** The constructor's tables: after rhs(goal) = 0 and insertOpen(goal),
      every D* Lite invariant holds. */
  lemma InitialState(t: Tables, width: int, height: int, start: Node, goal: Node)
    requires TablesCover(t, width, height) && InGrid(width, height, goal)
    requires forall n :: n in t.g ==> t.g[n] == Inf
    requires forall n :: n in t.rhs ==> t.rhs[n] == Inf
    requires t.openSet == {} && t.openList == multiset{}
    ensures var rhs := t.rhs[goal := Fin(0)];
      var t' := t.(rhs := rhs, openList := multiset{Entry(CalculateKey(t.g, rhs, start, 0, goal), goal)}, openSet := {goal});
      TablesCover(t', width, height) && ConsistentExcept(t', width, height, goal, [])
  {
    var rhs := t.rhs[goal := Fin(0)];
    var t0 := t.(rhs := rhs);
    var t' := t.(rhs := rhs, openList := multiset{Entry(CalculateKey(t.g, rhs, start, 0, goal), goal)}, openSet := {goal});
    InitiallyConsistent(t0, width, height, goal);
    assert Entry(CalculateKey(t.g, rhs, start, 0, goal), goal) in t'.openList;
    RepairFirst(t0, t', width, height, goal, [goal]);
    assert [goal][1..] == [];
  }

  /** The constructor's body: the table-filling loops, then rhs(goal) = 0
      and insertOpen(goal).  Every D* Lite invariant holds afterwards. */
  method ConstructorTables(grid: seq<seq<byte>>, start: Node, goal: Node) returns (t: Tables)
    requires |grid| > 0 && Rectangular(grid) && InGrid(|grid[0]|, |grid|, goal)
    ensures TablesCover(t, |grid[0]|, |grid|) && ConsistentExcept(t, |grid[0]|, |grid|, goal, [])
    ensures forall n :: InGrid(|grid[0]|, |grid|, n) ==> t.cost[n] == CellCost(grid, n)
    ensures forall n :: InGrid(|grid[0]|, |grid|, n) ==> t.g[n] == Inf
    ensures forall n :: InGrid(|grid[0]|, |grid|, n) ==> t.rhs[n] == if n == goal then Fin(0) else Inf
    ensures t.openSet == {goal}
    ensures t.openList == multiset{Entry(CalculateKey(t.g, t.rhs, start, 0, goal), goal)}
  {
    var g0, rhs0, cost0 := InitialTables(grid);
    var rhs := rhs0[goal := Fin(0)];
    t := Tables(g0, rhs, cost0, multiset{Entry(CalculateKey(g0, rhs, start, 0, goal), goal)}, {goal});
    InitialState(Tables(g0, rhs0, cost0, multiset{}, {}), |grid[0]|, |grid|, start, goal);
  }

  /** With the open list empty, no cell is open, so every cell is locally
      consistent. */
  lemma DrainedIsConsistent(t: Tables, width: int, height: int, goal: Node)
    requires TablesCover(t, width, height) && InGrid(width, height, goal)
    requires ConsistentExcept(t, width, height, goal, []) && t.openList == multiset{}
    ensures forall v :: InGrid(width, height, v) ==> t.g[v] == t.rhs[v]
  {
    forall v | InGrid(width, height, v)
      ensures t.g[v] == t.rhs[v]
    {
      assert v !in t.openSet;
    }
  }

  /** Every step cost is 1 or infinite, as the constructor sets them. */
  ghost predicate UnitCosts(cost: map<Node, ExtNat>)
  {
    forall n :: n in cost ==> cost[n] == Inf || cost[n] == Fin(1)
  }

  /** Every cell of the grid is locally consistent. */
  ghost predicate Settled(t: Tables, width: int, height: int)
    requires TablesCover(t, width, height)
  {
    forall v :: InGrid(width, height, v) ==> t.g[v] == t.rhs[v]
  }

  /** On settled tables with unit costs, a reachable cell other than the
      goal has g at least 1, a neighbour whose g is one less, and no
      neighbour cheaper than that. */
  lemma GreedyStep(t: Tables, width: int, height: int, goal: Node, s: Node)
    requires TablesCover(t, width, height) && InGrid(width, height, goal)
    requires ConsistentExcept(t, width, height, goal, []) && Settled(t, width, height) && UnitCosts(t.cost)
    requires InGrid(width, height, s) && s != goal && t.g[s] != Inf
    ensures t.g[s].n >= 1
    ensures exists n :: n in Neighbors(t.cost, width, height, s) && t.g[n] == Fin(t.g[s].n - 1)
    ensures forall n :: n in Neighbors(t.cost, width, height, s) ==> !Less(Add(t.cost[n], t.g[n]), t.g[s])
  {
    assert t.g[s] == t.rhs[s];
    GreedyWitness(t.cost, t.g, width, height, s);
    GreedyNoCheaper(t.cost, t.g, width, height, s);
  }

  /** The first two facts of GreedyStep: g(s) is at least 1 and is one more
      than the g of some neighbour. */
  lemma GreedyWitness(cost: map<Node, ExtNat>, g: map<Node, ExtNat>, width: int, height: int, s: Node)
    requires UnitCosts(cost) && forall n :: InGrid(width, height, n) ==> n in g
    requires s in g && s in cost && g[s] == RhsFor(cost, g, width, height, s) && g[s] != Inf
    ensures g[s].n >= 1
    ensures exists n :: n in Neighbors(cost, width, height, s) && g[n] == Fin(g[s].n - 1)
  {
    var nbrs := Neighbors(cost, width, height, s);
    RhsForIsMinimum(cost, g, width, height, s);
    assert nbrs != [];
    var n0 :| Traversable(cost, width, height, n0) && Heuristic(s, n0) == 1 &&
      g[s] == Add(Get(cost, s), Get(g, n0));
    assert cost[s] == Fin(1);
    assert n0 in nbrs && g[n0] == Fin(g[s].n - 1);
  }

  /** The last fact of GreedyStep: no neighbour's cost(n) + g(n) is below
      g(s). */
  lemma GreedyNoCheaper(cost: map<Node, ExtNat>, g: map<Node, ExtNat>, width: int, height: int, s: Node)
    requires UnitCosts(cost) && forall n :: InGrid(width, height, n) ==> n in g
    requires s in g && s in cost && g[s] == RhsFor(cost, g, width, height, s) && g[s] != Inf
    ensures forall n :: n in Neighbors(cost, width, height, s) ==> !Less(Add(cost[n], g[n]), g[s])
  {
    var nbrs := Neighbors(cost, width, height, s);
    RhsForIsMinimum(cost, g, width, height, s);
    assert cost[s] == Fin(1);
    forall n | n in nbrs
      ensures !Less(Add(cost[n], g[n]), g[s])
    {
      assert cost[n] == Fin(1);
    }
  }

  /** On settled tables with unit costs, the neighbour run's greedy step
      picks from a reachable cell other than the goal is one closer. */
  lemma GreedyChoice(t: Tables, width: int, height: int, goal: Node, s: Node, next: Node)
    requires TablesCover(t, width, height) && InGrid(width, height, goal)
    requires ConsistentExcept(t, width, height, goal, []) && Settled(t, width, height) && UnitCosts(t.cost)
    requires InGrid(width, height, s) && s != goal && t.g[s] != Inf
    requires next == s || next in Neighbors(t.cost, width, height, s)
    requires next == s <==> forall n :: n in Neighbors(t.cost, width, height, s) ==> Add(t.cost[n], t.g[n]) == Inf
    requires next != s ==> forall n :: n in Neighbors(t.cost, width, height, s) ==>
                              !Less(Add(t.cost[n], t.g[n]), Add(t.cost[next], t.g[next]))
    ensures next != s && t.g[next] != Inf && t.g[next].n + 1 == t.g[s].n
  {
    GreedyStep(t, width, height, goal, s);
    var n0 :| n0 in Neighbors(t.cost, width, height, s) && t.g[n0] == Fin(t.g[s].n - 1);
    assert t.cost[n0] == Fin(1);
    assert next != s;
    assert t.cost[next] == Fin(1);
  }

  /** On settled tables with unit costs, a traversable cell is at most one
      more than any of its neighbours. */
  lemma StepBound(t: Tables, width: int, height: int, goal: Node, u: Node, n: Node)
    requires TablesCover(t, width, height) && InGrid(width, height, goal)
    requires ConsistentExcept(t, width, height, goal, []) && Settled(t, width, height) && UnitCosts(t.cost)
    requires Traversable(t.cost, width, height, u) && n in Neighbors(t.cost, width, height, u) && t.g[n] != Inf
    ensures t.g[u] != Inf && t.g[u].n <= t.g[n].n + 1
  {
    if u != goal {
      RhsForIsMinimum(t.cost, t.g, width, height, u);
      assert t.cost[u] == Fin(1);
      assert !Less(Add(t.cost[u], t.g[n]), t.g[u]);
    }
  }

  /** On settled tables with unit costs, every walk from a traversable cell
      to the goal takes at least g(first cell) steps. */
  lemma {:induction false} WalkLowerBound(t: Tables, width: int, height: int, goal: Node, p: seq<Node>)
    requires TablesCover(t, width, height) && InGrid(width, height, goal)
    requires ConsistentExcept(t, width, height, goal, []) && Settled(t, width, height) && UnitCosts(t.cost)
    requires |p| >= 1 && IsWalk(t.cost, width, height, p) && p[|p| - 1] == goal
    requires Traversable(t.cost, width, height, p[0])
    ensures t.g[p[0]] != Inf && t.g[p[0]].n <= |p| - 1
    decreases |p|
  {
    if |p| == 1 {
      assert t.g[goal] == t.rhs[goal];
    } else {
      var rest := p[1..];
      assert rest[0] in Neighbors(t.cost, width, height, p[0]);
      assert IsWalk(t.cost, width, height, rest) by {
        forall i | 0 < i < |rest|
          ensures rest[i] in Neighbors(t.cost, width, height, rest[i - 1])
        {
          assert rest[i] == p[i + 1] && rest[i - 1] == p[i];
        }
      }
      WalkLowerBound(t, width, height, goal, rest);
      StepBound(t, width, height, goal, p[0], rest[0]);
    }
  }

  class Planner {
    const width: int
    const height: int
    const start: Node
    const goal: Node
    /** km_: initialised to 0 and never changed. */
    const km: nat

    var g: map<Node, ExtNat>
    var rhs: map<Node, ExtNat>
    var cost: map<Node, ExtNat>
    var openList: multiset<Entry>
    var openSet: set<Node>

    ghost function State(): Tables
      reads this
    {
      Tables(g, rhs, cost, openList, openSet)
    }

    ghost predicate Valid()
      reads this
    {
      InGrid(width, height, start) && InGrid(width, height, goal) && TablesCover(State(), width, height)
    }

    ghost predicate Consistent()
      reads this
      requires Valid()
    {
      ConsistentExcept(State(), width, height, goal, [])
    }

    /** The constructor: g and rhs infinite everywhere, cost from the grid,
        then rhs(goal) = 0 and the goal pushed on the open list. */
    constructor (grid: seq<seq<byte>>, start: Node, goal: Node)
      requires |grid| > 0 && |grid[0]| > 0 && Rectangular(grid)
      requires InGrid(|grid[0]|, |grid|, start) && InGrid(|grid[0]|, |grid|, goal)
      ensures Valid() && Consistent()
      ensures width == |grid[0]| && height == |grid| && this.start == start && this.goal == goal
      ensures forall n :: InGrid(width, height, n) ==> cost[n] == CellCost(grid, n)
      ensures forall n :: InGrid(width, height, n) ==> g[n] == Inf
      ensures forall n :: InGrid(width, height, n) ==> rhs[n] == if n == goal then Fin(0) else Inf
      ensures openSet == {goal}
      ensures openList == multiset{Entry(CalculateKey(g, rhs, start, 0, goal), goal)}
    {
      var t := ConstructorTables(grid, start, goal);
      width, height := |grid[0]|, |grid|;
      this.start, this.goal, km := start, goal, 0;
      g, rhs, cost, openList, openSet := t.g, t.rhs, t.cost, t.openList, t.openSet;
    }

    /** getNeighbors, as the loop over the four moves. */
    method GetNeighbors(s: Node) returns (nbrs: seq<Node>)
      requires Valid()
      ensures nbrs == Neighbors(cost, width, height, s)
    {
      var dx, dy := [1, -1, 0, 0], [0, 0, 1, -1];
      nbrs := [];
      for i := 0 to 4
        invariant nbrs == Passable(cost, width, height, Candidates(s)[..i])
      {
        var n := Node(s.x + dx[i], s.y + dy[i]);
        assert n == Candidates(s)[i];
        assert Candidates(s)[..i + 1] == Candidates(s)[..i] + [n];
        if 0 <= n.x < width && 0 <= n.y < height {
          if cost[n].Fin? {
            nbrs := nbrs + [n];
          }
        }
      }
      assert Candidates(s)[..4] == Candidates(s);
    }

    method InsertOpen(u: Node)
      requires Valid() && InGrid(width, height, u)
      modifies this
      ensures Valid()
      ensures g == old(g) && rhs == old(rhs) && cost == old(cost)
      ensures openList == old(openList) + multiset{Entry(CalculateKey(g, rhs, start, km, u), u)}
      ensures openSet == old(openSet) + {u}
    {
      openList := openList + multiset{Entry(CalculateKey(g, rhs, start, km, u), u)};
      openSet := openSet + {u};
    }

    /** removeOpen: only the open set forgets u; its queue entries stay and
        are skipped when they reach the top. */
    method RemoveOpen(u: Node)
      requires Valid()
      modifies this
      ensures Valid()
      ensures g == old(g) && rhs == old(rhs) && cost == old(cost) && openList == old(openList)
      ensures openSet == old(openSet) - {u}
    {
      openSet := openSet - {u};
    }

    /** updateVertex: recompute rhs(u) unless u is the goal, then make u
        open exactly when it is locally inconsistent. */
    method UpdateVertex(u: Node)
      requires Valid() && InGrid(width, height, u)
      modifies this
      ensures Valid()
      ensures g == old(g) && cost == old(cost)
      ensures rhs == old(rhs)[u := if u != goal then RhsFor(cost, g, width, height, u) else old(rhs)[u]]
      ensures u in openSet <==> g[u] != rhs[u]
      ensures openSet - {u} == old(openSet) - {u}
      ensures openList == if g[u] != rhs[u]
                          then old(openList) + multiset{Entry(CalculateKey(g, rhs, start, km, u), u)}
                          else old(openList)
    {
      if u != goal {
        var minRhs := LookAhead(u);
        rhs := rhs[u := minRhs];
      }
      if u in openSet {
        RemoveOpen(u);
      }
      if g[u] != rhs[u] {
        InsertOpen(u);
      }
    }

    /** The loop of updateVertex that takes the minimum of
        cost(u) + g(s) over the neighbours s of u. */
    method LookAhead(u: Node) returns (minRhs: ExtNat)
      requires Valid() && InGrid(width, height, u)
      ensures minRhs == RhsFor(cost, g, width, height, u)
    {
      minRhs := Inf;
      var nbrs := GetNeighbors(u);
      for i := 0 to |nbrs|
        invariant minRhs == MinOver(Get(cost, u), g, nbrs[..i])
      {
        assert nbrs[..i + 1] == nbrs[..i] + [nbrs[i]];
        minRhs := Min(minRhs, Add(cost[u], g[nbrs[i]]));
      }
      assert nbrs[..|nbrs|] == nbrs;
    }

    /** updateNodeCost: set one cell's step cost and update that cell. */
    method UpdateNodeCost(node: Node, newCost: ExtNat)
      requires Valid() && InGrid(width, height, node)
      modifies this
      ensures Valid()
      ensures cost == old(cost)[node := newCost] && g == old(g)
      ensures rhs == old(rhs)[node := if node != goal then RhsFor(cost, g, width, height, node) else old(rhs)[node]]
      ensures node in openSet <==> g[node] != rhs[node]
      ensures openSet - {node} == old(openSet) - {node}
      ensures openList == if g[node] != rhs[node]
                          then old(openList) + multiset{Entry(CalculateKey(g, rhs, start, km, node), node)}
                          else old(openList)
    {
      cost := cost[node := newCost];
      UpdateVertex(node);
    }

    /** The loop `for (s : getNeighbors(u)) updateVertex(s)` run after g(u)
        changed; each call repairs the cell it is given. */
    method UpdateNeighbors(ghost u: Node, nbrs: seq<Node>)
      requires Valid() && nbrs == Neighbors(cost, width, height, u)
      requires ConsistentExcept(State(), width, height, goal, nbrs)
      modifies this
      ensures Valid() && Consistent()
      ensures g == old(g) && cost == old(cost)
    {
      for i := 0 to |nbrs|
        invariant Valid() && ConsistentExcept(State(), width, height, goal, nbrs[i..])
        invariant g == old(g) && cost == old(cost)
      {
        ghost var pending := nbrs[i..];
        assert pending[0] == nbrs[i] && pending[1..] == nbrs[i + 1..];
        Repair(nbrs[i], pending);
      }
    }

    /** updateVertex(u) on the first of the cells left to repair. */
    method Repair(u: Node, ghost pending: seq<Node>)
      requires Valid() && pending != [] && pending[0] == u && InGrid(width, height, u)
      requires ConsistentExcept(State(), width, height, goal, pending)
      modifies this
      ensures Valid() && ConsistentExcept(State(), width, height, goal, pending[1..])
      ensures g == old(g) && cost == old(cost)
    {
      ghost var before := State();
      UpdateVertex(u);
      assert before.openList <= openList;
      RepairFirst(before, State(), width, height, goal, pending);
    }

    /** computeShortestPath, with the loop bounded by `fuel` iterations since
        the source does not bound it. */
    method ComputeShortestPath(fuel: nat)
      requires Valid() && Consistent()
      modifies this
      ensures Valid() && Consistent()
      ensures cost == old(cost)
      ensures openList == multiset{} ==> forall v :: InGrid(width, height, v) ==> g[v] == rhs[v]
    {
      var steps := fuel;
      while openList != multiset{} && steps > 0
        invariant Valid() && Consistent()
        invariant cost == old(cost)
        decreases steps
      {
        steps := steps - 1;
        TopExists(openList);
        var e :| IsTop(e, openList);
        var done := ProcessTop(e);
        if done {
          break;
        }
      }
      if openList == multiset{} {
        DrainedIsConsistent(State(), width, height, goal);
      }
    }

    /** One pass of computeShortestPath's loop with `e` on top of the open
        list: drop it if stale, stop when start is settled and its key is no
        larger than e's, else handle u by the three cases.  `done` tells the
        loop to break. */
    method ProcessTop(e: Entry) returns (done: bool)
      requires Valid() && Consistent() && IsTop(e, openList)
      modifies this
      ensures Valid() && Consistent()
      ensures cost == old(cost)
      ensures done ==> State() == old(State())
    {
      var kOld, u := e.key, e.node;
      ghost var before := State();
      if u !in openSet {
        DropStale(before, width, height, goal, e);
        openList := openList - multiset{e};
        assert State() == before.(openList := before.openList - multiset{e});
        return false;
      }
      var kStart := CalculateKey(g, rhs, start, km, start);
      if !KeyLess(kOld, kStart) && rhs[start] == g[start] {
        return true;
      }
      var kNew := CalculateKey(g, rhs, start, km, u);
      if KeyLess(kOld, kNew) {
        Reinsert(e);
      } else if Less(rhs[u], g[u]) {
        LowerToRhs(e);
      } else {
        RaiseToInf(e);
      }
      done := false;
    }

    /** The outdated-key case of computeShortestPath: pop u and push it
        again with its current key. */
    method Reinsert(e: Entry)
      requires Valid() && Consistent() && e in openList && e.node in openSet
      modifies this
      ensures Valid() && Consistent()
      ensures g == old(g) && rhs == old(rhs) && cost == old(cost) && openSet == old(openSet)
      ensures openList == old(openList) - multiset{e} + multiset{Entry(CalculateKey(g, rhs, start, km, e.node), e.node)}
    {
      ghost var before := State();
      var k := CalculateKey(g, rhs, start, km, e.node);
      Requeue(before, width, height, goal, e, k);
      assert before.openSet + {e.node} == before.openSet;
      openList := openList - multiset{e};
      InsertOpen(e.node);
      assert openList == before.openList - multiset{e} + multiset{Entry(k, e.node)};
      assert State() == before.(openList := before.openList - multiset{e} + multiset{Entry(k, e.node)});
    }

    /** The three statements both settling cases of computeShortestPath
        share: g(u) := val, pop u's top entry, erase u from the open set. */
    method SettleTop(e: Entry, val: ExtNat)
      modifies this
      ensures State() == Settle(old(State()), e.node, val, e)
    {
      g := g[e.node := val];
      openList := openList - multiset{e};
      openSet := openSet - {e.node};
    }

    /** The overconsistent case of computeShortestPath: g(u) drops to
        rhs(u), u leaves the open list and its neighbours are updated. */
    method LowerToRhs(e: Entry)
      requires Valid() && Consistent() && e in openList && e.node in openSet
      modifies this
      ensures Valid() && Consistent()
      ensures cost == old(cost) && g == old(g)[e.node := old(rhs)[e.node]]
    {
      var u := e.node;
      ghost var before := State();
      SettleCell(before, width, height, goal, u, rhs[u], e);
      SettleTop(e, rhs[u]);
      var nbrs := GetNeighbors(u);
      UpdateNeighbors(u, nbrs);
    }

    /** The underconsistent case of computeShortestPath: g(u) becomes
        infinite, then u and its neighbours are updated. */
    method RaiseToInf(e: Entry)
      requires Valid() && Consistent() && e in openList && e.node in openSet
      modifies this
      ensures Valid() && Consistent()
      ensures cost == old(cost) && g == old(g)[e.node := Inf]
    {
      RaiseAndUpdate(e);
      var nbrs := GetNeighbors(e.node);
      UpdateNeighbors(e.node, nbrs);
    }

    /** The first half of the underconsistent case: g(u) := infinity, pop
        and erase u, then updateVertex(u); only u's neighbours are left
        inconsistent. */
    method RaiseAndUpdate(e: Entry)
      requires Valid() && Consistent() && e in openList && e.node in openSet
      modifies this
      ensures Valid() && ConsistentExcept(State(), width, height, goal, Neighbors(cost, width, height, e.node))
      ensures cost == old(cost) && g == old(g)[e.node := Inf]
    {
      var u := e.node;
      ghost var before := State();
      SettleCell(before, width, height, goal, u, Inf, e);
      SettleTop(e, Inf);
      ghost var pending := [u] + Neighbors(cost, width, height, u);
      assert pending[0] == u && pending[1..] == Neighbors(cost, width, height, u);
      Repair(u, pending);
    }

    /** The greedy step of run: the neighbour with the smallest
        cost(n) + g(n), the first one on ties; s itself when every
        neighbour's sum is infinite. */
    method ChooseNext(s: Node) returns (next: Node)
      requires Valid() && InGrid(width, height, s)
      ensures next == s || next in Neighbors(cost, width, height, s)
      ensures next == s <==> forall n :: n in Neighbors(cost, width, height, s) ==> Add(cost[n], g[n]) == Inf
      ensures next != s ==> forall n :: n in Neighbors(cost, width, height, s) ==>
                              !Less(Add(cost[n], g[n]), Add(cost[next], g[next]))
    {
      var nbrs := GetNeighbors(s);
      var minCost := Inf;
      next := s;
      for i := 0 to |nbrs|
        invariant next == s ==> minCost == Inf
        invariant next != s ==> next in nbrs[..i] && minCost == StepSum(cost, g, next) && minCost != Inf
        invariant forall k :: 0 <= k < i ==> !Less(StepSum(cost, g, nbrs[k]), minCost)
      {
        var n := nbrs[i];
        var c := Add(cost[n], g[n]);
        assert c == StepSum(cost, g, n);
        if Less(c, minCost) {
          forall k | 0 <= k < i + 1
            ensures !Less(StepSum(cost, g, nbrs[k]), c)
          {
            LessIsStrictTotalOrder(StepSum(cost, g, nbrs[k]), c, minCost);
          }
          minCost := c;
          next := n;
        } else {
          forall k | 0 <= k < i + 1
            ensures !Less(StepSum(cost, g, nbrs[k]), minCost)
          {
          }
        }
      }
    }

    /** run: compute the shortest paths, then walk greedily from start. */
    method Run(searchFuel: nat, walkFuel: nat) returns (path: seq<Node>)
      requires Valid() && Consistent()
      modifies this
      ensures Valid() && Consistent() && cost == old(cost)
      ensures g[start] == Inf ==> path == []
      ensures start == goal && g[start] != Inf ==> path == [start]
      ensures start != goal && path != [] ==> |path| >= 2
      ensures path != [] ==> path[0] == start && IsWalk(cost, width, height, path)
      ensures Settled(State(), width, height) && UnitCosts(cost) && g[start] != Inf && walkFuel >= g[start].n ==>
                path != [] && path[|path| - 1] == goal && |path| == g[start].n + 1
    {
      ComputeShortestPath(searchFuel);
      path := Walk(walkFuel);
    }

    /** The walk of run: from start, step to the neighbour ChooseNext picks
        until the goal is reached or no neighbour is reachable; at most
        `fuel` steps, since the source loop is unbounded.  On settled tables
        with unit costs g decreases by one per step, so the walk reaches the
        goal after exactly g(start) steps, which WalkLowerBound shows no
        walk can beat. */
    method Walk(fuel: nat) returns (path: seq<Node>)
      requires Valid() && Consistent()
      ensures g[start] == Inf ==> path == []
      ensures start == goal && g[start] != Inf ==> path == [start]
      ensures start != goal && path != [] ==> |path| >= 2
      ensures path != [] ==> path[0] == start && IsWalk(cost, width, height, path)
      ensures Settled(State(), width, height) && UnitCosts(cost) && g[start] != Inf && fuel >= g[start].n ==>
                path != [] && path[|path| - 1] == goal && |path| == g[start].n + 1
    {
      var s := start;
      if g[s] == Inf {
        return [];
      }
      if s == goal {
        return [s];
      }
      ghost var good := Settled(State(), width, height) && UnitCosts(cost) && fuel >= g[start].n;
      if good {
        GreedyStep(State(), width, height, goal, s);
      }
      path := [s];
      var steps := fuel;
      while s != goal && steps > 0
        invariant InGrid(width, height, s)
        invariant |path| >= 1 && path[0] == start && path[|path| - 1] == s
        invariant IsWalk(cost, width, height, path)
        invariant good ==> g[s] != Inf && g[s].n + |path| - 1 == g[start].n && steps >= g[s].n
        invariant good && s != goal ==> g[s].n >= 1
        decreases steps
      {
        steps := steps - 1;
        var next := ChooseNext(s);
        if good {
          GreedyChoice(State(), width, height, goal, s, next);
          if next != goal {
            GreedyStep(State(), width, height, goal, next);
          }
        }
        if next == s {
          break;
        }
        WalkExtend(cost, width, height, path, next);
        var extended := path + [next];
        assert extended[0] == start && extended[|extended| - 1] == next;
        s := next;
        path := extended;
      }
      if |path| <= 1 {
        return [];
      }
    }
  }
}
