/**
 Import-cycle detection: a three-colour depth-first search with an explicit stack, a record of the
 vertex sets already reported, and a cap on the number of reports.
 */
module CircularDeps {
  datatype Mark = InStack | Finished

  predicate Distinct<T(==)>(p: seq<T>) {
    forall i, j :: 0 <= i < j < |p| ==> p[i] != p[j]
  }

  function Verts<T>(p: seq<T>): set<T> {
    set x | x in p
  }

  function DepsOf<T(==)>(g: map<T, seq<T>>, n: T): seq<T> {
    if n in g then g[n] else []
  }

  predicate Edge<T(==)>(g: map<T, seq<T>>, u: T, v: T) {
    v in DepsOf(g, u)
  }

  ghost predicate Walk<T>(g: map<T, seq<T>>, p: seq<T>) {
    forall i, j {:trigger p[i], p[j]} :: 0 <= i && j == i + 1 && j < |p| ==> Edge(g, p[i], p[j])
  }

  /** A walk along at least one edge that ends where it starts. */
  ghost predicate ClosedWalk<T>(g: map<T, seq<T>>, p: seq<T>) {
    |p| >= 2 && Walk(g, p) && p[0] == p[|p| - 1]
  }

  ghost predicate SimpleCycle<T>(g: map<T, seq<T>>, p: seq<T>) {
    ClosedWalk(g, p) && Distinct(p[..|p| - 1])
  }

  predicate Closes<T(==)>(p: seq<T>, u: T, v: T) {
    |p| >= 2 && p[|p| - 2] == u && p[|p| - 1] == v
  }

  /** The edge is the last one of some path in the list. */
  ghost predicate ClosesOne<T(!new)>(paths: seq<seq<T>>, u: T, v: T) {
    exists p :: p in paths && Closes(p, u, v)
  }

  /** Every dependency of a listed vertex is listed before it, or its edge closes one of the paths. */
  ghost predicate OrderedBut<T(!new)>(g: map<T, seq<T>>, order: seq<T>, paths: seq<seq<T>>) {
    forall i, d {:trigger Edge(g, order[i], d)} :: 0 <= i < |order| && Edge(g, order[i], d) ==>
      d in order[..i] || ClosesOne(paths, order[i], d)
  }

  ghost predicate Increasing<T>(time: map<T, nat>, p: seq<T>) {
    && (forall x :: x in p ==> x in time)
    && forall i, j :: 0 <= i < j < |p| ==> time[p[i]] < time[p[j]]
  }

  /** No two paths have one key. */
  ghost predicate KeysDiffer<T, K>(key: set<T> -> K, paths: seq<seq<T>>) {
    forall i, j :: 0 <= i < j < |paths| ==> key(Verts(paths[i])) != key(Verts(paths[j]))
  }

  /** The key tells apart the sets of some vertices. */
  ghost predicate InjectiveOn<T(!new), K(!new)>(key: set<T> -> K, nodes: set<T>) {
    forall x, y :: x != {} && x <= nodes && y != {} && y <= nodes && key(x) == key(y) ==> x == y
  }

  // ---- what an order says about closed walks ---------------------------------------

  /** Down an order in which no edge of the walk is an exception, each step goes to an earlier place. */
  lemma {:induction false} Descends<T(!new)>(g: map<T, seq<T>>, order: seq<T>, paths: seq<seq<T>>, w: seq<T>, i: nat) returns (k: nat)
    requires OrderedBut(g, order, paths) && Walk(g, w) && w != [] && i < |order| && order[i] == w[0]
    requires forall a, b {:trigger w[a], w[b]} :: 0 <= a && b == a + 1 && b < |w| ==> !ClosesOne(paths, w[a], w[b])
    ensures k + |w| - 1 <= i && order[k] == w[|w| - 1]
    decreases |w|
  {
    if |w| == 1 {
      k := i;
    } else {
      assert Edge(g, w[0], w[1]) && !ClosesOne(paths, w[0], w[1]);
      var j :| 0 <= j < i && order[j] == w[1];
      k := Descends(g, order, paths, w[1..], j);
    }
  }

  /** So every closed walk among ordered vertices runs along an exceptional edge. */
  lemma ClosedWalkCrosses<T(!new)>(g: map<T, seq<T>>, order: seq<T>, paths: seq<seq<T>>, w: seq<T>) returns (a: nat)
    requires OrderedBut(g, order, paths) && Distinct(order) && ClosedWalk(g, w) && w[0] in order
    ensures a + 1 < |w| && ClosesOne(paths, w[a], w[a + 1])
  {
    if forall a, b {:trigger w[a], w[b]} :: 0 <= a && b == a + 1 && b < |w| ==> !ClosesOne(paths, w[a], w[b]) {
      var i :| 0 <= i < |order| && order[i] == w[0];
      var k := Descends(g, order, paths, w, i);
      assert false;
    } else {
      var x, y :| 0 <= x && y == x + 1 && y < |w| && ClosesOne(paths, w[x], w[y]);
      a := x;
    }
  }

  lemma NoVerts<T>(p: seq<T>)
    ensures Verts(p) == {} <==> p == []
  {
    if p != [] {
      assert p[0] in Verts(p);
    }
  }

  /** Discovery times make a path out of its vertex set, so equal sets mean equal paths. */
  lemma {:induction false} SetGivesPath<T>(time: map<T, nat>, p: seq<T>, q: seq<T>)
    requires Increasing(time, p) && Increasing(time, q) && Verts(p) == Verts(q)
    ensures p == q
    decreases |p|
  {
    NoVerts(p);
    NoVerts(q);
    if p != [] {
      var x, y, p', q' := p[|p| - 1], q[|q| - 1], p[..|p| - 1], q[..|q| - 1];
      assert x in Verts(q) && y in Verts(p);
      assert x == y;
      assert Verts(p') == Verts(p) - {x} && Verts(q') == Verts(q) - {y};
      SetGivesPath(time, p', q');
      assert p == p' + [x] && q == q' + [y];
    }
  }

  // ---- the search as values --------------------------------------------------------

  datatype Problem<!T, K> = Problem(graph: map<T, seq<T>>, cap: nat, key: set<T> -> K, nodes: set<T>)

  /**
   The variables of the search, and beside them when each vertex was first visited, the finished
   vertices in order of finishing, and every cycle met, reported or not.
   */
  datatype View<T, K> = View(state: map<T, Mark>, stack: seq<T>, cycles: seq<seq<T>>, seen: set<K>, truncated: bool,
                             time: map<T, nat>, order: seq<T>, met: seq<seq<T>>)

  ghost predicate Sound<T(!new), K>(p: Problem<T, K>) {
    p.graph.Keys <= p.nodes && forall u, v :: Edge(p.graph, u, v) ==> v in p.nodes
  }

  ghost predicate StackOk<T(!new), K>(p: Problem<T, K>, v: View<T, K>) {
    && v.state.Keys <= p.nodes && Distinct(v.stack) && Walk(p.graph, v.stack)
    && (forall x :: x in v.stack ==> x in v.state && v.state[x] == InStack)
    && (forall x :: x in v.state && v.state[x] == InStack ==> x in v.stack)
  }

  ghost predicate TimeOk<T(!new), K>(v: View<T, K>) {
    && v.time.Keys == v.state.Keys && Increasing(v.time, v.stack)
    && forall x :: x in v.time ==> v.time[x] < |v.time|
  }

  /** Simple cycles of the graph, each in order of discovery. */
  ghost predicate CyclesOf<T, K>(p: Problem<T, K>, time: map<T, nat>, paths: seq<seq<T>>) {
    forall c :: c in paths ==> SimpleCycle(p.graph, c) && Increasing(time, c[..|c| - 1])
  }

  ghost predicate ReportsOk<T, K>(p: Problem<T, K>, v: View<T, K>) {
    && CyclesOf(p, v.time, v.cycles) && CyclesOf(p, v.time, v.met)
    && KeysDiffer(p.key, v.cycles)
    && |v.cycles| <= p.cap && (v.truncated ==> |v.cycles| == p.cap && v.met != [])
  }

  ghost predicate SeenOk<T(!new), K(!new)>(p: Problem<T, K>, v: View<T, K>) {
    && (forall c :: c in v.cycles ==> p.key(Verts(c)) in v.seen)
    && (forall c :: c in v.met ==> p.key(Verts(c)) in v.seen)
    && (!v.truncated ==> forall k :: k in v.seen ==> exists c :: c in v.cycles && p.key(Verts(c)) == k)
  }

  ghost predicate OrderOk<T(!new), K>(p: Problem<T, K>, v: View<T, K>) {
    && Distinct(v.order) && (forall x :: x in v.order ==> x in v.state && v.state[x] == Finished)
    && (forall x :: x in v.state && v.state[x] == Finished ==> x in v.order)
    && (!v.truncated ==> OrderedBut(p.graph, v.order, v.met))
  }

  predicate StandsAt<T(==)>(c: seq<T>, stack: seq<T>, i: nat) {
    i + |c| <= |stack| && stack[i..i + |c|] == c
  }

  /** The vertices of the path stand on the stack one after another. */
  ghost predicate Segment<T>(c: seq<T>, stack: seq<T>) {
    exists i: nat :: StandsAt(c, stack, i)
  }

  /** A cycle whose last edge leaves a vertex on the stack stands on the stack. */
  ghost predicate TipStands<T, K>(v: View<T, K>, c: seq<T>) {
    |c| >= 2 && c[|c| - 2] in v.state && (c[|c| - 2] in v.stack ==> Segment(c[..|c| - 1], v.stack))
  }

  /** One edge closes one cycle. */
  ghost predicate OneTip<T(!new)>(paths: seq<seq<T>>) {
    forall c, d, x, y {:trigger c in paths, d in paths, Closes(c, x, y), Closes(d, x, y)} ::
      c in paths && d in paths && Closes(c, x, y) && Closes(d, x, y) ==> c == d
  }

  /** Reported cycles have been met, and those met are told apart by their last edges. */
  ghost predicate MetOk<T(!new), K>(v: View<T, K>) {
    && (forall c :: c in v.cycles ==> c in v.met)
    && (forall c :: c in v.met ==> TipStands(v, c))
    && OneTip(v.met)
  }

  ghost predicate Good<T(!new), K(!new)>(p: Problem<T, K>, v: View<T, K>) {
    StackOk(p, v) && TimeOk(v) && ReportsOk(p, v) && SeenOk(p, v) && OrderOk(p, v) && MetOk(v)
  }

  /** What later steps of the search never take back. */
  ghost predicate Extends<T(!new), K>(v: View<T, K>, w: View<T, K>) {
    && v.state.Keys <= w.state.Keys && (forall x :: x in v.state ==> w.state[x] == v.state[x])
    && (v.truncated ==> w.truncated)
    && v.order <= w.order && v.met <= w.met
  }

  /** The first `n` dependencies of `u` are finished, or their edges close cycles met. */
  ghost predicate Handled<T(!new), K>(v: View<T, K>, u: T, ds: seq<T>, n: nat) {
    forall k {:trigger ds[k]} :: 0 <= k < n <= |ds| ==> ds[k] in v.order || ClosesOne(v.met, u, ds[k])
  }

  /** The first `n` files are finished. */
  ghost predicate Listed<T, K>(v: View<T, K>, files: seq<T>, n: nat) {
    forall k :: 0 <= k < n <= |files| ==> files[k] in v.order
  }

  function Push<T, K>(v: View<T, K>, node: T): View<T, K> {
    v.(state := v.state[node := InStack], stack := v.stack + [node], time := v.time[node := |v.time|])
  }

  function Pop<T, K>(v: View<T, K>, node: T): View<T, K>
    requires v.stack != []
  {
    v.(state := v.state[node := Finished], stack := v.stack[..|v.stack| - 1], order := v.order + [node])
  }

  /** A back edge to the vertex at `idx` of the stack: reported when its key is new, as long as there is room. */
  function Meet<T(==), K(==)>(p: Problem<T, K>, v: View<T, K>, idx: nat): View<T, K>
    requires idx < |v.stack|
  {
    var path := v.stack[idx..] + [v.stack[idx]];
    var w := v.(met := v.met + [path]);
    var k := p.key(Verts(path));
    if k in v.seen then w
    else if |v.cycles| < p.cap then w.(seen := v.seen + {k}, cycles := v.cycles + [path])
    else w.(seen := v.seen + {k}, truncated := true)
  }

  lemma Later<T, K>(p: Problem<T, K>, time: map<T, nat>, time': map<T, nat>, paths: seq<seq<T>>)
    requires CyclesOf(p, time, paths) && time.Keys <= time'.Keys && forall x :: x in time ==> time'[x] == time[x]
    ensures CyclesOf(p, time', paths)
  {
    forall c | c in paths
      ensures Increasing(time', c[..|c| - 1])
    {
      assert Increasing(time, c[..|c| - 1]);
    }
  }

  lemma PushStack<T(!new), K(!new)>(p: Problem<T, K>, v: View<T, K>, node: T)
    requires StackOk(p, v) && node in p.nodes && node !in v.state
    requires v.stack != [] ==> Edge(p.graph, v.stack[|v.stack| - 1], node)
    ensures StackOk(p, Push(v, node))
  {
    hide Edge;
  }

  lemma PushTime<T(!new), K(!new)>(p: Problem<T, K>, v: View<T, K>, node: T)
    requires TimeOk(v) && node !in v.state
    ensures TimeOk(Push(v, node))
  {
    assert |v.time[node := |v.time|]| == |v.time| + 1;
  }

  lemma PushOrder<T(!new), K(!new)>(p: Problem<T, K>, v: View<T, K>, node: T)
    requires OrderOk(p, v) && node !in v.state
    ensures OrderOk(p, Push(v, node))
  {
    hide OrderedBut;
  }

  lemma StandsBelow<T>(c: seq<T>, stack: seq<T>, x: T)
    requires Segment(c, stack)
    ensures Segment(c, stack + [x])
  {
    var i: nat :| StandsAt(c, stack, i);
    assert StandsAt(c, stack + [x], i) by {
      assert (stack + [x])[i..i + |c|] == stack[i..i + |c|];
    }
  }

  lemma PushMet<T(!new), K(!new)>(v: View<T, K>, node: T)
    requires MetOk(v) && node !in v.state
    ensures MetOk(Push(v, node))
  {
    hide Segment, OneTip;
    forall c | c in v.met
      ensures TipStands(Push(v, node), c)
    {
      assert TipStands(v, c);
      if c[|c| - 2] in v.stack {
        StandsBelow(c[..|c| - 1], v.stack, node);
      }
    }
  }

  lemma PushGood<T(!new), K(!new)>(p: Problem<T, K>, v: View<T, K>, node: T)
    requires Good(p, v) && node in p.nodes && node !in v.state
    requires v.stack != [] ==> Edge(p.graph, v.stack[|v.stack| - 1], node)
    ensures Good(p, Push(v, node))
  {
    hide StackOk, OrderOk, CyclesOf, KeysDiffer, MetOk;
    PushMet(v, node);
    PushStack(p, v, node);
    PushTime(p, v, node);
    PushOrder(p, v, node);
    Later(p, v.time, Push(v, node).time, v.cycles);
    Later(p, v.time, Push(v, node).time, v.met);
  }

  lemma PopStack<T(!new), K(!new)>(p: Problem<T, K>, v: View<T, K>, node: T)
    requires StackOk(p, v) && v.stack != [] && v.stack[|v.stack| - 1] == node
    ensures StackOk(p, Pop(v, node))
  {
    hide Edge;
    assert v.stack == Pop(v, node).stack + [node];
  }

  lemma PopTime<T(!new), K(!new)>(p: Problem<T, K>, v: View<T, K>, node: T)
    requires TimeOk(v) && v.stack != [] && node in v.state
    ensures TimeOk(Pop(v, node))
  {
  }

  lemma PopOrder<T(!new), K(!new)>(p: Problem<T, K>, v: View<T, K>, node: T)
    requires OrderOk(p, v) && v.stack != [] && node in v.state && v.state[node] == InStack
    requires !v.truncated ==> Handled(v, node, DepsOf(p.graph, node), |DepsOf(p.graph, node)|)
    ensures OrderOk(p, Pop(v, node))
  {
    hide ClosesOne;
    var w := Pop(v, node);
    assert w.order[..|v.order|] == v.order;
    assert forall i :: 0 <= i < |v.order| ==> w.order[..i] == v.order[..i];
  }

  lemma StandsWithout<T>(c: seq<T>, stack: seq<T>)
    requires stack != [] && Distinct(stack) && Segment(c, stack) && c != [] && c[|c| - 1] != stack[|stack| - 1]
    ensures Segment(c, stack[..|stack| - 1])
  {
    var i: nat :| StandsAt(c, stack, i);
    assert stack[i + |c| - 1] == c[|c| - 1];
    var rest, end := stack[..|stack| - 1], i + |c|;
    assert end < |stack|;
    assert rest[i..end] == stack[i..end];
    assert StandsAt(c, rest, i);
  }

  lemma PopMet<T(!new), K(!new)>(p: Problem<T, K>, v: View<T, K>, node: T)
    requires StackOk(p, v) && MetOk(v) && v.stack != [] && v.stack[|v.stack| - 1] == node
    ensures MetOk(Pop(v, node))
  {
    hide Walk, Segment, OneTip;
    forall c | c in v.met
      ensures TipStands(Pop(v, node), c)
    {
      assert TipStands(v, c);
      if c[|c| - 2] in Pop(v, node).stack {
        StandsWithout(c[..|c| - 1], v.stack);
      }
    }
  }

  lemma PopGood<T(!new), K(!new)>(p: Problem<T, K>, v: View<T, K>, node: T)
    requires Good(p, v) && v.stack != [] && v.stack[|v.stack| - 1] == node
    requires !v.truncated ==> Handled(v, node, DepsOf(p.graph, node), |DepsOf(p.graph, node)|)
    ensures Good(p, Pop(v, node))
  {
    hide OrderOk, CyclesOf, KeysDiffer, TimeOk, MetOk;
    assert node in v.stack;
    PopStack(p, v, node);
    PopMet(p, v, node);
    hide StackOk;
    PopTime(p, v, node);
    PopOrder(p, v, node);
  }

  /** The stack from a vertex on, and that vertex again, is a simple cycle when the top leads back to it. */
  lemma BackPath<T(!new), K(!new)>(p: Problem<T, K>, v: View<T, K>, idx: nat)
    requires StackOk(p, v) && TimeOk(v) && idx < |v.stack| && Edge(p.graph, v.stack[|v.stack| - 1], v.stack[idx])
    ensures var path := v.stack[idx..] + [v.stack[idx]];
            && SimpleCycle(p.graph, path) && Increasing(v.time, path[..|path| - 1])
            && Closes(path, v.stack[|v.stack| - 1], v.stack[idx])
  {
    hide Edge;
    var path := v.stack[idx..] + [v.stack[idx]];
    assert path[..|path| - 1] == v.stack[idx..];
  }

  lemma MeetReports<T(!new), K(!new)>(p: Problem<T, K>, v: View<T, K>, idx: nat)
    requires StackOk(p, v) && TimeOk(v) && ReportsOk(p, v) && SeenOk(p, v)
    requires !v.truncated && idx < |v.stack| && Edge(p.graph, v.stack[|v.stack| - 1], v.stack[idx])
    ensures ReportsOk(p, Meet(p, v, idx))
  {
    hide SimpleCycle, Increasing;
    BackPath(p, v, idx);
    hide StackOk, TimeOk, Edge;
  }

  lemma MeetSeen<T(!new), K(!new)>(p: Problem<T, K>, v: View<T, K>, idx: nat)
    requires SeenOk(p, v) && !v.truncated && idx < |v.stack|
    ensures SeenOk(p, Meet(p, v, idx))
  {
    hide Verts;
    var path, w := v.stack[idx..] + [v.stack[idx]], Meet(p, v, idx);
    assert p.key(Verts(path)) in w.seen;
    assert !w.truncated ==> forall c :: c in v.cycles ==> c in w.cycles;
  }

  lemma MoreExceptions<T(!new)>(g: map<T, seq<T>>, order: seq<T>, paths: seq<seq<T>>, path: seq<T>)
    requires OrderedBut(g, order, paths)
    ensures OrderedBut(g, order, paths + [path])
  {
    forall i, d {:trigger Edge(g, order[i], d)} | 0 <= i < |order| && Edge(g, order[i], d)
      ensures d in order[..i] || ClosesOne(paths + [path], order[i], d)
    {
      if ClosesOne(paths, order[i], d) {
        var c :| c in paths && Closes(c, order[i], d);
        assert c in paths + [path];
      }
    }
  }

  lemma MeetOrder<T(!new), K(!new)>(p: Problem<T, K>, v: View<T, K>, idx: nat)
    requires OrderOk(p, v) && !v.truncated && idx < |v.stack|
    ensures OrderOk(p, Meet(p, v, idx))
  {
    hide OrderedBut, Verts;
    MoreExceptions(p.graph, v.order, v.met, v.stack[idx..] + [v.stack[idx]]);
  }

  lemma MeetStack<T(!new), K(!new)>(p: Problem<T, K>, v: View<T, K>, idx: nat)
    requires StackOk(p, v) && TimeOk(v) && idx < |v.stack|
    ensures StackOk(p, Meet(p, v, idx)) && TimeOk(Meet(p, v, idx))
  {
    hide Verts, Distinct, Walk, Increasing;
  }

  /** Two stretches of the stack between the same vertices are one. */
  lemma OneSegment<T>(stack: seq<T>, a: seq<T>, b: seq<T>)
    requires Distinct(stack) && Segment(a, stack) && Segment(b, stack) && a != [] && b != []
    requires a[0] == b[0] && a[|a| - 1] == b[|b| - 1]
    ensures a == b
  {
    var i: nat :| StandsAt(a, stack, i);
    var j: nat :| StandsAt(b, stack, j);
    assert stack[i] == a[0] && stack[j] == b[0];
    assert stack[i + |a| - 1] == a[|a| - 1] && stack[j + |b| - 1] == b[|b| - 1];
  }

  lemma RestStands<T>(stack: seq<T>, idx: nat)
    requires idx < |stack|
    ensures Segment(stack[idx..], stack)
  {
    assert StandsAt(stack[idx..], stack, idx) by {
      assert stack[idx..idx + |stack[idx..]|] == stack[idx..];
    }
  }

  /** A cycle met before with the same last edge is the same cycle. */
  lemma MetBefore<T(!new), K(!new)>(p: Problem<T, K>, v: View<T, K>, idx: nat, c: seq<T>)
    requires StackOk(p, v) && ReportsOk(p, v) && MetOk(v) && idx < |v.stack| && c in v.met
    requires Closes(c, v.stack[|v.stack| - 1], v.stack[idx])
    ensures c == v.stack[idx..] + [v.stack[idx]]
  {
    hide Walk, KeysDiffer, Increasing, Segment, OneTip;
    var c', rest := c[..|c| - 1], v.stack[idx..];
    assert SimpleCycle(p.graph, c) && c[0] == c[|c| - 1] && TipStands(v, c);
    assert c[|c| - 2] == v.stack[|v.stack| - 1] && c[|c| - 2] in v.stack;
    RestStands(v.stack, idx);
    OneSegment(v.stack, c', rest);
    assert c == c' + [c[|c| - 1]];
  }

  lemma OneTipMore<T(!new)>(paths: seq<seq<T>>, path: seq<T>, x: T, y: T)
    requires OneTip(paths) && Closes(path, x, y) && forall c :: c in paths && Closes(c, x, y) ==> c == path
    ensures OneTip(paths + [path])
  {
    forall c, d, a, b | c in paths + [path] && d in paths + [path] && Closes(c, a, b) && Closes(d, a, b)
      ensures c == d
    {
      if c == path || d == path {
        assert a == x && b == y;
      }
    }
  }

  lemma MeetMet<T(!new), K(!new)>(p: Problem<T, K>, v: View<T, K>, idx: nat)
    requires StackOk(p, v) && ReportsOk(p, v) && MetOk(v) && idx < |v.stack|
    ensures MetOk(Meet(p, v, idx))
  {
    hide Walk, KeysDiffer, Increasing, SimpleCycle, Verts, ReportsOk, Distinct, Segment, OneTip, CyclesOf;
    var top, path, w := v.stack[|v.stack| - 1], v.stack[idx..] + [v.stack[idx]], Meet(p, v, idx);
    assert path[..|path| - 1] == v.stack[idx..] && path[|path| - 2] == top && path[|path| - 1] == v.stack[idx];
    RestStands(v.stack, idx);
    assert top in v.stack;
    forall c | c in w.met
      ensures TipStands(w, c)
    {
      assert c in v.met ==> TipStands(v, c);
    }
    forall c | c in v.met && Closes(c, top, v.stack[idx])
      ensures c == path
    {
      MetBefore(p, v, idx, c);
    }
    OneTipMore(v.met, path, top, v.stack[idx]);
  }

  lemma MeetGood<T(!new), K(!new)>(p: Problem<T, K>, v: View<T, K>, idx: nat)
    requires Good(p, v) && !v.truncated && idx < |v.stack| && Edge(p.graph, v.stack[|v.stack| - 1], v.stack[idx])
    ensures Good(p, Meet(p, v, idx)) && Extends(v, Meet(p, v, idx))
    ensures ClosesOne(Meet(p, v, idx).met, v.stack[|v.stack| - 1], v.stack[idx])
  {
    hide StackOk, TimeOk, OrderOk, ReportsOk, SeenOk, MetOk, SimpleCycle, Increasing, Edge, Verts;
    MeetStack(p, v, idx);
    MeetMet(p, v, idx);
    MeetOrder(p, v, idx);
    MeetReports(p, v, idx);
    MeetSeen(p, v, idx);
    BackPath(p, v, idx);
    var path := v.stack[idx..] + [v.stack[idx]];
    assert path in v.met + [path];
  }

  lemma ExtendsItself<T(!new), K(!new)>(v: View<T, K>)
    ensures Extends(v, v)
  {
  }

  lemma FewerLeft<T>(nodes: set<T>, before: set<T>, now: set<T>, node: T)
    requires node in nodes && node !in before && before + {node} <= now
    ensures nodes - now < nodes - before
  {
  }

  lemma NoneHandled<T(!new), K(!new)>(v: View<T, K>, u: T, ds: seq<T>)
    ensures Handled(v, u, ds, 0)
  {
  }

  lemma ExtendsOver<T(!new), K(!new)>(u: View<T, K>, v: View<T, K>, w: View<T, K>)
    requires Extends(u, v) && Extends(v, w)
    ensures Extends(u, w)
  {
  }

  lemma PopExtends<T(!new), K(!new)>(u: View<T, K>, v: View<T, K>, node: T)
    requires node !in u.state && Extends(Push(u, node), v) && v.stack != []
    ensures Extends(u, Pop(v, node))
  {
    assert forall x :: x in u.state ==> x in Push(u, node).state && x != node;
  }

  /** A dependency that is already marked is on the stack or finished. */
  lemma Marked<T(!new), K(!new)>(p: Problem<T, K>, v: View<T, K>, d: T)
    requires Good(p, v) && d in v.state
    ensures v.state[d] == InStack ==> d in v.stack
    ensures v.state[d] == Finished ==> d in v.order
  {
  }

  lemma IsEdge<T>(g: map<T, seq<T>>, u: T, ds: seq<T>, i: nat)
    requires ds == DepsOf(g, u) && i < |ds|
    ensures Edge(g, u, ds[i])
  {
  }

  lemma WhatExtends<T(!new), K(!new)>(v: View<T, K>, w: View<T, K>)
    requires Extends(v, w)
    ensures v.state.Keys <= w.state.Keys && (v.truncated ==> w.truncated)
    ensures forall x :: x in v.order ==> x in w.order
  {
  }

  lemma HandledMore<T(!new), K(!new)>(v: View<T, K>, w: View<T, K>, u: T, ds: seq<T>, n: nat)
    requires Extends(v, w) && !w.truncated && n < |ds| && Handled(v, u, ds, n)
    requires ds[n] in w.order || ClosesOne(w.met, u, ds[n])
    ensures Handled(w, u, ds, n + 1)
  {
    hide Closes;
    forall k {:trigger ds[k]} | 0 <= k < n + 1
      ensures ds[k] in w.order || ClosesOne(w.met, u, ds[k])
    {
      if k < n && ds[k] !in v.order {
        var c :| c in v.met && Closes(c, u, ds[k]);
        assert c in w.met;
      }
    }
  }

  lemma ListedMore<T(!new), K(!new)>(v: View<T, K>, w: View<T, K>, files: seq<T>, n: nat)
    requires Extends(v, w) && !w.truncated && n < |files| && Listed(v, files, n) && files[n] in w.order
    ensures Listed(w, files, n + 1)
  {
  }

  lemma NothingYet<T(!new), K(!new)>(p: Problem<T, K>, files: seq<T>, v: View<T, K>)
    requires v == View(map[], [], [], {}, false, map[], [], [])
    ensures Good(p, v) && Listed(v, files, 0)
  {
  }

  /** Between two files the stack is empty, so a vertex already marked is finished. */
  lemma EmptyStack<T(!new), K(!new)>(p: Problem<T, K>, v: View<T, K>, x: T)
    requires Good(p, v) && v.stack == [] && x in v.state
    ensures x in v.order
  {
    assert x !in v.stack;
  }

  // ---- what the search reports -----------------------------------------------------

  ghost predicate NoTwoAlike<T>(cycles: seq<seq<T>>) {
    forall i, j :: 0 <= i < j < |cycles| ==> Verts(cycles[i]) != Verts(cycles[j])
  }

  /** Every closed walk runs along an edge that closes a reported cycle. */
  ghost predicate AllCrossed<T(!new)>(g: map<T, seq<T>>, cycles: seq<seq<T>>) {
    forall w :: ClosedWalk(g, w) ==> exists a :: 0 <= a && a + 1 < |w| && ClosesOne(cycles, w[a], w[a + 1])
  }

  ghost predicate HasCycle<T(!new)>(g: map<T, seq<T>>) {
    exists w :: ClosedWalk(g, w)
  }

  /** The search is over: it gave up at the cap, or every vertex is finished. */
  ghost predicate Over<T, K>(p: Problem<T, K>, v: View<T, K>) {
    v.truncated || forall n :: n in p.nodes ==> n in v.order
  }

  lemma AllOver<T(!new), K(!new)>(p: Problem<T, K>, v: View<T, K>, files: seq<T>, n: nat)
    requires p.nodes == Verts(files) && n <= |files|
    requires v.truncated || (n == |files| && Listed(v, files, n))
    ensures Over(p, v)
  {
  }

  lemma ReportedAreCycles<T(!new), K(!new)>(p: Problem<T, K>, v: View<T, K>)
    requires Good(p, v)
    ensures (forall c :: c in v.cycles ==> SimpleCycle(p.graph, c)) && NoTwoAlike(v.cycles)
    ensures |v.cycles| <= p.cap && (v.truncated ==> |v.cycles| == p.cap)
  {
    hide StackOk, TimeOk, OrderOk, SeenOk, MetOk, SimpleCycle, Increasing;
  }

  /** A closed walk in a finished search crosses a cycle met on the way. */
  lemma WalkMeets<T(!new), K(!new)>(p: Problem<T, K>, v: View<T, K>, w: seq<T>) returns (a: nat)
    requires Sound(p) && OrderOk(p, v) && !v.truncated && Over(p, v) && ClosedWalk(p.graph, w)
    ensures a + 1 < |w| && ClosesOne(v.met, w[a], w[a + 1])
  {
    assert Edge(p.graph, w[0], w[1]);
    a := ClosedWalkCrosses(p.graph, v.order, v.met, w);
  }

  lemma First<T>(s: seq<T>)
    ensures s == [] || s[0] in s
  {
  }

  /** Nothing reported means nothing met. */
  lemma NothingMet<T(!new), K(!new)>(p: Problem<T, K>, v: View<T, K>)
    requires SeenOk(p, v) && v.cycles == [] && !v.truncated
    ensures v.met == []
  {
    First(v.met);
  }

  /** A cycle is reported, or the cap reached, exactly when there is one; with a cap of at least 1 one is reported. */
  lemma DecidesAcyclicity<T(!new), K(!new)>(p: Problem<T, K>, v: View<T, K>)
    requires Sound(p) && Good(p, v) && Over(p, v)
    ensures v.cycles != [] || v.truncated <==> HasCycle(p.graph)
    ensures v.cycles != [] <==> HasCycle(p.graph) && p.cap >= 1
  {
    hide StackOk, TimeOk, OrderOk, SeenOk, MetOk, OrderedBut, Increasing, Distinct, Walk;
    if v.cycles != [] {
      assert v.cycles[0] in v.cycles;
    } else if v.truncated {
      assert v.met[0] in v.met;
    } else if HasCycle(p.graph) {
      var w :| ClosedWalk(p.graph, w);
      NothingMet(p, v);
      var a := WalkMeets(p, v, w);
    }
  }

  /** The vertices of a closed walk have edges, so they are among the nodes. */
  lemma CycleWithin<T(!new), K(!new)>(p: Problem<T, K>, c: seq<T>)
    requires Sound(p) && ClosedWalk(p.graph, c)
    ensures Verts(c) != {} && Verts(c) <= p.nodes
  {
    assert c[0] in Verts(c);
    forall i | 0 <= i < |c| - 1
      ensures c[i] in p.nodes
    {
      assert Edge(p.graph, c[i], c[i + 1]);
    }
  }

  /** No two cycles met differ in their vertices but not in their key. */
  ghost predicate MetApart<T(!new), K(!new)>(p: Problem<T, K>, v: View<T, K>) {
    forall c, d {:trigger c in v.met, d in v.met} ::
      c in v.met && d in v.met && p.key(Verts(c)) == p.key(Verts(d)) ==> Verts(c) == Verts(d)
  }

  /** Cycles in order of discovery with the same vertices are the same. */
  lemma SameVerts<T>(time: map<T, nat>, c: seq<T>, d: seq<T>)
    requires |c| >= 2 && |d| >= 2 && c[0] == c[|c| - 1] && d[0] == d[|d| - 1] && Verts(c) == Verts(d)
    requires Increasing(time, c[..|c| - 1]) && Increasing(time, d[..|d| - 1])
    ensures c == d
  {
    hide Increasing;
    var c', d' := c[..|c| - 1], d[..|d| - 1];
    assert c == c' + [c'[0]] && d == d' + [d'[0]];
    assert Verts(c') == Verts(c) && Verts(d') == Verts(d);
    SetGivesPath(time, c', d');
  }

  /** If the keys of the cycles met tell their vertices apart, every cycle met is reported. */
  lemma MetAreReported<T(!new), K(!new)>(p: Problem<T, K>, v: View<T, K>, c: seq<T>)
    requires ReportsOk(p, v) && SeenOk(p, v) && MetOk(v) && !v.truncated && MetApart(p, v) && c in v.met
    ensures c in v.cycles
  {
    hide KeysDiffer, Walk, Distinct, Increasing;
    assert p.key(Verts(c)) in v.seen;
    var d :| d in v.cycles && p.key(Verts(d)) == p.key(Verts(c));
    assert d in v.met;
    SameVerts(v.time, c, d);
  }

  lemma GoesUp<T>(time: map<T, nat>, c: seq<T>, a: nat)
    requires a + 2 < |c| && Increasing(time, c[..|c| - 1])
    ensures c[a] in time && c[a + 1] in time && time[c[a]] < time[c[a + 1]]
  {
    var c' := c[..|c| - 1];
    assert c'[a] == c[a] && c'[a + 1] == c[a + 1];
    assert c'[a] in c' && c'[a + 1] in c';
  }

  lemma GoesBack<T>(time: map<T, nat>, d: seq<T>)
    requires |d| >= 2 && Increasing(time, d[..|d| - 1]) && d[0] == d[|d| - 1]
    ensures d[|d| - 1] in time && d[|d| - 2] in time && time[d[|d| - 1]] <= time[d[|d| - 2]]
  {
    var d' := d[..|d| - 1];
    assert d'[0] == d[0] && d'[|d'| - 1] == d[|d| - 2];
    assert d'[0] in d' && d'[|d'| - 1] in d';
  }

  /**
   A cycle met that runs along the last edge of a reported one has it as its own last edge: all its
   other edges lead to vertices discovered later, and last edges do not.
   */
  lemma CrossedAtItsEnd<T(!new), K(!new)>(p: Problem<T, K>, v: View<T, K>, c: seq<T>, d: seq<T>, a: nat)
    requires ReportsOk(p, v) && MetOk(v) && c in v.met && d in v.met && a + 1 < |c| && Closes(d, c[a], c[a + 1])
    ensures c == d
  {
    hide KeysDiffer, Walk, Distinct, TipStands, Increasing;
    assert SimpleCycle(p.graph, c) && SimpleCycle(p.graph, d) && Increasing(v.time, c[..|c| - 1]) && Increasing(v.time, d[..|d| - 1]);
    GoesBack(v.time, d);
    if a + 2 < |c| {
      GoesUp(v.time, c, a);
    } else {
      assert Closes(c, c[a], c[a + 1]);
    }
  }

  lemma CrossedAreReported<T(!new), K(!new)>(p: Problem<T, K>, v: View<T, K>, c: seq<T>)
    requires ReportsOk(p, v) && MetOk(v) && AllCrossed(p.graph, v.cycles) && c in v.met
    ensures c in v.cycles
  {
    hide KeysDiffer, Walk, Distinct, Increasing, Closes, TipStands, OneTip;
    assert SimpleCycle(p.graph, c) && ClosedWalk(p.graph, c);
    var a: int :| 0 <= a && a + 1 < |c| && ClosesOne(v.cycles, c[a], c[a + 1]);
    var d :| d in v.cycles && Closes(d, c[a], c[a + 1]);
    CrossedAtItsEnd(p, v, c, d, a);
  }

  /**
   A search that did not give up has reported, for every cycle of the graph, one whose last edge that
   cycle uses, exactly when no two cycles it met have one key and different vertices.
   */
  lemma CoverageIff<T(!new), K(!new)>(p: Problem<T, K>, v: View<T, K>)
    requires Sound(p) && Good(p, v) && Over(p, v) && !v.truncated
    ensures AllCrossed(p.graph, v.cycles) <==> MetApart(p, v)
  {
    hide StackOk, TimeOk, OrderOk, SeenOk, ReportsOk, MetOk, OrderedBut, AllCrossed, Sound;
    if MetApart(p, v) {
      MetCover(p, v);
    } else if AllCrossed(p.graph, v.cycles) {
      forall c, d | c in v.met && d in v.met && p.key(Verts(c)) == p.key(Verts(d))
        ensures Verts(c) == Verts(d)
      {
        CrossedAreReported(p, v, c);
        CrossedAreReported(p, v, d);
        OneOfAKey(p, v, c, d);
      }
    }
  }

  lemma TwoOfAKey<T(!new), K(!new)>(key: set<T> -> K, paths: seq<seq<T>>, i: nat, j: nat)
    requires i < j < |paths| && key(Verts(paths[i])) == key(Verts(paths[j]))
    ensures !KeysDiffer(key, paths)
  {
  }

  lemma OneOfAKey<T(!new), K(!new)>(p: Problem<T, K>, v: View<T, K>, c: seq<T>, d: seq<T>)
    requires ReportsOk(p, v) && c in v.cycles && d in v.cycles && p.key(Verts(c)) == p.key(Verts(d))
    ensures c == d
  {
    hide CyclesOf, KeysDiffer;
    var i: nat :| i < |v.cycles| && v.cycles[i] == c;
    var j: nat :| j < |v.cycles| && v.cycles[j] == d;
    if i < j {
      TwoOfAKey(p.key, v.cycles, i, j);
    } else if j < i {
      TwoOfAKey(p.key, v.cycles, j, i);
    }
  }

  lemma MetCover<T(!new), K(!new)>(p: Problem<T, K>, v: View<T, K>)
    requires Sound(p) && Good(p, v) && Over(p, v) && !v.truncated && MetApart(p, v)
    ensures AllCrossed(p.graph, v.cycles)
  {
    hide StackOk, TimeOk, OrderOk, SeenOk, ReportsOk, MetOk, OrderedBut, ClosedWalk, MetApart, Closes, Sound;
    forall w | ClosedWalk(p.graph, w)
      ensures exists a :: 0 <= a && a + 1 < |w| && ClosesOne(v.cycles, w[a], w[a + 1])
    {
      var a := WalkMeets(p, v, w);
      var c :| c in v.met && Closes(c, w[a], w[a + 1]);
      MetAreReported(p, v, c);
      assert ClosesOne(v.cycles, w[a], w[a + 1]);
    }
  }

  /** A condition on the graph alone: its simple cycles have different keys unless they have the same vertices. */
  ghost predicate CyclesApart<T(!new), K(!new)>(p: Problem<T, K>) {
    forall c, d {:trigger SimpleCycle(p.graph, c), SimpleCycle(p.graph, d)} ::
      SimpleCycle(p.graph, c) && SimpleCycle(p.graph, d) && p.key(Verts(c)) == p.key(Verts(d)) ==> Verts(c) == Verts(d)
  }

  /** Keys that tell the sets of vertices apart are more than enough for that. */
  lemma InjectiveTellsCycles<T(!new), K(!new)>(p: Problem<T, K>)
    requires Sound(p) && InjectiveOn(p.key, p.nodes)
    ensures CyclesApart(p)
  {
    hide Sound, Walk;
    forall c, d | SimpleCycle(p.graph, c) && SimpleCycle(p.graph, d) && p.key(Verts(c)) == p.key(Verts(d))
      ensures Verts(c) == Verts(d)
    {
      CycleWithin(p, c);
      CycleWithin(p, d);
    }
  }

  lemma CoversAllCycles<T(!new), K(!new)>(p: Problem<T, K>, v: View<T, K>)
    requires Sound(p) && Good(p, v) && Over(p, v) && !v.truncated && CyclesApart(p)
    ensures AllCrossed(p.graph, v.cycles)
  {
    CoverageIff(p, v);
    hide StackOk, TimeOk, OrderOk, SeenOk, MetOk, AllCrossed, SimpleCycle, Increasing, KeysDiffer;
  }

  // ---- the key of a set of file names ----------------------------------------------

  function JoinNames(names: seq<string>): string {
    if names == [] then "" else if |names| == 1 then names[0] else names[0] + "|" + JoinNames(names[1..])
  }

  /** `sort` lists the members of every set. */
  ghost predicate ListsMembers(sort: set<string> -> seq<string>) {
    forall s :: Verts(sort(s)) == s
  }

  function JoinedKey(sort: set<string> -> seq<string>): set<string> -> string {
    (s: set<string>) => JoinNames(sort(s))
  }

  ghost predicate NoBars(names: seq<string>) {
    forall i :: 0 <= i < |names| ==> '|' !in names[i]
  }

  lemma FirstBar(a: string, x: string, b: string, y: string)
    requires '|' !in a && '|' !in b && a + "|" + x == b + "|" + y
    ensures a == b && x == y
  {
    var s := a + "|" + x;
    assert s[|a|] == '|' && s[|b|] == '|';
    assert forall i :: 0 <= i < |a| ==> s[i] == a[i];
    assert forall i :: 0 <= i < |b| ==> s[i] == b[i];
    assert s[..|a|] == a && s[..|b|] == b && s[|a| + 1..] == x && s[|b| + 1..] == y;
  }

  lemma NoBarInOne(a: string, b: string, y: string)
    requires '|' !in a
    ensures a != b + "|" + y
  {
    assert (b + "|" + y)[|b|] == '|';
  }

  lemma {:induction false} JoinOneToOne(a: seq<string>, b: seq<string>)
    requires a != [] && b != [] && NoBars(a) && NoBars(b) && JoinNames(a) == JoinNames(b)
    ensures a == b
  {
    if |a| == 1 && |b| > 1 {
      NoBarInOne(a[0], b[0], JoinNames(b[1..]));
    } else if |a| > 1 && |b| == 1 {
      NoBarInOne(b[0], a[0], JoinNames(a[1..]));
    } else if |a| > 1 {
      FirstBar(a[0], JoinNames(a[1..]), b[0], JoinNames(b[1..]));
      JoinOneToOne(a[1..], b[1..]);
      assert a == [a[0]] + a[1..] && b == [b[0]] + b[1..];
    }
  }

  /** Names without the separator: the joined names tell their sets apart. */
  lemma JoinedNamesInjective(sort: set<string> -> seq<string>, nodes: set<string>)
    requires ListsMembers(sort) && forall n :: n in nodes ==> '|' !in n
    ensures InjectiveOn(JoinedKey(sort), nodes)
  {
    hide JoinNames, NoBars;
    forall x, y | x != {} && x <= nodes && y != {} && y <= nodes && JoinedKey(sort)(x) == JoinedKey(sort)(y)
      ensures x == y
    {
      Members(sort, x, nodes);
      Members(sort, y, nodes);
      JoinOneToOne(sort(x), sort(y));
    }
  }

  lemma Members(sort: set<string> -> seq<string>, x: set<string>, nodes: set<string>)
    requires ListsMembers(sort) && x != {} && x <= nodes && forall n :: n in nodes ==> '|' !in n
    ensures sort(x) != [] && NoBars(sort(x)) && Verts(sort(x)) == x
  {
    NoVerts(sort(x));
    forall i | 0 <= i < |sort(x)|
      ensures '|' !in sort(x)[i]
    {
      assert sort(x)[i] in Verts(sort(x));
    }
  }

  /** Two pairs of files that import each other, with the separator in two of their names. */
  const TWO_PAIRS: map<string, seq<string>> := map["a|b" := ["c"], "c" := ["a|b"], "a" := ["b|c"], "b|c" := ["a"]]

  /** There every cycle has the one name, so that one is reported at most, and nothing stands for the other. */
  lemma SeparatorDropsCycle(sort: set<string> -> seq<string>, p: Problem<string, string>, v: View<string, string>)
    requires sort({"a|b", "c"}) == ["a|b", "c"] && sort({"a", "b|c"}) == ["a", "b|c"]
    requires p.graph == TWO_PAIRS && p.key == JoinedKey(sort) && Good(p, v)
    ensures |v.cycles| <= 1 && !AllCrossed(TWO_PAIRS, v.cycles)
  {
    hide StackOk, TimeOk, OrderOk, SeenOk, MetOk, ClosedWalk, JoinNames, AllCrossed, Increasing, KeysDiffer;
    BothJoined();
    forall c | c in v.cycles
      ensures (Verts(c) == {"a|b", "c"} || Verts(c) == {"a", "b|c"}) && p.key(Verts(c)) == "a|b|c"
    {
      InOnePair(c);
    }
    if |v.cycles| > 1 {
      TwoOfAKey(p.key, v.cycles, 0, 1);
    } else {
      OneDoesNotCross(v.cycles);
    }
  }

  lemma PairStep(x: string, y: string)
    requires Edge(TWO_PAIRS, x, y)
    ensures (x == "a|b" && y == "c") || (x == "c" && y == "a|b") || (x == "a" && y == "b|c") || (x == "b|c" && y == "a")
  {
  }

  /** A walk there stays in its pair. */
  lemma {:induction false} StaysInPair(w: seq<string>, i: nat)
    requires Walk(TWO_PAIRS, w) && |w| >= 2 && i < |w|
    ensures w[0] in {"a|b", "c"} ==> w[i] in {"a|b", "c"}
    ensures w[0] in {"a", "b|c"} ==> w[i] in {"a", "b|c"}
    ensures w[0] in {"a|b", "c"} || w[0] in {"a", "b|c"}
    decreases i
  {
    hide Edge;
    assert Edge(TWO_PAIRS, w[0], w[1]);
    PairStep(w[0], w[1]);
    if i > 0 {
      StaysInPair(w, i - 1);
      assert Edge(TWO_PAIRS, w[i - 1], w[i]);
      PairStep(w[i - 1], w[i]);
    }
  }

  lemma InOnePair(c: seq<string>)
    requires ClosedWalk(TWO_PAIRS, c)
    ensures Verts(c) == {"a|b", "c"} || Verts(c) == {"a", "b|c"}
  {
    assert Edge(TWO_PAIRS, c[0], c[1]);
    PairStep(c[0], c[1]);
    forall i | 0 <= i < |c|
      ensures c[0] in {"a|b", "c"} ==> c[i] in {"a|b", "c"}
      ensures c[0] in {"a", "b|c"} ==> c[i] in {"a", "b|c"}
    {
      StaysInPair(c, i);
    }
    assert c[0] in Verts(c) && c[1] in Verts(c);
  }

  lemma OneDoesNotCross(cycles: seq<seq<string>>)
    requires |cycles| <= 1 && forall c :: c in cycles ==> Verts(c) == {"a|b", "c"} || Verts(c) == {"a", "b|c"}
    ensures !AllCrossed(TWO_PAIRS, cycles)
  {
    hide ClosedWalk;
    var first := cycles != [] && Verts(cycles[0]) == {"a|b", "c"};
    var w := if first then ["a", "b|c", "a"] else ["a|b", "c", "a|b"];
    BothClosed();
    forall a: nat | a + 1 < |w|
      ensures !ClosesOne(cycles, w[a], w[a + 1])
    {
      forall c | c in cycles
        ensures !Closes(c, w[a], w[a + 1])
      {
        assert c == cycles[0] && (|c| >= 2 ==> c[|c| - 2] in Verts(c));
      }
    }
  }

  lemma BothClosed()
    ensures ClosedWalk(TWO_PAIRS, ["a", "b|c", "a"]) && ClosedWalk(TWO_PAIRS, ["a|b", "c", "a|b"])
  {
    assert Edge(TWO_PAIRS, "a", "b|c") && Edge(TWO_PAIRS, "b|c", "a") && Edge(TWO_PAIRS, "a|b", "c") && Edge(TWO_PAIRS, "c", "a|b");
  }

  lemma BothJoined()
    ensures JoinNames(["a|b", "c"]) == JoinNames(["a", "b|c"]) == "a|b|c"
  {
    assert ["a|b", "c"][1..] == ["c"] && ["a", "b|c"][1..] == ["b|c"];
    assert JoinNames(["a|b", "c"]) == "a|b" + "|" + "c" == "a|b|c";
    assert JoinNames(["a", "b|c"]) == "a" + "|" + "b|c" == "a|b|c";
  }

  // ---- the search over its variables -----------------------------------------------

  /** The cap asked for: none, or a number after conversion. */
  datatype Requested = Absent | NotANumber | Count(d: real)

  /** No length is less than NaN, so with it nothing is ever reported. */
  function Cap(requested: Requested): (cap: nat)
    ensures cap <= 1000 && (cap == 0 <==> requested.NotANumber?)
    ensures requested.Absent? ==> cap == 200
    ensures requested.Count? && 1.0 <= requested.d < 1001.0 ==> cap as real <= requested.d < cap as real + 1.0
    ensures requested.Count? && requested.d < 1.0 ==> cap == 1
    ensures requested.Count? && requested.d >= 1001.0 ==> cap == 1000
  {
    match requested
    case Absent => 200
    case NotANumber => 0
    case Count(d) => if d < 1.0 then 1 else if d > 1000.0 then 1000 else d.Floor
  }

  class Detector<T(==, !new), K(==, !new)> {
    const p: Problem<T, K>

    var state: map<T, Mark>
    var stack: seq<T>
    var cycles: seq<seq<T>>
    var seen: set<K>
    var truncated: bool

    ghost var time: map<T, nat>
    ghost var order: seq<T>
    ghost var met: seq<seq<T>>

    constructor (graph: map<T, seq<T>>, requested: Requested, key: set<T> -> K, nodes: set<T>)
      ensures p == Problem(graph, Cap(requested), key, nodes)
      ensures Shown() == View(map[], [], [], {}, false, map[], [], [])
    {
      p := Problem(graph, Cap(requested), key, nodes);
      state, stack, cycles, seen, truncated := map[], [], [], {}, false;
      time, order, met := map[], [], [];
    }

    ghost function Shown(): View<T, K>
      reads this
    {
      View(state, stack, cycles, seen, truncated, time, order, met)
    }

    method BackEdge(dep: T)
      requires Good(p, Shown()) && !truncated && dep in stack && Edge(p.graph, stack[|stack| - 1], dep)
      modifies this`cycles, this`seen, this`truncated, this`met
      ensures Good(p, Shown()) && Extends(old(Shown()), Shown())
      ensures ClosesOne(met, stack[|stack| - 1], dep)
    {
      hide Good, Extends, ClosesOne, Edge;
      var idx :| 0 <= idx < |stack| && stack[idx] == dep;
      MeetGood(p, Shown(), idx);
      var path := stack[idx..] + [dep];
      var k := p.key(Verts(path));
      met := met + [path];
      if k !in seen {
        seen := seen + {k};
        if |cycles| < p.cap {
          cycles := cycles + [path];
        } else {
          truncated := true;
        }
      }
      assert Shown() == Meet(p, old(Shown()), idx);
    }

    method Enter(node: T)
      modifies this`state, this`stack, this`time
      ensures Shown() == Push(old(Shown()), node) && state.Keys == old(state.Keys) + {node}
    {
      state := state[node := InStack];
      stack := stack + [node];
      time := time[node := |time|];
    }

    method Leave(node: T)
      requires stack != []
      modifies this`state, this`stack, this`order
      ensures Shown() == Pop(old(Shown()), node)
    {
      stack := stack[..|stack| - 1];
      state := state[node := Finished];
      order := order + [node];
    }

    method Dfs(node: T)
      requires Sound(p) && Good(p, Shown()) && node in p.nodes && node !in state
      requires stack != [] ==> Edge(p.graph, stack[|stack| - 1], node)
      modifies this
      ensures Good(p, Shown()) && Extends(old(Shown()), Shown()) && stack == old(stack)
      ensures !truncated ==> node in order
      decreases p.nodes - state.Keys, 0
    {
      hide Good, ClosesOne, Edge, Handled, Extends, Sound;
      ExtendsItself(Shown());
      if truncated { return; }
      ghost var pushed := Push(Shown(), node);
      PushGood(p, Shown(), node);
      Enter(node);
      ExtendsItself(pushed);
      var deps, i := DepsOf(p.graph, node), 0;
      NoneHandled(Shown(), node, deps);
      while i < |deps| && !truncated
        invariant 0 <= i <= |deps| && stack == pushed.stack
        invariant Good(p, Shown()) && Extends(pushed, Shown())
        invariant !truncated ==> Handled(Shown(), node, deps, i)
      {
        ghost var before := Shown();
        IsEdge(p.graph, node, deps, i);
        WhatExtends(pushed, before);
        FewerLeft(p.nodes, old(state.Keys), state.Keys, node);
        Follow(deps[i]);
        ExtendsOver(pushed, before, Shown());
        if !truncated {
          HandledMore(before, Shown(), node, deps, i);
        }
        i := i + 1;
      }
      PopGood(p, Shown(), node);
      PopExtends(old(Shown()), Shown(), node);
      Leave(node);
    }

    /** One dependency of the vertex on top of the stack. */
    method Follow(dep: T)
      requires Sound(p) && Good(p, Shown()) && !truncated
      requires stack != [] && Edge(p.graph, stack[|stack| - 1], dep)
      modifies this
      ensures Good(p, Shown()) && Extends(old(Shown()), Shown()) && stack == old(stack)
      ensures !truncated ==> dep in order || ClosesOne(met, stack[|stack| - 1], dep)
      decreases p.nodes - state.Keys, 1
    {
      hide Good, ClosesOne, Edge, Handled, Extends;
      if dep in state {
        ExtendsItself(Shown());
        Marked(p, Shown(), dep);
        if state[dep] == InStack {
          BackEdge(dep);
        }
      } else {
        Dfs(dep);
      }
    }

    method FindCycles(files: seq<T>)
      requires Sound(p) && p.nodes == Verts(files)
      requires Shown() == View(map[], [], [], {}, false, map[], [], [])
      modifies this
      ensures forall c :: c in cycles ==> SimpleCycle(p.graph, c)
      ensures NoTwoAlike(cycles)
      ensures |cycles| <= p.cap && (truncated ==> |cycles| == p.cap)
      ensures cycles != [] || truncated <==> HasCycle(p.graph)
      ensures cycles != [] <==> HasCycle(p.graph) && p.cap >= 1
      ensures !truncated ==> (AllCrossed(p.graph, cycles) <==> MetApart(p, Shown()))
      ensures !truncated && CyclesApart(p) ==> AllCrossed(p.graph, cycles)
      ensures Good(p, Shown()) && Over(p, Shown())
    {
      hide Sound, Good, ClosesOne, Edge, Extends, Listed, SimpleCycle, NoTwoAlike, HasCycle, AllCrossed, CyclesApart, MetApart, Over;
      NothingYet(p, files, Shown());
      var i := 0;
      while i < |files| && !truncated
        invariant 0 <= i <= |files| && stack == [] && Good(p, Shown())
        invariant !truncated ==> Listed(Shown(), files, i)
      {
        ghost var before := Shown();
        assert files[i] in p.nodes;
        if files[i] !in state {
          Dfs(files[i]);
        } else {
          ExtendsItself(Shown());
          Marked(p, Shown(), files[i]);
          EmptyStack(p, Shown(), files[i]);
        }
        WhatExtends(before, Shown());
        if !truncated {
          ListedMore(before, Shown(), files, i);
        }
        i := i + 1;
      }
      AllOver(p, Shown(), files, i);
      ReportedAreCycles(p, Shown());
      DecidesAcyclicity(p, Shown());
      if !truncated {
        CoverageIff(p, Shown());
        if CyclesApart(p) {
          CoversAllCycles(p, Shown());
        }
      }
    }
  }
}
