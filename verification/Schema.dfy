/** Schema building: breadth-first closure over the graph of files or of message types. */
module Schema {
  import opened Seqs

  type Node = nat

  /** For each node the nodes it mentions, in order and with repetitions. */
  type Graph = map<Node, seq<Node>>

  ghost predicate Closed(g: Graph) {
    forall u :: u in g ==> forall i :: 0 <= i < |g[u]| ==> g[u][i] in g
  }

  ghost predicate Edge(g: Graph, u: Node, w: Node) {
    u in g && w in g[u]
  }

  /** There is a walk of exactly n edges from a to b. */
  ghost predicate ReachIn(g: Graph, a: Node, b: Node, n: nat)
    decreases n
  {
    if n == 0 then a == b
    else exists c :: ReachIn(g, a, c, n - 1) && Edge(g, c, b)
  }

  /** b is mentioned by a, directly or through other nodes. */
  ghost predicate Imports(g: Graph, a: Node, b: Node) {
    exists n: nat :: n > 0 && ReachIn(g, a, b, n)
  }

  ghost predicate Reachable(g: Graph, a: Node, b: Node) {
    exists n: nat :: ReachIn(g, a, b, n)
  }

  /** The shortest walk from a to b has n edges. */
  ghost predicate Distance(g: Graph, a: Node, b: Node, n: nat) {
    ReachIn(g, a, b, n) && forall m: nat :: m < n ==> !ReachIn(g, a, b, m)
  }

  lemma OneMore(g: Graph, a: Node, c: Node, b: Node, n: nat)
    requires ReachIn(g, a, c, n) && Edge(g, c, b)
    ensures ReachIn(g, a, b, n + 1) && Imports(g, a, b)
  {
    assert ReachIn(g, a, b, n + 1);
  }

  /** A set that holds what the root mentions and is closed under mentioning holds every import. */
  lemma {:induction false} ClosedHoldsImports(g: Graph, root: Node, seen: set<Node>, b: Node, n: nat)
    requires n > 0 && ReachIn(g, root, b, n)
    requires forall w :: Edge(g, root, w) ==> w in seen
    requires forall u, w :: u in seen && Edge(g, u, w) ==> w in seen
    ensures b in seen
    decreases n
  {
    var c :| ReachIn(g, root, c, n - 1) && Edge(g, c, b);
    if n > 1 {
      ClosedHoldsImports(g, root, seen, c, n - 1);
    }
  }

  /** The loop state of BuildPbSchema: `order` is what was emitted, order[..h], followed by the queue. After
      the root it lists the seen nodes in the order they were met. */
  ghost predicate PbInv(g: Graph, root: Node, order: seq<Node>, h: nat, seen: set<Node>) {
    && root in g && seen <= g.Keys
    && h <= |order| && order != [] && order[0] == root
    && (forall i, j :: 1 <= i < j < |order| ==> order[i] != order[j])
    && (forall i :: 1 <= i < |order| ==> order[i] in seen)
    && (forall w :: w in seen ==> w in order[1..] && Imports(g, root, w))
    && (forall i, w :: 0 <= i < h && Edge(g, order[i], w) ==> w in seen)
  }

  lemma PbStart(g: Graph, root: Node)
    requires root in g
    ensures PbInv(g, root, [root], 0, {})
  {}

  lemma PbFacts(g: Graph, root: Node, order: seq<Node>, h: nat, seen: set<Node>)
    requires PbInv(g, root, order, h, seen)
    ensures h <= |order| && order != [] && order[0] == root && seen <= g.Keys
    ensures forall i :: 0 <= i < |order| ==> order[i] in g
  {}

  lemma PbPush(g: Graph, root: Node, order: seq<Node>, h: nat, seen: set<Node>, dep: Node)
    requires Closed(g) && PbInv(g, root, order, h, seen) && h < |order|
    requires Edge(g, order[h], dep) && dep !in seen
    ensures PbInv(g, root, order + [dep], h, seen + {dep})
  {
    var u := order[h];
    if u == root {
      assert ReachIn(g, root, root, 0);
      OneMore(g, root, root, dep, 0);
    } else {
      var n: nat :| n > 0 && ReachIn(g, root, u, n);
      OneMore(g, root, u, dep, n);
    }
    var order' := order + [dep];
    assert order'[1..] == order[1..] + [dep];
    var i :| 0 <= i < |g[u]| && g[u][i] == dep;
  }

  lemma PbDone(g: Graph, root: Node, order: seq<Node>, h: nat, seen: set<Node>)
    requires PbInv(g, root, order, h, seen) && h < |order|
    requires forall w :: Edge(g, order[h], w) ==> w in seen
    ensures PbInv(g, root, order, h + 1, seen)
  {}

  lemma PbEnd(g: Graph, root: Node, order: seq<Node>, seen: set<Node>)
    requires PbInv(g, root, order, |order|, seen)
    ensures Distinct(order[1..])
    ensures forall w :: w in order[1..] <==> Imports(g, root, w)
    ensures Distinct(order) <==> !Imports(g, root, root)
  {
    forall w | Imports(g, root, w)
      ensures w in seen
    {
      var n: nat :| n > 0 && ReachIn(g, root, w, n);
      forall u, v | u in seen && Edge(g, u, v)
        ensures v in seen
      {
        var i :| 0 <= i < |order[1..]| && order[1..][i] == u;
        assert order[i + 1] == u;
      }
      assert forall v :: Edge(g, order[0], v) ==> v in seen;
      ClosedHoldsImports(g, root, seen, w, n);
    }
    assert forall w :: w in order[1..] <==> w in seen;
    assert forall i :: 0 <= i < |order[1..]| ==> order[1..][i] == order[i + 1];
    if Imports(g, root, root) {
      var i :| 0 <= i < |order[1..]| && order[1..][i] == root;
      assert order[0] == order[i + 1];
    } else {
      assert forall j :: 1 <= j < |order| ==> order[j] == order[1..][j - 1] && order[j] != root;
    }
  }

  /** Every file of the set once: the root first, then each file it imports. The root comes a second time
      exactly when it imports itself through other files. */
  method BuildPbSchema(g: Graph, root: Node) returns (out: seq<Node>)
    requires Closed(g) && root in g
    ensures out != [] && out[0] == root
    ensures Distinct(out[1..])
    ensures forall w :: w in out[1..] <==> Imports(g, root, w)
    ensures Distinct(out) <==> !Imports(g, root, root)
  {
    hide Imports, ReachIn, Distinct, PbInv, Closed;
    PbStart(g, root);
    out := [];
    var queue := [root];
    var seen: set<Node> := {};
    ghost var order := [root];
    while queue != []
      invariant PbInv(g, root, order, |out|, seen) && order == out + queue
      decreases g.Keys - seen, |queue|
    {
      ghost var h, seen0 := |out|, seen;
      var next := queue[0];
      PbFacts(g, root, order, h, seen);
      assert order[h] == next;
      queue := queue[1..];
      out := out + [next];
      ghost var queue0 := queue;
      var i := 0;
      while i < |g[next]|
        invariant i <= |g[next]|
        invariant order == out + queue && |out| == h + 1 && order[h] == next
        invariant PbInv(g, root, order, h, seen)
        invariant forall k :: 0 <= k < i ==> g[next][k] in seen
        invariant seen0 <= seen && (seen == seen0 ==> queue == queue0)
      {
        var dep := g[next][i];
        if dep !in seen {
          PbPush(g, root, order, h, seen, dep);
          PbFacts(g, root, order + [dep], h, seen + {dep});
          seen := seen + {dep};
          queue := queue + [dep];
          order := order + [dep];
        }
        i := i + 1;
      }
      PbDone(g, root, order, h, seen);
    }
    assert order == out;
    PbFacts(g, root, order, |out|, seen);
    PbEnd(g, root, order, seen);
  }

  const MAX_DEPTH: nat := 50

  datatype Schema = Sections(types: seq<Node>) | TooDeep

  /** The loop state of BuildROS2Schema: each visited type with its depth, emitted ones first. */
  ghost predicate RosInv(g: Graph, root: Node, order: seq<(Node, nat)>, h: nat, visited: set<Node>) {
    && root in g && visited <= g.Keys
    && h <= |order| && order != [] && order[0] == (root, 0)
    && (forall i, j :: 0 <= i < j < |order| ==> order[i].0 != order[j].0 && order[i].1 <= order[j].1)
    && (forall i :: 0 <= i < |order| ==> order[i].0 in visited && Distance(g, root, order[i].0, order[i].1))
    && (forall w :: w in visited ==> exists i :: 0 <= i < |order| && order[i].0 == w)
    && (h < |order| ==> forall i :: 0 <= i < |order| ==> order[i].1 <= order[h].1 + 1)
    && (forall i, w :: 0 <= i < h && Edge(g, order[i].0, w) ==> w in visited)
    && (forall i :: 0 <= i < h ==> order[i].1 <= MAX_DEPTH)
  }

  /** Breadth first: every type no deeper than the head of the queue has been visited. */
  lemma {:induction false} LevelVisited(
      g: Graph, root: Node, order: seq<(Node, nat)>, h: nat, visited: set<Node>, w: Node, m: nat)
    requires RosInv(g, root, order, h, visited) && ReachIn(g, root, w, m)
    requires h < |order| ==> m <= order[h].1
    ensures w in visited
    decreases m
  {
    if m > 0 {
      var c :| ReachIn(g, root, c, m - 1) && Edge(g, c, w);
      LevelVisited(g, root, order, h, visited, c, m - 1);
      var i :| 0 <= i < |order| && order[i].0 == c;
      assert Distance(g, root, c, order[i].1);
      assert order[i].1 <= m - 1;
      assert i < h;
    } else {
      assert order[0].0 in visited;
    }
  }

  lemma RosPush(g: Graph, root: Node, order: seq<(Node, nat)>, h: nat, visited: set<Node>, w: Node)
    requires Closed(g) && RosInv(g, root, order, h, visited) && h < |order|
    requires Edge(g, order[h].0, w) && w !in visited
    ensures RosInv(g, root, order + [(w, order[h].1 + 1)], h, visited + {w})
  {
    hide ReachIn;
    var u, d := order[h].0, order[h].1;
    assert Distance(g, root, u, d);
    OneMore(g, root, u, w, d);
    forall m: nat | m < d + 1 ensures !ReachIn(g, root, w, m) {
      if ReachIn(g, root, w, m) {
        LevelVisited(g, root, order, h, visited, w, m);
      }
    }
    assert Distance(g, root, w, d + 1);
    var i :| 0 <= i < |g[u]| && g[u][i] == w;
    RosPushed(g, root, order, h, visited, w);
  }

  lemma RosPushed(g: Graph, root: Node, order: seq<(Node, nat)>, h: nat, visited: set<Node>, w: Node)
    requires RosInv(g, root, order, h, visited) && h < |order|
    requires w in g && w !in visited && Distance(g, root, w, order[h].1 + 1)
    ensures RosInv(g, root, order + [(w, order[h].1 + 1)], h, visited + {w})
  {
    hide Distance, Edge;
    var order' := order + [(w, order[h].1 + 1)];
    forall x | x in visited + {w} ensures exists i :: 0 <= i < |order'| && order'[i].0 == x {
      if x == w {
        assert order'[|order|].0 == w;
      } else {
        var i :| 0 <= i < |order| && order[i].0 == x;
        assert order'[i].0 == x;
      }
    }
  }

  lemma RosDone(g: Graph, root: Node, order: seq<(Node, nat)>, h: nat, visited: set<Node>)
    requires RosInv(g, root, order, h, visited) && h < |order| && order[h].1 <= MAX_DEPTH
    requires forall w :: Edge(g, order[h].0, w) ==> w in visited
    ensures RosInv(g, root, order, h + 1, visited)
  {
    hide Distance, Edge;
  }

  function Firsts(order: seq<(Node, nat)>): seq<Node> {
    seq(|order|, i requires 0 <= i < |order| => order[i].0)
  }

  lemma RosEnd(g: Graph, root: Node, order: seq<(Node, nat)>, visited: set<Node>)
    requires RosInv(g, root, order, |order|, visited)
    ensures Distinct(Firsts(order)) && Firsts(order)[0] == root
    ensures forall w :: w in Firsts(order) <==> Reachable(g, root, w)
    ensures forall w, n: nat :: Distance(g, root, w, n) ==> n <= MAX_DEPTH
  {
    hide ReachIn, Distance, RosInv;
    RosFacts(g, root, order, |order|, visited);
    forall w
      ensures w in Firsts(order) <==> Reachable(g, root, w)
    {
      RosMember(g, root, order, visited, w);
    }
    forall w, n: nat | Distance(g, root, w, n)
      ensures n <= MAX_DEPTH
    {
      RosMember(g, root, order, visited, w);
    }
    FirstsDistinct(g, root, order, visited);
  }

  lemma FirstsDistinct(g: Graph, root: Node, order: seq<(Node, nat)>, visited: set<Node>)
    requires RosInv(g, root, order, |order|, visited)
    ensures Distinct(Firsts(order))
  {
    hide ReachIn, Distance, Edge;
  }

  lemma RosMember(g: Graph, root: Node, order: seq<(Node, nat)>, visited: set<Node>, w: Node)
    requires RosInv(g, root, order, |order|, visited)
    ensures w in Firsts(order) <==> Reachable(g, root, w)
    ensures forall n: nat :: Distance(g, root, w, n) ==> n <= MAX_DEPTH
  {
    hide ReachIn, Edge;
    var out := Firsts(order);
    forall n: nat | ReachIn(g, root, w, n)
      ensures w in out && (Distance(g, root, w, n) ==> n <= MAX_DEPTH)
    {
      LevelVisited(g, root, order, |order|, visited, w, n);
      var i :| 0 <= i < |order| && order[i].0 == w;
      assert out[i] == w;
      assert Distance(g, root, order[i].0, order[i].1);
      if Distance(g, root, w, n) {
        assert !(n < order[i].1) && !(order[i].1 < n);
      }
    }
    if w in out {
      var i :| 0 <= i < |out| && out[i] == w;
      assert Distance(g, root, order[i].0, order[i].1);
      assert ReachIn(g, root, w, order[i].1);
    }
  }

  /** One section for every type reachable from the root, the root first and each once; the depth check
      fires exactly when some reachable type is more than fifty references away. */
  method BuildROS2Schema(g: Graph, root: Node) returns (r: Schema)
    requires Closed(g) && root in g
    ensures r.TooDeep? <==> exists w, n: nat :: n > 50 && Distance(g, root, w, n)
    ensures r.Sections? ==> Distinct(r.types) && r.types != [] && r.types[0] == root
    ensures r.Sections? ==> forall w :: w in r.types <==> Reachable(g, root, w)
  {
    hide ReachIn, Distance, Distinct, RosInv, Closed;
    var out: seq<Node> := [];
    var queue: seq<(Node, nat)> := [(root, 0)];
    var visited := {root};
    ghost var order: seq<(Node, nat)> := [(root, 0)];
    ghost var h := 0;
    RosStart(g, root);
    while queue != []
      invariant h <= |order| && visited <= g.Keys
      invariant RosInv(g, root, order, h, visited)
      invariant queue == order[h..] && out == Firsts(order[..h])
      decreases g.Keys - visited, |queue|
    {
      ghost var visited0 := visited;
      var (current, indent) := queue[0];
      queue := queue[1..];
      assert order[h] == (current, indent);
      RosFacts(g, root, order, h, visited);
      if indent > MAX_DEPTH {
        assert Distance(g, root, current, indent);
        return TooDeep;
      }
      out := out + [current];
      ghost var queue0 := queue;
      var i := 0;
      while i < |g[current]|
        invariant i <= |g[current]|
        invariant h < |order| && order[h] == (current, indent) && visited <= g.Keys
        invariant queue == order[h + 1..] && out == Firsts(order[..h + 1])
        invariant RosInv(g, root, order, h, visited)
        invariant forall k :: 0 <= k < i ==> g[current][k] in visited
        invariant visited0 <= visited && (visited == visited0 ==> queue == queue0)
      {
        var nested := g[current][i];
        if nested !in visited {
          RosPush(g, root, order, h, visited, nested);
          RosFacts(g, root, order + [(nested, indent + 1)], h, visited + {nested});
          queue := queue + [(nested, indent + 1)];
          visited := visited + {nested};
          order := order + [(nested, indent + 1)];
          assert order[..h + 1] == order[..|order| - 1][..h + 1];
        }
        i := i + 1;
      }
      RosDone(g, root, order, h, visited);
      h := h + 1;
    }
    assert order[..h] == order;
    RosFacts(g, root, order, h, visited);
    RosEnd(g, root, order, visited);
    r := Sections(out);
  }

  lemma RosFacts(g: Graph, root: Node, order: seq<(Node, nat)>, h: nat, visited: set<Node>)
    requires RosInv(g, root, order, h, visited)
    ensures order != [] && order[0] == (root, 0) && visited <= g.Keys
    ensures forall i :: 0 <= i < |order| ==> order[i].0 in g && Distance(g, root, order[i].0, order[i].1)
  {}

  lemma RosStart(g: Graph, root: Node)
    requires root in g
    ensures RosInv(g, root, [(root, 0)], 0, {root})
  {}

  /** So every type a section refers to has a section of its own. */
  lemma ReferencedTypesAreDefined(g: Graph, root: Node, types: seq<Node>, u: Node, w: Node)
    requires forall x :: x in types <==> Reachable(g, root, x)
    requires u in types && Edge(g, u, w)
    ensures w in types
  {
    var n: nat :| ReachIn(g, root, u, n);
    OneMore(g, root, u, w, n);
  }
}
