/** Inheritance graphs: edges, reachability by one or more edges, and cycles. */
module RoleGraph {
  type Role = string
  type Graph = map<Role, seq<Role>>       // role -> direct parents, as listed
  type Edges = set<(Role, Role)>

  /** A listed parent counts unless it is empty or the role itself. */
  function EdgesOf(g: Graph): Edges {
    set child, parent | child in g && parent in g[child] && parent != "" && parent != child :: (child, parent)
  }

  ghost predicate IsPath(e: Edges, p: seq<Role>) {
    |p| >= 2 && forall i :: 0 <= i < |p| - 1 ==> (p[i], p[i + 1]) in e
  }

  ghost predicate PathFromTo(e: Edges, p: seq<Role>, a: Role, b: Role) {
    IsPath(e, p) && p[0] == a && p[|p| - 1] == b
  }

  /** b can be reached from a by one or more edges. */
  ghost predicate Reach(e: Edges, a: Role, b: Role) {
    exists p :: PathFromTo(e, p, a, b)
  }

  ghost predicate Cyclic(e: Edges) {
    exists r :: Reach(e, r, r)
  }

  lemma EdgeReaches(e: Edges, a: Role, b: Role)
    requires (a, b) in e
    ensures Reach(e, a, b)
  {
    assert PathFromTo(e, [a, b], a, b);
  }

  lemma ReachTransitive(e: Edges, a: Role, b: Role, c: Role)
    requires Reach(e, a, b) && Reach(e, b, c)
    ensures Reach(e, a, c)
  {
    var p :| PathFromTo(e, p, a, b);
    var q :| PathFromTo(e, q, b, c);
    var pq := p + q[1..];
    forall i | 0 <= i < |pq| - 1 ensures (pq[i], pq[i + 1]) in e {
      if i >= |p| - 1 {
        assert pq[i] == q[i - (|p| - 1)] && pq[i + 1] == q[i + 1 - (|p| - 1)];
      }
    }
    assert PathFromTo(e, pq, a, c);
  }

  /** The first edge of a path, and the rest. */
  lemma ReachFirstEdge(e: Edges, a: Role, b: Role) returns (c: Role)
    requires Reach(e, a, b)
    ensures (a, c) in e && (c == b || Reach(e, c, b))
  {
    var p :| PathFromTo(e, p, a, b);
    c := p[1];
    assert (p[0], p[1]) in e;
    if |p| > 2 {
      var q := p[1..];
      forall i | 0 <= i < |q| - 1 ensures (q[i], q[i + 1]) in e {
        assert (p[i + 1], p[i + 2]) in e;
      }
      assert PathFromTo(e, q, c, b);
    }
  }

  /** If every edge of f is a path in e, f reaches nothing more than e. */
  lemma {:induction false} PathMaps(f: Edges, e: Edges, p: seq<Role>)
    requires IsPath(f, p)
    requires forall a, b :: (a, b) in f ==> Reach(e, a, b)
    ensures Reach(e, p[0], p[|p| - 1])
    decreases |p|
  {
    assert (p[0], p[1]) in f;
    if |p| > 2 {
      var q := p[1..];
      forall i | 0 <= i < |q| - 1 ensures (q[i], q[i + 1]) in f {
        assert (p[i + 1], p[i + 2]) in f;
      }
      PathMaps(f, e, q);
      ReachTransitive(e, p[0], p[1], p[|p| - 1]);
    }
  }

  lemma ReachMaps(f: Edges, e: Edges, a: Role, b: Role)
    requires Reach(f, a, b)
    requires forall x, y :: (x, y) in f ==> Reach(e, x, y)
    ensures Reach(e, a, b)
  {
    var p :| PathFromTo(f, p, a, b);
    PathMaps(f, e, p);
  }
}
