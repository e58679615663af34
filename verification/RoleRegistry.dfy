/**
  The role registry: a memoised depth-first search expands every role of a domain into all
  its ancestors, refusing cycles, and the result is kept as sorted g-rules.
 */
module RoleRegistry {
  import opened Wrappers
  import opened RoleGraph

  ghost predicate NoDuplicates(s: seq<Role>) {
    forall i, j :: 0 <= i < j < |s| ==> s[i] != s[j]
  }

  /** The list is exactly the roles reachable from `role`, each once. */
  ghost predicate AreAncestors(e: Edges, role: Role, list: seq<Role>) {
    NoDuplicates(list) && forall x :: x in list <==> Reach(e, role, x)
  }

  /** A role with an ancestor is defined in its graph. */
  lemma ReachFromDefined(g: Graph, a: Role, b: Role)
    requires Reach(EdgesOf(g), a, b)
    ensures a in g
  {
    var c := ReachFirstEdge(EdgesOf(g), a, b);
  }

  /** The search of one domain graph: memoised answers, and the roles on the current path. */
  class Expansion {
    const graph: Graph
    var memo: map<Role, seq<Role>>
    var visiting: set<Role>

    ghost function E(): Edges {
      EdgesOf(graph)
    }

    /** Memoised answers are right, closed under reachability, acyclic, and never on the current path. */
    ghost predicate Valid()
      reads this
    {
      && memo.Keys !! visiting
      && (forall r :: r in memo ==> AreAncestors(E(), r, memo[r]))
      && (forall r, x :: r in memo && x in memo[r] ==> x in memo && x != r)
    }

    constructor (graph: Graph)
      ensures Valid() && this.graph == graph && memo == map[] && visiting == {}
    {
      this.graph, memo, visiting := graph, map[], {};
    }

    /** Appends what is not there yet. */
    method Merge(result: seq<Role>, seen: set<Role>, more: seq<Role>) returns (result': seq<Role>, seen': set<Role>)
      requires NoDuplicates(result) && forall x :: x in seen <==> x in result
      ensures NoDuplicates(result') && forall x :: x in seen' <==> x in result'
      ensures forall x :: x in result' <==> x in result || x in more
    {
      result', seen' := result, seen;
      for i := 0 to |more|
        invariant NoDuplicates(result') && forall x :: x in seen' <==> x in result'
        invariant forall x :: x in result' <==> x in result || x in more[..i]
      {
        if more[i] !in seen' {
          seen', result' := seen' + {more[i]}, result' + [more[i]];
        }
      }
    }

    /** What the first i listed parents contribute is in the result, and nothing else is. */
    ghost predicate Collected(role: Role, parents: seq<Role>, i: nat, result: seq<Role>)
      reads this
      requires i <= |parents|
    {
      && (forall x :: x in result ==> Reach(E(), role, x) && x in memo)
      && (forall j :: 0 <= j < i && parents[j] != "" && parents[j] != role ==> parents[j] in result)
      && (forall x, y :: x in result && Reach(E(), x, y) ==> y in result)
    }

    /**
      All ancestors of `role`, or an error, which is raised only when the graph has a cycle.
      Every role on the current path leads to `role`.
     */
    method Expand(role: Role) returns (r: Result<seq<Role>, Role>)
      requires Valid()
      requires forall v :: v in visiting ==> Reach(E(), v, role)
      modifies this
      ensures r.Ok? ==> Valid() && visiting == old(visiting)
      ensures r.Ok? ==> role in memo && memo[role] == r.value && old(memo.Keys) <= memo.Keys
      ensures r.Err? ==> Cyclic(E())
      decreases graph.Keys - visiting
    {
      if role in visiting {
        return Err(role);
      }
      if role in memo {
        return Ok(memo[role]);
      }
      visiting := visiting + {role};
      var seen: set<Role>, result: seq<Role> := {}, [];
      var parents := if role in graph then graph[role] else [];
      for i := 0 to |parents|
        invariant Valid() && visiting == old(visiting) + {role} && old(memo.Keys) <= memo.Keys
        invariant NoDuplicates(result) && forall x :: x in seen <==> x in result
        invariant Collected(role, parents, i, result)
      {
        var parent := parents[i];
        if parent != "" && parent != role && parent !in seen {
          EdgeReaches(E(), role, parent);
          forall v | v in visiting ensures Reach(E(), v, parent) {
            if v != role { ReachTransitive(E(), v, role, parent); }
          }
          ghost var before := result;
          var grandParents := Expand(parent);
          if grandParents.Err? {
            return grandParents;
          }
          result, seen := Merge(result + [parent], seen + {parent}, grandParents.value);
          GrandParentsCollected(role, parents, i, before, result, grandParents.value);
        }
      }
      AllCollected(role, parents, result);
      memo := memo[role := result];
      visiting := visiting - {role};
      return Ok(result);
    }

    lemma GrandParentsCollected(role: Role, parents: seq<Role>, i: nat, before: seq<Role>, result: seq<Role>, more: seq<Role>)
      requires Valid() && i < |parents| && Reach(E(), role, parents[i])
      requires parents[i] in memo && memo[parents[i]] == more
      requires Collected(role, parents, i, before)
      requires forall x :: x in result <==> x in before || x == parents[i] || x in more
      ensures Collected(role, parents, i + 1, result)
    {
      var parent := parents[i];
      forall x | x in more ensures Reach(E(), role, x) && x in memo {
        ReachTransitive(E(), role, parent, x);
      }
      forall x, y | x in result && Reach(E(), x, y) ensures y in result {
        if x in more { ReachTransitive(E(), parent, x, y); }
      }
    }

    lemma AllExpandedMeansAcyclic()
      requires Valid() && graph.Keys <= memo.Keys
      ensures !Cyclic(E())
    {
      if c :| Reach(E(), c, c) {
        ReachFromDefined(graph, c, c);
        assert false;
      }
    }

    /** With every listed parent done, the result is the set of ancestors; `role` is not among them. */
    lemma AllCollected(role: Role, parents: seq<Role>, result: seq<Role>)
      requires parents == if role in graph then graph[role] else []
      requires NoDuplicates(result) && Collected(role, parents, |parents|, result)
      ensures AreAncestors(E(), role, result)
    {
      forall x | Reach(E(), role, x) ensures x in result {
        var c := ReachFirstEdge(E(), role, x);
        assert c in parents && c in result;
      }
    }
  }

  // ---------- rules and their order ----------

  /** The g-rule g(child, parent, domain): child inherits parent. */
  datatype Rule = Rule(child: Role, parent: Role, domain: string)

  /** Go's string order, byte by byte. */
  predicate StringLess(a: string, b: string) {
    if b == "" then false
    else if a == "" then true
    else if a[0] != b[0] then a[0] < b[0]
    else StringLess(a[1..], b[1..])
  }

  lemma {:induction false} StringLessTransitive(a: string, b: string, c: string)
    requires StringLess(a, b) && StringLess(b, c)
    ensures StringLess(a, c)
  {
    if a != "" && a[0] == b[0] == c[0] {
      StringLessTransitive(a[1..], b[1..], c[1..]);
    }
  }

  lemma {:induction false} StringLessTotal(a: string, b: string)
    ensures StringLess(a, b) || a == b || StringLess(b, a)
    ensures !(StringLess(a, b) && StringLess(b, a)) && !StringLess(a, a)
  {
    if a != "" {
      StringLessTotal(a[1..], a[1..]);
      if b != "" && a[0] == b[0] {
        StringLessTotal(a[1..], b[1..]);
        assert a[1..] == b[1..] ==> a == [a[0]] + a[1..] == b;
      }
    }
  }

  /** One is a proper prefix of the other, or they first differ where its byte is smaller. */
  lemma {:induction false} StringLessIff(a: string, b: string)
    ensures StringLess(a, b) <==> a < b || exists k :: 0 <= k < |a| && k < |b| && a[..k] == b[..k] && a[k] < b[k]
  {
    if a != "" && b != "" {
      if a[0] == b[0] {
        StringLessIff(a[1..], b[1..]);
        assert a < b <==> a[1..] < b[1..];
        if k :| 0 <= k < |a[1..]| && k < |b[1..]| && a[1..][..k] == b[1..][..k] && a[1..][k] < b[1..][k] {
          assert a[..k + 1] == [a[0]] + a[1..][..k] && b[..k + 1] == [b[0]] + b[1..][..k];
          assert a[k + 1] < b[k + 1];
        }
        if k :| 0 <= k < |a| && k < |b| && a[..k] == b[..k] && a[k] < b[k] {
          assert a[1..][..k - 1] == a[..k][1..] && b[1..][..k - 1] == b[..k][1..];
          assert a[1..][k - 1] < b[1..][k - 1];
        }
      } else {
        assert a[..0] == b[..0];
        if k :| 0 <= k < |a| && k < |b| && a[..k] == b[..k] && a[k] < b[k] {
          assert k > 0 ==> a[..k][0] == b[..k][0];
        }
      }
    }
  }

  predicate RuleLess(a: Rule, b: Rule) {
    if a.child != b.child then StringLess(a.child, b.child) else StringLess(a.parent, b.parent)
  }

  lemma RuleLessOrder(a: Rule, b: Rule, c: Rule)
    requires a.domain == b.domain == c.domain
    ensures RuleLess(a, b) && RuleLess(b, c) ==> RuleLess(a, c)
    ensures RuleLess(a, b) || a == b || RuleLess(b, a)
    ensures !(RuleLess(a, b) && RuleLess(b, a))
  {
    StringLessTotal(a.child, b.child);
    StringLessTotal(a.parent, b.parent);
    StringLessTotal(b.child, c.child);
    if RuleLess(a, b) && RuleLess(b, c) {
      if a.child != b.child && b.child != c.child {
        StringLessTransitive(a.child, b.child, c.child);
        StringLessTotal(a.child, c.child);
      } else if a.child == b.child == c.child {
        StringLessTransitive(a.parent, b.parent, c.parent);
      }
    }
  }

  ghost predicate Sorted(rules: seq<Rule>, domain: string) {
    && (forall r :: r in rules ==> r.domain == domain)
    && forall i, j :: 0 <= i < j < |rules| ==> RuleLess(rules[i], rules[j])
  }

  /** A sorted list is determined by its elements. */
  lemma {:induction false} SortedUnique(s: seq<Rule>, t: seq<Rule>, domain: string)
    requires Sorted(s, domain) && Sorted(t, domain)
    requires forall r :: r in s <==> r in t
    ensures s == t
  {
    assert t != [] ==> t[0] in t && t[0] in s;
    assert s == [] ==> t == [];
    if s != [] {
      assert s[0] in t && t[0] in s;
      var i :| 0 <= i < |t| && t[i] == s[0];
      var j :| 0 <= j < |s| && s[j] == t[0];
      RuleLessOrder(s[0], t[0], t[0]);
      assert s[0] == t[0];
      forall r ensures r in s[1..] <==> r in t[1..] {
        if r in s[1..] || r in t[1..] { RuleLessOrder(s[0], s[0], s[0]); }
        assert r in s <==> r == s[0] || r in s[1..];
        assert r in t <==> r == t[0] || r in t[1..];
      }
      SortedUnique(s[1..], t[1..], domain);
    }
  }

  ghost predicate AllDifferent(rules: seq<Rule>) {
    forall i, j :: 0 <= i < j < |rules| ==> rules[i] != rules[j]
  }

  method InsertSorted(rules: seq<Rule>, r: Rule, domain: string) returns (res: seq<Rule>)
    requires Sorted(rules, domain) && r.domain == domain && r !in rules
    ensures Sorted(res, domain)
    ensures forall x :: x in res <==> x in rules || x == r
  {
    var k := 0;
    while k < |rules| && RuleLess(rules[k], r)
      invariant 0 <= k <= |rules|
      invariant forall i :: 0 <= i < k ==> RuleLess(rules[i], r)
    {
      k := k + 1;
    }
    res := rules[..k] + [r] + rules[k..];
    forall i | k <= i < |rules| ensures RuleLess(r, rules[i]) {
      RuleLessOrder(r, rules[k], rules[i]);
    }
    assert forall x :: x in rules <==> x in rules[..k] || x in rules[k..];
  }

  /** `sort.Slice` by child and then parent, on rules that are all different. */
  method SortRules(rules: seq<Rule>, domain: string) returns (sorted: seq<Rule>)
    requires AllDifferent(rules) && forall r :: r in rules ==> r.domain == domain
    ensures Sorted(sorted, domain)
    ensures forall x :: x in sorted <==> x in rules
  {
    sorted := [];
    for i := 0 to |rules|
      invariant Sorted(sorted, domain)
      invariant forall x :: x in sorted <==> x in rules[..i]
    {
      assert rules[i] !in rules[..i];
      sorted := InsertSorted(sorted, rules[i], domain);
    }
    assert rules[..|rules|] == rules;
  }

  /** The sorted g-rules of one domain: every role with every one of its ancestors, one rule away. */
  ghost predicate RulesOf(g: Graph, domain: string, rules: seq<Rule>) {
    && Sorted(rules, domain)
    && forall r :: r in rules <==> r.domain == domain && Reach(EdgesOf(g), r.child, r.parent)
  }

  function RuleEdges(rules: seq<Rule>): Edges {
    set r | r in rules :: (r.child, r.parent)
  }

  /** The emitted rules are their own transitive closure, and reach exactly what the listed parents reach. */
  lemma RulesAreTheClosure(g: Graph, domain: string, rules: seq<Rule>, a: Role, b: Role)
    requires RulesOf(g, domain, rules)
    ensures Reach(RuleEdges(rules), a, b) <==> Reach(EdgesOf(g), a, b)
    ensures Reach(RuleEdges(rules), a, b) <==> Rule(a, b, domain) in rules
  {
    var e, f := EdgesOf(g), RuleEdges(rules);
    if Reach(f, a, b) {
      forall x, y | (x, y) in f ensures Reach(e, x, y) {
        var r :| r in rules && (r.child, r.parent) == (x, y);
      }
      ReachMaps(f, e, a, b);
    }
    if Reach(e, a, b) {
      var r := Rule(a, b, domain);
      assert r in rules;
      EdgeReaches(f, a, b);
    }
  }

  // ---------- loading ----------

  datatype RoleDefinition = RoleDefinition(tenantId: string, name: Role, inheritedRoles: seq<Role>)

  const WILDCARD := "*"

  function DomainOf(d: RoleDefinition): string {
    if d.tenantId == "" then WILDCARD else d.tenantId
  }

  /** The graph of every domain after the first n definitions; a later definition of a role replaces an earlier one. */
  function GraphsOf(defs: seq<RoleDefinition>, n: nat): map<string, Graph>
    requires n <= |defs|
  {
    if n == 0 then map[]
    else
      var graphs, def := GraphsOf(defs, n - 1), defs[n - 1];
      if def.name == "" then graphs
      else
        var graph := if DomainOf(def) in graphs then graphs[DomainOf(def)] else map[];
        graphs[DomainOf(def) := graph[def.name := def.inheritedRoles]]
  }

  predicate Defines(def: RoleDefinition, d: string, role: Role) {
    def.name == role && role != "" && d == if def.tenantId == "" then "*" else def.tenantId
  }

  /** Definition i is the last of the first n for this role in this domain. */
  ghost predicate IsLast(defs: seq<RoleDefinition>, n: nat, i: nat, d: string, role: Role)
    requires n <= |defs|
  {
    i < n && Defines(defs[i], d, role) && forall j :: i < j < n ==> !Defines(defs[j], d, role)
  }

  function Lookup(graphs: map<string, Graph>, d: string, role: Role): Option<seq<Role>> {
    if d in graphs && role in graphs[d] then Some(graphs[d][role]) else None
  }

  /** A role has the parents its last definition in the domain lists, and is absent if it has no definition there. */
  ghost predicate LastWins(defs: seq<RoleDefinition>, n: nat, graphs: map<string, Graph>, d: string, role: Role)
    requires n <= |defs|
  {
    match Lookup(graphs, d, role)
    case None => forall i :: 0 <= i < n ==> !Defines(defs[i], d, role)
    case Some(parents) => exists i: nat :: IsLast(defs, n, i, d, role) && parents == defs[i].inheritedRoles
  }

  ghost predicate DefinedBy(defs: seq<RoleDefinition>, graphs: map<string, Graph>) {
    && (forall d, role :: LastWins(defs, |defs|, graphs, d, role))
    && (forall d :: d in graphs ==> graphs[d] != map[])
  }

  /** One more definition: it decides about its own role, and no other. */
  lemma LookupNext(defs: seq<RoleDefinition>, n: nat, d: string, role: Role)
    requires 0 < n <= |defs|
    ensures Lookup(GraphsOf(defs, n), d, role) ==
      if Defines(defs[n - 1], d, role) then Some(defs[n - 1].inheritedRoles) else Lookup(GraphsOf(defs, n - 1), d, role)
  {
  }

  lemma {:induction false} LastDefinitionWins(defs: seq<RoleDefinition>, n: nat, d: string, role: Role)
    requires n <= |defs|
    ensures LastWins(defs, n, GraphsOf(defs, n), d, role)
  {
    if n > 0 {
      hide GraphsOf, Lookup, Defines;
      LastDefinitionWins(defs, n - 1, d, role);
      LookupNext(defs, n, d, role);
      if Defines(defs[n - 1], d, role) {
        assert IsLast(defs, n, n - 1, d, role);
      } else if Lookup(GraphsOf(defs, n - 1), d, role).Some? {
        var parents := Lookup(GraphsOf(defs, n - 1), d, role).value;
        var i: nat :| IsLast(defs, n - 1, i, d, role) && parents == defs[i].inheritedRoles;
        assert IsLast(defs, n, i, d, role);
      }
    }
  }

  lemma {:induction false} NoEmptyGraph(defs: seq<RoleDefinition>, n: nat, d: string)
    requires n <= |defs|
    ensures d in GraphsOf(defs, n) ==> GraphsOf(defs, n)[d] != map[]
  {
    if n > 0 {
      NoEmptyGraph(defs, n - 1, d);
      var def := defs[n - 1];
      if def.name != "" { assert def.name in GraphsOf(defs, n)[DomainOf(def)]; }
    }
  }

  lemma GraphsAreDefinedBy(defs: seq<RoleDefinition>)
    ensures DefinedBy(defs, GraphsOf(defs, |defs|))
  {
    hide LastWins, GraphsOf;
    var graphs := GraphsOf(defs, |defs|);
    forall d, role ensures LastWins(defs, |defs|, graphs, d, role) { LastDefinitionWins(defs, |defs|, d, role); }
    forall d | d in graphs ensures graphs[d] != map[] { NoEmptyGraph(defs, |defs|, d); }
  }

  /** Nothing else is defined by the same definitions. */
  lemma DefinedByUnique(defs: seq<RoleDefinition>, g: map<string, Graph>, h: map<string, Graph>)
    requires DefinedBy(defs, g) && DefinedBy(defs, h)
    ensures g == h
  {
    forall d, role ensures Lookup(g, d, role) == Lookup(h, d, role) { SameLookup(defs, g, h, d, role); }
    LookupDetermines(g, h);
  }

  lemma SameLookup(defs: seq<RoleDefinition>, g: map<string, Graph>, h: map<string, Graph>, d: string, role: Role)
    requires LastWins(defs, |defs|, g, d, role) && LastWins(defs, |defs|, h, d, role)
    ensures Lookup(g, d, role) == Lookup(h, d, role)
  {
    hide Lookup;
    match (Lookup(g, d, role), Lookup(h, d, role)) {
      case (Some(p), Some(q)) =>
        var i: nat :| IsLast(defs, |defs|, i, d, role) && p == defs[i].inheritedRoles;
        var j: nat :| IsLast(defs, |defs|, j, d, role) && q == defs[j].inheritedRoles;
      case _ =>
    }
  }

  lemma LookupDetermines(g: map<string, Graph>, h: map<string, Graph>)
    requires forall d, role :: Lookup(g, d, role) == Lookup(h, d, role)
    requires (forall d :: d in g ==> g[d] != map[]) && (forall d :: d in h ==> h[d] != map[])
    ensures g == h
  {
    forall d ensures d in g <==> d in h {
      if d in g { var role :| role in g[d]; assert Lookup(g, d, role) == Lookup(h, d, role); }
      if d in h { var role :| role in h[d]; assert Lookup(g, d, role) == Lookup(h, d, role); }
    }
    forall d | d in g ensures g[d] == h[d] {
      forall role ensures role in g[d] <==> role in h[d] { assert Lookup(g, d, role) == Lookup(h, d, role); }
      forall role | role in g[d] ensures g[d][role] == h[d][role] { assert Lookup(g, d, role) == Lookup(h, d, role); }
    }
  }

  // ---------- inheritance, said of the definitions ----------

  /** The last definition of `child` in the domain lists `parent`, which is a name and not the role itself. */
  ghost predicate Lists(defs: seq<RoleDefinition>, d: string, child: Role, parent: Role) {
    parent != "" && parent != child
    && exists i: nat :: IsLast(defs, |defs|, i, d, child) && parent in defs[i].inheritedRoles
  }

  ghost predicate IsChain(defs: seq<RoleDefinition>, d: string, p: seq<Role>) {
    |p| >= 2 && forall i :: 0 <= i < |p| - 1 ==> Lists(defs, d, p[i], p[i + 1])
  }

  /** A chain of one or more listed parents leads from a to b. */
  ghost predicate Inherits(defs: seq<RoleDefinition>, d: string, a: Role, b: Role) {
    exists p :: IsChain(defs, d, p) && p[0] == a && p[|p| - 1] == b
  }

  lemma ListsIsEdge(defs: seq<RoleDefinition>, d: string, child: Role, parent: Role)
    ensures var graphs := GraphsOf(defs, |defs|);
      Lists(defs, d, child, parent) <==> d in graphs && (child, parent) in EdgesOf(graphs[d])
  {
    var graphs := GraphsOf(defs, |defs|);
    LastDefinitionWins(defs, |defs|, d, child);
    hide GraphsOf, Defines;
    if Lists(defs, d, child, parent) {
      var i: nat :| IsLast(defs, |defs|, i, d, child) && parent in defs[i].inheritedRoles;
      assert Lookup(graphs, d, child).Some?;
      var j: nat :| IsLast(defs, |defs|, j, d, child) && graphs[d][child] == defs[j].inheritedRoles;
      assert i == j;
    }
    if d in graphs && (child, parent) in EdgesOf(graphs[d]) {
      assert Lookup(graphs, d, child).Some?;
    }
  }

  /** Chains of listed parents are the paths of the domain's graph. */
  lemma InheritsIsReach(defs: seq<RoleDefinition>, d: string, a: Role, b: Role)
    ensures var graphs := GraphsOf(defs, |defs|);
      Inherits(defs, d, a, b) <==> d in graphs && Reach(EdgesOf(graphs[d]), a, b)
  {
    var graphs := GraphsOf(defs, |defs|);
    hide GraphsOf, Lists, EdgesOf;
    if Inherits(defs, d, a, b) {
      var p :| IsChain(defs, d, p) && p[0] == a && p[|p| - 1] == b;
      ListsIsEdge(defs, d, p[0], p[1]);
      forall i | 0 <= i < |p| - 1 ensures (p[i], p[i + 1]) in EdgesOf(graphs[d]) { ListsIsEdge(defs, d, p[i], p[i + 1]); }
      assert PathFromTo(EdgesOf(graphs[d]), p, a, b);
    }
    if d in graphs && Reach(EdgesOf(graphs[d]), a, b) {
      var p :| PathFromTo(EdgesOf(graphs[d]), p, a, b);
      forall i | 0 <= i < |p| - 1 ensures Lists(defs, d, p[i], p[i + 1]) { ListsIsEdge(defs, d, p[i], p[i + 1]); }
      assert IsChain(defs, d, p);
    }
  }

  /** No role of any domain inherits itself. */
  ghost predicate NoCycle(defs: seq<RoleDefinition>) {
    forall d, a :: !Inherits(defs, d, a, a)
  }

  lemma AnyCycleMeans(defs: seq<RoleDefinition>)
    ensures AnyCycle(GraphsOf(defs, |defs|)) <==> !NoCycle(defs)
  {
    var graphs := GraphsOf(defs, |defs|);
    hide GraphsOf, Inherits, EdgesOf, Reach;
    if AnyCycle(graphs) {
      var d :| d in graphs && Cyclic(EdgesOf(graphs[d]));
      var a :| Reach(EdgesOf(graphs[d]), a, a);
      InheritsIsReach(defs, d, a, a);
    }
    if d, a :| Inherits(defs, d, a, a) {
      InheritsIsReach(defs, d, a, a);
      assert Cyclic(EdgesOf(graphs[d]));
    }
  }

  /** The table's rules are exactly the inheritances, each under its own domain, sorted by child and then parent. */
  ghost predicate Lawful(defs: seq<RoleDefinition>, table: RuleTable) {
    && (forall d, r :: d in table && r in table[d] ==> r.domain == d)
    && (forall d, i, j :: d in table && 0 <= i < j < |table[d]| ==> Before(table[d][i], table[d][j]))
    && (forall r: Rule :: (r.domain in table && r in table[r.domain]) <==> Inherits(defs, r.domain, r.child, r.parent))
  }

  predicate Before(x: Rule, y: Rule) {
    StringLess(x.child, y.child) || (x.child == y.child && StringLess(x.parent, y.parent))
  }

  lemma RegistryIsLawful(defs: seq<RoleDefinition>, table: RuleTable)
    requires IsRegistry(GraphsOf(defs, |defs|), table)
    ensures Lawful(defs, table)
  {
    var graphs := GraphsOf(defs, |defs|);
    hide GraphsOf, Inherits, EdgesOf, Reach;
    forall r: Rule
      ensures (r.domain in table && r in table[r.domain]) <==> Inherits(defs, r.domain, r.child, r.parent)
    {
      InheritsIsReach(defs, r.domain, r.child, r.parent);
      assert r.domain in graphs && r.domain !in table ==> r !in [];
    }
    forall d, i, j | d in table && 0 <= i < j < |table[d]| ensures Before(table[d][i], table[d][j]) {
      assert RuleLess(table[d][i], table[d][j]);
      StringLessTotal(table[d][i].child, table[d][j].child);
    }
  }

  type RuleTable = map<string, seq<Rule>>

  /** A registry for these graphs: the rules of every domain that has any. */
  ghost predicate IsRegistry(graphs: map<string, Graph>, rules: RuleTable) {
    && (forall d :: d in rules ==> d in graphs && rules[d] != [] && RulesOf(graphs[d], d, rules[d]))
    && (forall d :: d in graphs && d !in rules ==> RulesOf(graphs[d], d, []))
  }

  ghost predicate AnyCycle(graphs: map<string, Graph>) {
    exists d :: d in graphs && Cyclic(EdgesOf(graphs[d]))
  }

  lemma SameDomainRules(graphs: map<string, Graph>, s: RuleTable, t: RuleTable, d: string)
    requires IsRegistry(graphs, s) && IsRegistry(graphs, t) && d in s
    ensures d in t && s[d] == t[d]
  {
    assert s[d][0] in s[d];
    SortedUnique(s[d], if d in t then t[d] else [], d);
  }

  /** The definitions alone determine the registry: the order in which maps are iterated does not matter. */
  lemma RegistryUnique(graphs: map<string, Graph>, s: RuleTable, t: RuleTable)
    requires IsRegistry(graphs, s) && IsRegistry(graphs, t)
    ensures s == t
  {
    forall d | d in s ensures d in t && s[d] == t[d] { SameDomainRules(graphs, s, t, d); }
    forall d | d in t ensures d in s { SameDomainRules(graphs, t, s, d); }
  }

  /** One rule for each ancestor of a role. */
  method AppendRules(rules: seq<Rule>, role: Role, ancestors: seq<Role>, domain: string) returns (res: seq<Rule>)
    requires AllDifferent(rules) && NoDuplicates(ancestors) && forall r :: r in rules ==> r.child != role
    ensures AllDifferent(res)
    ensures forall x :: x in res <==> x in rules || (x.child == role && x.domain == domain && x.parent in ancestors)
  {
    res := rules;
    for i := 0 to |ancestors|
      invariant AllDifferent(res)
      invariant forall x :: x in res <==> x in rules || (x.child == role && x.domain == domain && x.parent in ancestors[..i])
    {
      assert ancestors[i] !in ancestors[..i];
      res := res + [Rule(role, ancestors[i], domain)];
    }
    assert ancestors[..|ancestors|] == ancestors;
  }

  /** The rules of one domain, or None if its graph has a cycle. */
  method ExpandDomain(domain: string, graph: Graph) returns (r: Option<seq<Rule>>)
    ensures r.None? <==> Cyclic(EdgesOf(graph))
    ensures r.Some? ==> RulesOf(graph, domain, r.value)
  {
    var search := new Expansion(graph);
    var rules: seq<Rule> := [];
    var left := graph.Keys;
    while left != {}
      invariant fresh(search) && search.graph == graph && search.Valid() && search.visiting == {}
      invariant left <= graph.Keys && graph.Keys - left <= search.memo.Keys
      invariant AllDifferent(rules)
      invariant forall x :: x in rules <==> x.domain == domain && x.child in graph.Keys - left && Reach(EdgesOf(graph), x.child, x.parent)
      decreases left
    {
      var role :| role in left;
      var ancestors := search.Expand(role);
      if ancestors.Err? {
        return None;
      }
      rules := AppendRules(rules, role, ancestors.value, domain);
      left := left - {role};
    }
    search.AllExpandedMeansAcyclic();
    forall x: Rule | x.domain == domain && Reach(EdgesOf(graph), x.child, x.parent) ensures x in rules {
      ReachFromDefined(graph, x.child, x.parent);
    }
    rules := SortRules(rules, domain);
    return Some(rules);
  }

  class Registry {
    var rules: RuleTable

    constructor ()
      ensures rules == map[]
    {
      rules := map[];
    }

    /** The last definition of a role in a domain counts; a role without a name is skipped. */
    method BuildGraphs(defs: seq<RoleDefinition>) returns (graphs: map<string, Graph>)
      ensures graphs == GraphsOf(defs, |defs|)
      ensures DefinedBy(defs, graphs)
    {
      graphs := map[];
      for i := 0 to |defs|
        invariant graphs == GraphsOf(defs, i)
      {
        var def := defs[i];
        if def.name != "" {
          var domain := if def.tenantId == "" then WILDCARD else def.tenantId;
          var graph := if domain in graphs then graphs[domain] else map[];
          graphs := graphs[domain := graph[def.name := def.inheritedRoles]];
        }
      }
      GraphsAreDefinedBy(defs);
    }

    /** Rebuilds the registry; fails, changing nothing, exactly when some domain's inheritance has a cycle. */
    method Load(defs: seq<RoleDefinition>) returns (ok: bool)
      modifies this
      ensures ok <==> !AnyCycle(GraphsOf(defs, |defs|))
      ensures ok ==> IsRegistry(GraphsOf(defs, |defs|), rules)
      ensures !ok ==> rules == old(rules)
      ensures ok <==> NoCycle(defs)
      ensures ok ==> Lawful(defs, rules)
    {
      AnyCycleMeans(defs);
      hide Lawful, NoCycle, Inherits;
      hide RulesOf, Cyclic, EdgesOf, GraphsOf, DefinedBy;
      var graphs := BuildGraphs(defs);
      var newRules: RuleTable := map[];
      var left := graphs.Keys;
      while left != {}
        invariant rules == old(rules)
        invariant left <= graphs.Keys
        invariant forall d :: d in graphs.Keys - left ==> !Cyclic(EdgesOf(graphs[d]))
        invariant newRules.Keys <= graphs.Keys - left
        invariant forall d :: d in newRules ==> newRules[d] != [] && RulesOf(graphs[d], d, newRules[d])
        invariant forall d :: d in graphs.Keys - left && d !in newRules ==> RulesOf(graphs[d], d, [])
        decreases left
      {
        var domain :| domain in left;
        var expanded := ExpandDomain(domain, graphs[domain]);
        if expanded.None? {
          return false;
        }
        if expanded.value != [] {
          newRules := newRules[domain := expanded.value];
        }
        left := left - {domain};
      }
      rules := newRules;
      RegistryIsLawful(defs, rules);
      return true;
    }

    function Listed(domain: string): seq<Rule>
      reads this
    {
      if domain in rules then rules[domain] else []
    }

    /** System rules first, then the tenant's own. */
    method GetInheritanceRules(domain: string) returns (out: seq<Rule>)
      ensures out == Listed(WILDCARD) + if domain in {"", WILDCARD} then [] else Listed(domain)
      ensures forall r :: r in out <==>
        (WILDCARD in rules && r in rules[WILDCARD]) || (domain != "" && domain in rules && r in rules[domain])
    {
      out := [];
      if WILDCARD in rules {
        out := out + rules[WILDCARD];
      }
      if domain != "" && domain != WILDCARD && domain in rules {
        out := out + rules[domain];
      }
    }
  }
}
