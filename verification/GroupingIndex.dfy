/**
  The authorization manager's grouping index: the enforcer's set of g-rules is changed rule by
  rule on assignments and revocations, and rebuilt from the role registry and a cached list of
  assignments on reloads. The two ways must agree.
 */
module GroupingIndex {
  import opened Wrappers
  import opened RoleGraph
  import opened RoleRegistry

  /** A user-role assignment has the shape of a g-rule: user, role, tenant. */
  type Assignment = Rule

  predicate Named(a: Assignment) {
    a.child != "" && a.parent != ""
  }

  function InheritanceRules(table: RuleTable): set<Rule> {
    set d, r | d in table && r in table[d] :: r
  }

  /** The assignments a rebuild adds; those with an empty name are skipped. */
  function LiveRules(assignments: seq<Assignment>): set<Rule> {
    set a | a in assignments && Named(a)
  }

  /** The g-rules are the inheritances of the definitions and the named ones among the assignments. */
  ghost predicate Granted(defs: seq<RoleDefinition>, assignments: seq<Assignment>, gRules: set<Rule>) {
    forall r: Rule :: r in gRules <==>
      Inherits(defs, r.domain, r.child, r.parent) || (r in assignments && r.child != "" && r.parent != "")
  }

  lemma RebuiltIsGranted(defs: seq<RoleDefinition>, table: RuleTable, assignments: seq<Assignment>)
    requires Lawful(defs, table)
    ensures Granted(defs, assignments, InheritanceRules(table) + LiveRules(assignments))
  {
    hide Inherits;
    forall r: Rule ensures r in InheritanceRules(table) <==> Inherits(defs, r.domain, r.child, r.parent) {}
  }

  /** The list without the first entry equal to x. */
  function RemoveFirst(s: seq<Assignment>, x: Assignment): (r: seq<Assignment>)
    ensures |r| == |s| - if x in s then 1 else 0
  {
    if s == [] then [] else if s[0] == x then s[1..] else [s[0]] + RemoveFirst(s[1..], x)
  }

  lemma {:induction false} RemoveFirstAt(s: seq<Assignment>, x: Assignment, i: nat)
    requires i < |s| && s[i] == x && x !in s[..i]
    ensures RemoveFirst(s, x) == s[..i] + s[i + 1..]
  {
    if i > 0 {
      assert s[0] in s[..i];
      assert x !in s[1..][..i - 1] by { assert s[1..][..i - 1] == s[1..i]; }
      RemoveFirstAt(s[1..], x, i - 1);
      assert s[1..][..i - 1] + s[1..][i..] == s[1..i] + s[i + 1..];
    }
  }

  lemma {:induction false} RemoveFirstCounts(s: seq<Assignment>, x: Assignment)
    ensures multiset(RemoveFirst(s, x)) == multiset(s) - multiset{x}
  {
    if s != [] {
      assert s == [s[0]] + s[1..];
      if s[0] != x {
        RemoveFirstCounts(s[1..], x);
      }
    }
  }

  /** `append(a[:i], a[i+1:]...)` in place: the entries after i move down by one. */
  method CloseGap(a: array<Assignment>, n: nat, i: nat)
    requires i < n <= a.Length
    modifies a
    ensures forall k :: 0 <= k < i ==> a[k] == old(a[k])
    ensures forall k :: i <= k < n - 1 ==> a[k] == old(a[k + 1])
    ensures forall k :: n - 1 <= k < a.Length ==> a[k] == old(a[k])
  {
    for j := i to n - 1
      invariant forall k :: 0 <= k < i ==> a[k] == old(a[k])
      invariant forall k :: i <= k < j ==> a[k] == old(a[k + 1])
      invariant forall k :: j <= k < a.Length ==> a[k] == old(a[k])
    {
      a[j] := a[j + 1];
    }
  }

  /**
    `filterAssignment`, in the array the slice shares with whoever passed it in: the entries after
    the first match move down by one, and the slot they leave behind keeps its old entry.
   */
  method FilterAssignment(a: array<Assignment>, n: nat, x: Assignment) returns (n': nat)
    requires n <= a.Length
    modifies a
    ensures n' <= n && a[..n'] == RemoveFirst(old(a[..n]), x)
    ensures n' < n ==> a[n'..] == old(a[n'..])
    ensures n' == n ==> x !in a[..n] && a[..] == old(a[..])
    ensures n' < n ==> n' == n - 1 && exists i ::
      0 <= i < n && old(a[i]) == x && x !in old(a[..i]) && a[..i] == old(a[..i]) && a[i..n'] == old(a[i + 1..n])
  {
    hide RemoveFirst;
    var i := 0;
    while i < n && a[i] != x
      invariant 0 <= i <= n && x !in a[..i]
      invariant forall k :: 0 <= k < a.Length ==> a[k] == old(a[k])
    {
      i := i + 1;
    }
    if i == n {
      NothingToRemove(a[..n], x);
      return n;
    }
    ghost var before := a[..];
    assert before[..n] == a[..n] && before[..i] == a[..i] && before[..n][..i] == before[..i];
    RemoveFirstAt(before[..n], x, i);
    CloseGap(a, n, i);
    GapClosed(before, a[..], n, i);
    assert a[..n - 1] == a[..][..n - 1] && a[n - 1..] == a[..][n - 1..] && a[..i] == a[..][..i] && a[i..n - 1] == a[..][i..n - 1];
    return n - 1;
  }

  lemma GapClosed(was: seq<Assignment>, now: seq<Assignment>, n: nat, i: nat)
    requires i < n <= |was| == |now|
    requires forall k :: 0 <= k < i ==> now[k] == was[k]
    requires forall k :: i <= k < n - 1 ==> now[k] == was[k + 1]
    requires forall k :: n - 1 <= k < |now| ==> now[k] == was[k]
    ensures now[..n - 1] == was[..n][..i] + was[..n][i + 1..]
    ensures now[n - 1..] == was[n - 1..] && now[..i] == was[..i] && now[i..n - 1] == was[i + 1..n]
  {
  }

  /** `append(a[:n], x)`: in place while there is room, into a new array otherwise. */
  method Append(a: array<Assignment>, n: nat, x: Assignment) returns (b: array<Assignment>)
    requires n <= a.Length
    modifies a
    ensures b == a || fresh(b)
    ensures n < a.Length <==> b == a
    ensures n < b.Length && b[..n + 1] == old(a[..n]) + [x]
    ensures b == a ==> b[n + 1..] == old(a[n + 1..])
    ensures b != a ==> a[..] == old(a[..])
  {
    b := a;
    if n == a.Length {
      b := new Assignment[2 * n + 1];
      for i := 0 to n
        invariant a[..] == old(a[..])
        invariant forall k :: 0 <= k < i ==> b[k] == a[k]
      {
        b[i] := a[i];
      }
    }
    b[n] := x;
  }

  lemma NothingToRemove(s: seq<Assignment>, x: Assignment)
    requires x !in s
    ensures RemoveFirst(s, x) == s
  {
    if s != [] { NothingToRemove(s[1..], x); }
  }

  // ---------- the state of the manager ----------

  /** `defs` is None for the nil slice the manager starts with. */
  datatype Index = Index(table: RuleTable, defs: Option<seq<RoleDefinition>>, assignments: seq<Assignment>, gRules: set<Rule>)

  /** What a rebuild from the cached inputs puts into the enforcer. */
  function Rebuilt(ix: Index): set<Rule> {
    InheritanceRules(ix.table) + LiveRules(ix.assignments)
  }

  function DefsOf(defs: Option<seq<RoleDefinition>>): seq<RoleDefinition> {
    if defs.Some? then defs.value else []
  }

  function GraphsFrom(defs: Option<seq<RoleDefinition>>): map<string, Graph> {
    GraphsOf(DefsOf(defs), |DefsOf(defs)|)
  }

  /** The registry is that of the cached definitions. */
  ghost predicate Loaded(ix: Index) {
    IsRegistry(GraphsFrom(ix.defs), ix.table) && !AnyCycle(GraphsFrom(ix.defs))
  }

  /** The enforcer holds exactly what a rebuild would put there. */
  ghost predicate Agrees(ix: Index) {
    Loaded(ix) && ix.gRules == Rebuilt(ix)
  }

  /** That is to say: exactly what the cached definitions and assignments grant. */
  lemma AgreesMeansGranted(ix: Index)
    requires Loaded(ix)
    ensures Agrees(ix) <==> Granted(DefsOf(ix.defs), ix.assignments, ix.gRules)
  {
    RegistryIsLawful(DefsOf(ix.defs), ix.table);
    RebuiltIsGranted(DefsOf(ix.defs), ix.table, ix.assignments);
    hide Inherits, Lawful, IsRegistry, AnyCycle, InheritanceRules, LiveRules;
    if Granted(DefsOf(ix.defs), ix.assignments, ix.gRules) {
      forall r: Rule ensures r in ix.gRules <==> r in Rebuilt(ix) {}
    }
  }

  function AfterAssign(ix: Index, x: Assignment): Index {
    if x in ix.gRules then ix else ix.(gRules := ix.gRules + {x}, assignments := ix.assignments + [x])
  }

  function AfterRevoke(ix: Index, x: Assignment): Index {
    if x !in ix.gRules then ix else ix.(gRules := ix.gRules - {x}, assignments := RemoveFirst(ix.assignments, x))
  }

  function AfterRebuild(table: RuleTable, defs: Option<seq<RoleDefinition>>, assignments: seq<Assignment>): Index {
    Index(table, defs, assignments, InheritanceRules(table) + LiveRules(assignments))
  }

  /** An assignment keeps the agreement exactly when it changes nothing or user and role are non-empty. */
  lemma AssignAgreesIff(ix: Index, x: Assignment)
    requires Agrees(ix)
    ensures Agrees(AfterAssign(ix, x)) <==> x in ix.gRules || Named(x)
  {
    var after := AfterAssign(ix, x);
    if x !in ix.gRules {
      assert forall a :: a in after.assignments <==> a in ix.assignments || a == x;
      assert x in after.gRules;
      if Named(x) {
        assert LiveRules(after.assignments) == LiveRules(ix.assignments) + {x};
      }
    }
  }

  /**
    A revocation keeps the agreement exactly when it changes nothing, or the rule is not also an
    inheritance rule and is cached once only.
   */
  lemma RevokeAgreesIff(ix: Index, x: Assignment)
    requires Agrees(ix)
    ensures Agrees(AfterRevoke(ix, x)) <==>
      x !in ix.gRules || (x !in InheritanceRules(ix.table) && multiset(ix.assignments)[x] <= 1)
  {
    hide IsRegistry, AnyCycle, GraphsFrom, RemoveFirst, Named, InheritanceRules;
    var rest := RemoveFirst(ix.assignments, x);
    RestOf(ix.assignments, x);
    if x in ix.gRules {
      assert AfterRevoke(ix, x).gRules == ix.gRules - {x};
      if x !in InheritanceRules(ix.table) && multiset(ix.assignments)[x] <= 1 {
        assert LiveRules(rest) == LiveRules(ix.assignments) - {x};
      } else {
        assert x in InheritanceRules(ix.table) || (x in LiveRules(ix.assignments) && x in rest);
        assert x in InheritanceRules(ix.table) + LiveRules(rest);
      }
    }
  }

  /** What is left of a list: everything else, and x itself if it was there twice. */
  lemma RestOf(s: seq<Assignment>, x: Assignment)
    ensures forall a :: a in RemoveFirst(s, x) <==> if a == x then multiset(s)[x] > 1 else a in s
  {
    RemoveFirstCounts(s, x);
    forall a ensures a in RemoveFirst(s, x) <==> if a == x then multiset(s)[x] > 1 else a in s {
      assert a in RemoveFirst(s, x) <==> a in multiset(RemoveFirst(s, x));
      assert a in s <==> a in multiset(s);
    }
  }

  /** Loading the stored policy drops every g-rule; they come back from the cached inputs if definitions are cached. */
  function AfterReload(ix: Index): Index {
    ix.(gRules := if ix.defs.Some? then Rebuilt(ix) else {})
  }

  /** A reload keeps the agreement, and the g-rules, exactly when definitions are cached or there are no g-rules. */
  lemma ReloadAgreesIff(ix: Index)
    requires Agrees(ix)
    ensures Agrees(AfterReload(ix)) <==> ix.defs.Some? || ix.gRules == {}
    ensures AfterReload(ix) == ix <==> ix.defs.Some? || ix.gRules == {}
  {
  }

  /** A reload after a revocation brings the rule back exactly when it is inherited or cached more than once. */
  lemma RevokedRuleReturnsIff(ix: Index, x: Assignment)
    requires Agrees(ix) && ix.defs.Some? && x in ix.gRules
    ensures x in AfterReload(AfterRevoke(ix, x)).gRules <==> x in InheritanceRules(ix.table) || multiset(ix.assignments)[x] > 1
  {
    RestOf(ix.assignments, x);
  }

  // ---------- the manager ----------

  class AuthzManager {
    const registry: Registry
    var gRules: set<Rule>                     // the enforcer's grouping policy
    var lastDefs: Option<seq<RoleDefinition>>
    var cache: array<Assignment>              // the array behind the slice of cached assignments,
    var count: nat                            // and the slice's length

    predicate Valid()
      reads this
    {
      count <= cache.Length
    }

    function State(): Index
      reads this, registry, cache
      requires Valid()
    {
      Index(registry.rules, lastDefs, cache[..count], gRules)
    }

    constructor ()
      ensures fresh(registry) && fresh(cache) && Valid() && State() == FRESH && Agrees(State())
    {
      registry := new Registry();
      cache := new Assignment[0];
      gRules, lastDefs, count := {}, None, 0;
    }

    /** AddGroupingPolicy: false when the rule is already there. */
    method AddGroupingPolicy(r: Rule) returns (added: bool)
      modifies `gRules
      ensures added == (r !in old(gRules)) && gRules == old(gRules) + {r}
    {
      added := r !in gRules;
      gRules := gRules + {r};
    }

    method AddInheritanceRules()
      modifies `gRules
      ensures gRules == old(gRules) + InheritanceRules(registry.rules)
    {
      var left := registry.rules.Keys;
      while left != {}
        invariant left <= registry.rules.Keys
        invariant forall r :: r in gRules <==>
          (r in old(gRules) || exists d :: d in registry.rules && d !in left && r in registry.rules[d])
        decreases left
      {
        var domain :| domain in left;
        ghost var before := gRules;
        var rules := registry.rules[domain];
        for i := 0 to |rules|
          invariant forall r :: r in gRules <==> r in before || r in rules[..i]
        {
          var _ := AddGroupingPolicy(rules[i]);
        }
        assert rules[..|rules|] == rules;
        left := left - {domain};
      }
    }

    method AddAssignments(a: array<Assignment>, n: nat)
      requires n <= a.Length
      modifies `gRules
      ensures gRules == old(gRules) + LiveRules(a[..n])
    {
      for i := 0 to n
        invariant gRules == old(gRules) + LiveRules(a[..i])
      {
        assert a[..i + 1] == a[..i] + [a[i]];
        if a[i].child != "" && a[i].parent != "" {
          var _ := AddGroupingPolicy(a[i]);
        }
      }
    }

    /** Loads the definitions and replaces every g-rule; cyclic definitions change nothing. The caller's array is kept. */
    method RebuildGroupingRelations(defs: Option<seq<RoleDefinition>>, a: array<Assignment>, n: nat) returns (ok: bool)
      requires Valid() && n <= a.Length
      modifies this, registry
      ensures Valid() && ok == !AnyCycle(GraphsFrom(defs))
      ensures !ok ==> cache == old(cache) && State() == old(State())
      ensures ok ==> cache == a && State() == AfterRebuild(registry.rules, defs, a[..n]) && Agrees(State())
      ensures ok ==> Granted(DefsOf(defs), a[..n], gRules)
      ensures ok <==> NoCycle(DefsOf(defs))
    {
      hide Cyclic, EdgesOf, Granted, Lawful, NoCycle;
      ok := registry.Load(DefsOf(defs));
      if !ok {
        return;
      }
      lastDefs, cache, count := defs, a, n;
      gRules := {};
      AddInheritanceRules();
      AddAssignments(a, n);
      RebuiltIsGranted(DefsOf(defs), registry.rules, a[..n]);
    }

    method ReloadRoleRegistry(defs: Option<seq<RoleDefinition>>) returns (ok: bool)
      requires Valid()
      modifies this, registry
      ensures Valid() && cache == old(cache) && ok == !AnyCycle(GraphsFrom(defs))
      ensures !ok ==> State() == old(State())
      ensures ok ==> State() == AfterRebuild(registry.rules, defs, old(cache[..count])) && Agrees(State())
      ensures ok ==> lastDefs == defs && Granted(DefsOf(defs), cache[..count], gRules)
      ensures ok <==> NoCycle(DefsOf(defs))
    {
      hide Cyclic, EdgesOf, Granted, Lawful, NoCycle;
      ok := registry.Load(DefsOf(defs));
      if !ok {
        return;
      }
      lastDefs := defs;
      gRules := {};
      AddInheritanceRules();
      AddAssignments(cache, count);
      RebuiltIsGranted(DefsOf(defs), registry.rules, cache[..count]);
    }

    method AssignUserRole(userId: string, role: Role, tenantId: string) returns (added: bool)
      requires Valid()
      modifies this, cache
      ensures Valid() && (cache == old(cache) || fresh(cache))
      ensures added == (Rule(userId, role, tenantId) !in old(gRules))
      ensures State() == AfterAssign(old(State()), Rule(userId, role, tenantId))
      ensures gRules == old(gRules) + {Rule(userId, role, tenantId)}
      ensures cache[..count] == old(cache[..count]) + if added then [Rule(userId, role, tenantId)] else []
    {
      var a := Rule(userId, role, tenantId);
      added := AddGroupingPolicy(a);
      if added {
        cache := Append(cache, count, a);
        count := count + 1;
      } else {
        assert gRules == old(gRules);
      }
    }

    method RevokeUserRole(userId: string, role: Role, tenantId: string) returns (removed: bool)
      requires Valid()
      modifies this, cache
      ensures Valid() && cache == old(cache) && cache[count..] == old(cache[..])[count..]
      ensures removed == (Rule(userId, role, tenantId) in old(gRules))
      ensures State() == AfterRevoke(old(State()), Rule(userId, role, tenantId))
      ensures gRules == old(gRules) - {Rule(userId, role, tenantId)}
      ensures !removed ==> cache[..] == old(cache[..])
      ensures multiset(cache[..count]) == multiset(old(cache[..count])) - if removed then multiset{Rule(userId, role, tenantId)} else multiset{}
    {
      var a := Rule(userId, role, tenantId);
      removed := a in gRules;
      if removed {
        RemoveFirstCounts(cache[..count], a);
        gRules := gRules - {a};
        count := FilterAssignment(cache, count, a);
      }
    }

    /**
      Loads the stored policy and rebuilds the g-rules if definitions are cached. From a registry that is
      that of the cached definitions, as every operation leaves it, this always succeeds when the load does.
     */
    method ReloadPolicy(loadFails: bool) returns (ok: bool)
      requires Valid()
      modifies this, registry
      ensures Valid() && cache == old(cache)
      ensures ok == (!loadFails && (old(lastDefs).Some? ==> !AnyCycle(GraphsFrom(old(lastDefs)))))
      ensures loadFails ==> State() == old(State())
      ensures !loadFails && (old(lastDefs).None? || !ok) ==> State() == old(State()).(gRules := {})
      ensures ok && old(lastDefs).Some? ==>
        State() == AfterRebuild(registry.rules, old(lastDefs), old(cache[..count])) && Agrees(State())
      ensures old(Loaded(State())) && !loadFails ==> ok && State() == AfterReload(old(State()))
      ensures !loadFails && old(lastDefs).None? ==> gRules == {}
      ensures ok && old(lastDefs).Some? ==> Granted(old(lastDefs).value, cache[..count], gRules)
      ensures cache[..count] == old(cache[..count])
    {
      hide Granted, NoCycle;
      if loadFails {
        return false;
      }
      gRules := {};
      ok := true;
      if lastDefs.Some? {
        ghost var table := registry.rules;
        ok := RebuildGroupingRelations(lastDefs, cache, count);
        if IsRegistry(GraphsFrom(lastDefs), table) && ok {
          RegistryUnique(GraphsFrom(lastDefs), table, registry.rules);
        }
      }
    }
  }

  // ---------- sequences of operations ----------

  const FRESH := Index(map[], None, [], {})

  /** `table`: what loading the definitions gives. */
  datatype Op =
    | Assign(x: Assignment)
    | Revoke(x: Assignment)
    | Rebuild(defs: Option<seq<RoleDefinition>>, table: RuleTable, assignments: seq<Assignment>)
    | ReloadRegistry(defs: Option<seq<RoleDefinition>>, table: RuleTable)
    | Reload

  ghost predicate Possible(op: Op) {
    (op.Rebuild? || op.ReloadRegistry?) && !AnyCycle(GraphsFrom(op.defs)) ==> IsRegistry(GraphsFrom(op.defs), op.table)
  }

  /** A rebuild from cyclic definitions fails and changes nothing. */
  ghost function Do(ix: Index, op: Op): Index {
    match op
    case Assign(x) => AfterAssign(ix, x)
    case Revoke(x) => AfterRevoke(ix, x)
    case Rebuild(defs, table, assignments) =>
      if AnyCycle(GraphsFrom(defs)) then ix else AfterRebuild(table, defs, assignments)
    case ReloadRegistry(defs, table) =>
      if AnyCycle(GraphsFrom(defs)) then ix else AfterRebuild(table, defs, ix.assignments)
    case Reload => AfterReload(ix)
  }

  ghost function DoAll(ix: Index, ops: seq<Op>): Index {
    if ops == [] then ix else Do(DoAll(ix, ops[..|ops| - 1]), ops[|ops| - 1])
  }

  /** The operation leaves an index that agrees agreeing; a caller can check this beforehand. */
  predicate Safe(ix: Index, op: Op) {
    match op
    case Assign(x) => x in ix.gRules || Named(x)
    case Revoke(x) => x !in ix.gRules || (x !in InheritanceRules(ix.table) && multiset(ix.assignments)[x] <= 1)
    case Reload => ix.defs.Some? || ix.gRules == {}
    case _ => true
  }

  lemma StepAgreesIff(ix: Index, op: Op)
    requires Agrees(ix) && Possible(op)
    ensures Agrees(Do(ix, op)) <==> Safe(ix, op)
  {
    match op
    case Assign(x) => AssignAgreesIff(ix, x);
    case Revoke(x) => RevokeAgreesIff(ix, x);
    case Reload => ReloadAgreesIff(ix);
    case _ =>
  }

  ghost predicate AgreesThroughout(ix: Index, ops: seq<Op>) {
    forall k :: 0 <= k <= |ops| ==> Agrees(DoAll(ix, ops[..k]))
  }

  ghost predicate SafeThroughout(ix: Index, ops: seq<Op>) {
    forall k :: 0 <= k < |ops| ==> Safe(DoAll(ix, ops[..k]), ops[k])
  }

  /** Of any sequence of operations: the index agrees throughout if and only if every operation is safe where it is done. */
  lemma {:induction false} AgreesThroughoutIff(ix: Index, ops: seq<Op>)
    requires Agrees(ix) && forall op :: op in ops ==> Possible(op)
    ensures AgreesThroughout(ix, ops) <==> SafeThroughout(ix, ops)
  {
    hide Agrees, Safe, Do, Possible;
    if ops != [] {
      var n := |ops| - 1;
      var front := ops[..n];
      AgreesThroughoutIff(ix, front);
      assert forall k :: 0 <= k <= n ==> front[..k] == ops[..k];
      assert ops[..n + 1] == ops;
      if AgreesThroughout(ix, front) {
        assert Agrees(DoAll(ix, front[..n]));
        StepAgreesIff(DoAll(ix, front), ops[n]);
        LastStep(ix, ops);
      } else {
        var k :| 0 <= k <= n && !Agrees(DoAll(ix, front[..k]));
        assert !Agrees(DoAll(ix, ops[..k]));
        var j :| 0 <= j < n && !Safe(DoAll(ix, front[..j]), front[j]);
        assert !Safe(DoAll(ix, ops[..j]), ops[j]);
      }
    } else {
      assert ops[..0] == [];
    }
  }

  lemma LastStep(ix: Index, ops: seq<Op>)
    requires ops != []
    ensures var n := |ops| - 1;
      && (AgreesThroughout(ix, ops) <==> AgreesThroughout(ix, ops[..n]) && Agrees(Do(DoAll(ix, ops[..n]), ops[n])))
      && (SafeThroughout(ix, ops) <==> SafeThroughout(ix, ops[..n]) && Safe(DoAll(ix, ops[..n]), ops[n]))
  {
    hide Agrees, Safe, Do;
    var n := |ops| - 1;
    assert forall k :: 0 <= k <= n ==> ops[..n][..k] == ops[..k];
    assert ops[..n + 1] == ops;
  }

  // ---------- a discipline that is always safe ----------

  /** User ids and role names are told apart by `isUser`; assignments are named and listed once. */
  ghost predicate Disciplined(op: Op, isUser: string -> bool) {
    && Possible(op)
    && match op
       case Assign(x) => Named(x) && isUser(x.child)
       case Revoke(x) => isUser(x.child)
       case Rebuild(defs, _, assignments) =>
         && (forall d :: d in DefsOf(defs) ==> !isUser(d.name))
         && (forall a :: multiset(assignments)[a] <= 1)
       case ReloadRegistry(defs, _) => forall d :: d in DefsOf(defs) ==> !isUser(d.name)
       case Reload => true
  }

  ghost predicate NoUserInherits(table: RuleTable, isUser: string -> bool) {
    forall r :: r in InheritanceRules(table) ==> !isUser(r.child)
  }

  lemma {:induction false} UsersDoNotInherit(defs: seq<RoleDefinition>, table: RuleTable, isUser: string -> bool)
    requires IsRegistry(GraphsOf(defs, |defs|), table)
    requires forall d :: d in defs ==> !isUser(d.name)
    ensures NoUserInherits(table, isUser)
  {
    forall r | r in InheritanceRules(table) ensures !isUser(r.child) {
      var d :| d in table && r in table[d];
      ReachFromDefined(GraphsOf(defs, |defs|)[d], r.child, r.parent);
      LastDefinitionWins(defs, |defs|, d, r.child);
      assert exists i: nat :: IsLast(defs, |defs|, i, d, r.child);
    }
  }

  /** Agreement, every cached assignment once, and no user id on the child side of an inheritance rule. */
  ghost predicate Healthy(ix: Index, isUser: string -> bool) {
    && Agrees(ix)
    && NoUserInherits(ix.table, isUser)
    && (forall a :: multiset(ix.assignments)[a] <= 1)
  }

  lemma HealthyAssign(ix: Index, x: Assignment, isUser: string -> bool)
    requires Healthy(ix, isUser) && Named(x)
    ensures Healthy(AfterAssign(ix, x), isUser)
  {
    AssignAgreesIff(ix, x);
    if x !in ix.gRules {
      assert x !in LiveRules(ix.assignments);
      assert x !in ix.assignments;
      assert multiset(ix.assignments + [x]) == multiset(ix.assignments) + multiset{x};
    }
  }

  lemma HealthyStep(ix: Index, op: Op, isUser: string -> bool)
    requires Healthy(ix, isUser) && Disciplined(op, isUser) && (op.Reload? ==> Safe(ix, op))
    ensures Healthy(Do(ix, op), isUser)
  {
    StepAgreesIff(ix, op);
    match op
    case Assign(x) =>
      HealthyAssign(ix, x, isUser);
    case Revoke(x) =>
      RemoveFirstCounts(ix.assignments, x);
    case Reload =>
      ReloadAgreesIff(ix);
    case _ =>
      if !AnyCycle(GraphsFrom(op.defs)) {
        UsersDoNotInherit(DefsOf(op.defs), op.table, isUser);
      }
  }

  /** Definitions are cached from the start and never replaced by none. */
  ghost predicate DefinitionsCached(ix: Index, ops: seq<Op>) {
    ix.defs.Some? && forall op :: op in ops && (op.Rebuild? || op.ReloadRegistry?) ==> op.defs.Some?
  }

  /**
    Operations one at a time, users told apart from roles, no nameless assignment, none listed twice, and
    definitions cached whenever the policy is reloaded: the enforcer always holds exactly the inheritance rules
    and the cached assignments, and where definitions are cached a reload changes nothing.
   */
  lemma {:induction false} SequencesAgree(ix: Index, ops: seq<Op>, isUser: string -> bool)
    requires Healthy(ix, isUser)
    requires forall op :: op in ops ==> Disciplined(op, isUser)
    requires DefinitionsCached(ix, ops) || Reload !in ops
    ensures var last := DoAll(ix, ops);
      && Healthy(last, isUser)
      && last.gRules == Rebuilt(last) && Granted(DefsOf(last.defs), last.assignments, last.gRules)
      && (DefinitionsCached(ix, ops) ==> last.defs.Some?)
      && (last.defs.Some? ==> Do(last, Reload) == last)
    decreases |ops|
  {
    hide Disciplined, Healthy, Agrees;
    if ops != [] {
      var front, op := ops[..|ops| - 1], ops[|ops| - 1];
      SequencesAgree(ix, front, isUser);
      HealthyStep(DoAll(ix, front), op, isUser);
    }
    ReloadOfHealthy(DoAll(ix, ops), isUser);
  }

  lemma ReloadOfHealthy(ix: Index, isUser: string -> bool)
    requires Healthy(ix, isUser)
    ensures ix.gRules == Rebuilt(ix) && Granted(DefsOf(ix.defs), ix.assignments, ix.gRules)
    ensures ix.defs.Some? ==> Do(ix, Reload) == ix
  {
    ReloadAgreesIff(ix);
    AgreesMeansGranted(ix);
  }

  // ---------- how agreement is lost ----------

  /** An assignment listed twice, rebuilt, revoked once: the cache still has it. */
  lemma DuplicateBreaks(x: Assignment)
    requires Named(x)
    ensures var rebuild := Rebuild(Some([]), map[], [x, x]);
      Possible(rebuild) && Agrees(Do(FRESH, rebuild)) && !Agrees(Do(Do(FRESH, rebuild), Revoke(x)))
  {
    var rebuild := Rebuild(Some([]), map[], [x, x]);
    var ix := Do(FRESH, rebuild);
    assert x in ix.assignments;
    assert multiset(ix.assignments)[x] == 2;
    StepAgreesIff(FRESH, rebuild);
    StepAgreesIff(ix, Revoke(x));
  }

  const ADMIN_IS_USER := Rule("admin", "user", WILDCARD)

  lemma OneEdge(a: Role, b: Role)
    ensures Reach({("admin", "user")}, a, b) <==> a == "admin" && b == "user"
  {
    var e: Edges := {("admin", "user")};
    if Reach(e, a, b) {
      var c := ReachFirstEdge(e, a, b);
      if c != b {
        var d := ReachFirstEdge(e, c, b);
      }
    } else if a == "admin" && b == "user" {
      EdgeReaches(e, a, b);
    }
  }

  lemma AdminIsUserLoads()
    ensures Possible(ReloadRegistry(Some([RoleDefinition("", "admin", ["user"])]), map[WILDCARD := [ADMIN_IS_USER]]))
    ensures !AnyCycle(GraphsOf([RoleDefinition("", "admin", ["user"])], 1))
  {
    var graph: Graph := map["admin" := ["user"]];
    assert GraphsOf([RoleDefinition("", "admin", ["user"])], 1) == map[WILDCARD := graph] by {
      assert GraphsOf([RoleDefinition("", "admin", ["user"])], 0) == map[];
    }
    assert EdgesOf(graph) == {("admin", "user")};
    forall a, b ensures Reach(EdgesOf(graph), a, b) <==> a == "admin" && b == "user" { OneEdge(a, b); }
  }

  /** Revoking, as if it were an assignment, a rule that the definitions grant: the registry still has it. */
  lemma InheritedBreaks()
    ensures var reload := ReloadRegistry(Some([RoleDefinition("", "admin", ["user"])]), map[WILDCARD := [ADMIN_IS_USER]]);
      Possible(reload) && Agrees(Do(FRESH, reload)) && !Agrees(Do(Do(FRESH, reload), Revoke(ADMIN_IS_USER)))
  {
    var reload := ReloadRegistry(Some([RoleDefinition("", "admin", ["user"])]), map[WILDCARD := [ADMIN_IS_USER]]);
    AdminIsUserLoads();
    StepAgreesIff(FRESH, reload);
    var ix := Do(FRESH, reload);
    assert ADMIN_IS_USER in ix.table[WILDCARD];
    StepAgreesIff(ix, Revoke(ADMIN_IS_USER));
  }

  /** An assignment without a user: the enforcer gets it, a rebuild skips it. */
  lemma NamelessBreaks()
    ensures Agrees(FRESH) && !Agrees(Do(FRESH, Assign(Rule("", "user", "tenant"))))
  {
    StepAgreesIff(FRESH, Assign(Rule("", "user", "tenant")));
  }

  /** A reload before any definitions were cached: the assignment made is gone from the enforcer. */
  lemma ReloadWithoutDefinitionsBreaks(x: Assignment)
    requires Named(x)
    ensures var ix := Do(FRESH, Assign(x));
      Agrees(ix) && x in ix.gRules && Do(ix, Reload).gRules == {} && !Agrees(Do(ix, Reload))
  {
    StepAgreesIff(FRESH, Assign(x));
    StepAgreesIff(Do(FRESH, Assign(x)), Reload);
  }
}
