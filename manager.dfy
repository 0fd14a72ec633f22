/**
 * The database-backed manager (src/DbManager.php): the four tables as fields that its
 * methods update statement by statement, the store's cascade capability, and a count
 * of cache invalidations. The current time is a parameter.
 */
module Manager {
  import opened Types
  import opened Codec
  import opened Graph

  /** `time()` for a timestamp that the caller left null. */
  function StampIfNull(t: Option<int>, now: int): (r: Option<int>)
    ensures r.Some?
    ensures t.Some? ==> r == t
    ensures t.None? ==> r == Some(now)
  {
    if t.None? then Some(now) else t
  }

  /** The row that addItem inserts for an item whose timestamps are set. */
  function InsertedRow(item: Item): ItemRow
    requires item.createdAt.Some? && item.updatedAt.Some?
  {
    ItemRow(item.itemType, item.description, item.ruleName, DataColumn(item.data),
            item.createdAt.value, item.updatedAt.value)
  }

  /**
   * The row that updateItem writes over `row`: the new description, rule name, data and
   * update time; the type and creation time are not part of the update.
   */
  function UpdatedRow(row: ItemRow, item: Item, now: int): (r: ItemRow)
    ensures r.itemType == row.itemType && r.createdAt == row.createdAt
    ensures r.description == item.description && r.ruleName == item.ruleName
    ensures r.data == DataColumn(item.data) && r.updatedAt == now
  {
    row.(description := item.description, ruleName := item.ruleName,
         data := DataColumn(item.data), updatedAt := now)
  }

  /** `UPDATE assignment SET item_name = to WHERE item_name = from`. */
  function RewriteAssignments(rows: seq<AssignmentRow>, from: string, to: string): (r: seq<AssignmentRow>)
    ensures |r| == |rows|
    ensures forall i :: 0 <= i < |rows| ==>
              r[i] == rows[i].(itemName := Renamed(rows[i].itemName, from, to))
  {
    seq(|rows|, i requires 0 <= i < |rows| => rows[i].(itemName := Renamed(rows[i].itemName, from, to)))
  }

  /** `UPDATE item SET rule_name = to WHERE rule_name = from`. */
  function RewriteRuleNames(items: map<string, ItemRow>, from: string, to: string): (r: map<string, ItemRow>)
    ensures r.Keys == items.Keys
    ensures forall k :: k in items && items[k].ruleName == Some(from) ==> r[k] == items[k].(ruleName := Some(to))
    ensures forall k :: k in items && items[k].ruleName != Some(from) ==> r[k] == items[k]
  {
    map k | k in items :: if items[k].ruleName == Some(from) then items[k].(ruleName := Some(to)) else items[k]
  }

  /** `UPDATE item SET rule_name = NULL`. */
  function ClearRuleNames(items: map<string, ItemRow>): (r: map<string, ItemRow>)
    ensures r.Keys == items.Keys
    ensures forall k :: k in items ==> r[k] == items[k].(ruleName := None)
  {
    map k | k in items :: items[k].(ruleName := None)
  }

  /** The composite primary key of the assignment table is taken. */
  predicate HasAssignment(rows: seq<AssignmentRow>, userId: string, itemName: string)
  {
    exists i :: 0 <= i < |rows| && rows[i].userId == userId && rows[i].itemName == itemName
  }

  /** Every edge endpoint and every assigned item name is a row of the item table. */
  ghost predicate ReferencesResolve(items: map<string, ItemRow>, es: seq<Edge>, rows: seq<AssignmentRow>)
  {
    && (forall e :: e in es ==> e.parent in items && e.child in items)
    && (forall a :: a in rows ==> a.itemName in items)
  }

  /** Every rule name held by an item is a row of the rule table. */
  ghost predicate RuleNamesResolve(items: map<string, ItemRow>, rules: map<string, RuleRow>)
  {
    forall k :: k in items && items[k].ruleName.Some? ==> items[k].ruleName.value in rules
  }

  /**
   * A successful manual rename keeps every reference resolvable: the old key leaves the
   * item table, the new one arrives, and every edge and assignment follows.
   */
  lemma RenameKeepsReferences(items: map<string, ItemRow>, es: seq<Edge>, rows: seq<AssignmentRow>,
                              from: string, to: string, row: ItemRow)
    requires ReferencesResolve(items, es, rows) && from in items && to !in items
    ensures ReferencesResolve((items - {from})[to := row], RenameInEdges(es, from, to), RewriteAssignments(rows, from, to))
  {
    var items' := (items - {from})[to := row];
    var es' := RenameInEdges(es, from, to);
    var rows' := RewriteAssignments(rows, from, to);
    forall e | e in es' ensures e.parent in items' && e.child in items' {
      var i :| 0 <= i < |es'| && es'[i] == e;
      assert es[i] in es;
    }
    forall a | a in rows' ensures a.itemName in items' {
      var i :| 0 <= i < |rows'| && rows'[i] == a;
      assert rows[i] in rows;
    }
  }

  /** With every reference resolvable, an unused item name is not a node of the graph. */
  lemma UnusedNameIsNoNode(items: map<string, ItemRow>, es: seq<Edge>, rows: seq<AssignmentRow>, n: string)
    requires ReferencesResolve(items, es, rows) && n !in items
    ensures n !in Nodes(es)
  {
  }

  /** A rewrite of the assignments for a name no row holds changes nothing. */
  lemma RewriteOfUnused(rows: seq<AssignmentRow>, from: string, to: string)
    requires forall a :: a in rows ==> a.itemName != from
    ensures RewriteAssignments(rows, from, to) == rows
  {
    var r := RewriteAssignments(rows, from, to);
    forall i | 0 <= i < |rows| ensures r[i] == rows[i] {
      assert rows[i] in rows;
    }
  }

  /**
   * What a completed manual rename of `from` to an unused `to` promises: every reference
   * still resolves, and on an acyclic table the graph stays acyclic and `to` has exactly
   * the parents and children `from` had.
   */
  lemma ManualRename(items: map<string, ItemRow>, es: seq<Edge>, rows: seq<AssignmentRow>,
                     from: string, to: string, row: ItemRow)
    requires ReferencesResolve(items, es, rows) && from in items && to !in items && from != to
    ensures ReferencesResolve((items - {from})[to := row], RenameInEdges(es, from, to), RewriteAssignments(rows, from, to))
    ensures Acyclic(es) ==> Acyclic(RenameInEdges(es, from, to))
    ensures Acyclic(es) ==>
              ParentNames(RenameInEdges(es, from, to), (items - {from})[to := row], to) == ParentNames(es, items, from)
              && ChildNames(RenameInEdges(es, from, to), (items - {from})[to := row], to) == ChildNames(es, items, from)
  {
    RenameKeepsReferences(items, es, rows, from, to, row);
    UnusedNameIsNoNode(items, es, rows, to);
    if Acyclic(es) {
      RenamePreservesAcyclic(es, from, to);
      AcyclicNoSelfEdge(es, from);
      RenameKeepsParentNames(es, items, from, to, row);
      RenameKeepsChildNames(es, items, from, to, row);
    }
  }

  class DbManager {
    var items: map<string, ItemRow>
    var edges: seq<Edge>
    var assignments: seq<AssignmentRow>
    var rules: map<string, RuleRow>
    /** Whether the store itself carries a primary-key rename to the referencing rows. */
    const supportsCascade: bool
    /** How many times invalidateCache has been called. */
    var invalidations: nat

    constructor (supportsCascade: bool)
      ensures this.supportsCascade == supportsCascade
      ensures items == map[] && edges == [] && assignments == [] && rules == map[]
      ensures invalidations == 0
    {
      this.supportsCascade := supportsCascade;
      items, edges, assignments, rules := map[], [], [], map[];
      invalidations := 0;
    }

    /**
     * addItem: stamps the null timestamps with `now`, then inserts one row mirroring the
     * item (a null payload stays NULL) and invalidates the cache. An existing name is a
     * primary-key violation and leaves the table as it was.
     */
    method AddItem(item: Item, now: int) returns (stamped: Item, status: Status)
      modifies this`items, this`invalidations
      ensures stamped == item.(createdAt := StampIfNull(item.createdAt, now),
                               updatedAt := StampIfNull(item.updatedAt, now))
      ensures status == (if item.name in old(items) then Failed(IntegrityViolation) else Done)
      ensures status.Done? ==> items == old(items)[item.name := InsertedRow(stamped)]
                               && invalidations == old(invalidations) + 1
      ensures status.Failed? ==> items == old(items) && invalidations == old(invalidations)
    {
      stamped := item;
      if stamped.createdAt.None? {
        stamped := stamped.(createdAt := Some(now));
      }
      if stamped.updatedAt.None? {
        stamped := stamped.(updatedAt := Some(now));
      }
      if stamped.name in items {
        return stamped, Failed(IntegrityViolation);
      }
      items := items[stamped.name := InsertedRow(stamped)];
      invalidations := invalidations + 1;
      status := Done;
    }

    /**
     * updateItem: on a rename without store cascade, first rewrites the parent and child
     * columns of the edges and the item name of the assignments; then writes the row
     * keyed `oldName` with the new name, description, rule name, data and `updatedAt =
     * now`, and invalidates the cache. No row keyed `oldName` means the update matches
     * nothing. A new name that is already taken is a primary-key violation raised by the
     * last statement, after the rewrites have been applied.
     */
    method UpdateItem(oldName: string, item: Item, now: int) returns (stamped: Item, status: Status)
      modifies this`items, this`edges, this`assignments, this`invalidations
      ensures stamped == item.(updatedAt := Some(now))
      ensures edges == (if item.name != oldName && !supportsCascade
                        then RenameInEdges(old(edges), oldName, item.name) else old(edges))
      ensures assignments == (if item.name != oldName && !supportsCascade
                              then RewriteAssignments(old(assignments), oldName, item.name) else old(assignments))
      ensures status == (if oldName in old(items) && item.name != oldName && item.name in old(items)
                         then Failed(IntegrityViolation) else Done)
      ensures status.Done? ==> invalidations == old(invalidations) + 1
                               && items == (if oldName in old(items)
                                            then (old(items) - {oldName})[item.name := UpdatedRow(old(items)[oldName], item, now)]
                                            else old(items))
      ensures status.Failed? ==> items == old(items) && invalidations == old(invalidations)
      // what the manual rewrite promises
      ensures item.name != oldName && !supportsCascade ==>
                (forall e :: e in edges ==> e.parent != oldName && e.child != oldName)
                && (forall a :: a in assignments ==> a.itemName != oldName)
      ensures (status.Done? && oldName in old(items) && !supportsCascade
               && old(ReferencesResolve(items, edges, assignments))) ==> ReferencesResolve(items, edges, assignments)
      ensures (status.Done? && oldName in old(items) && !supportsCascade
               && old(ReferencesResolve(items, edges, assignments)) && Acyclic(old(edges))) ==> Acyclic(edges)
      ensures (status.Done? && oldName in old(items) && item.name != oldName && !supportsCascade
               && old(ReferencesResolve(items, edges, assignments)) && Acyclic(old(edges))) ==>
                ParentNames(edges, items, item.name) == ParentNames(old(edges), old(items), oldName)
                && ChildNames(edges, items, item.name) == ChildNames(old(edges), old(items), oldName)
    {
      if item.name != oldName && !supportsCascade {
        edges := RewriteParents(edges, oldName, item.name);
        edges := RewriteChildren(edges, oldName, item.name);
        assignments := RewriteAssignments(assignments, oldName, item.name);
        RenameInEdgesExactly(old(edges), oldName, item.name);
      }
      stamped := item.(updatedAt := Some(now));
      if oldName in items {
        if stamped.name != oldName && stamped.name in items {
          return stamped, Failed(IntegrityViolation);
        }
        items := (items - {oldName})[stamped.name := UpdatedRow(items[oldName], stamped, now)];
      }
      invalidations := invalidations + 1;
      status := Done;
      if oldName in old(items) && !supportsCascade && old(ReferencesResolve(items, edges, assignments)) {
        if item.name != oldName {
          ManualRename(old(items), old(edges), old(assignments), oldName, item.name,
                       UpdatedRow(old(items)[oldName], item, now));
        }
      }
    }

    /**
     * updateItem with the key clash checked before anything is written: a rename to a
     * taken name changes nothing, and every other call does what updateItem does. On a
     * store without cascade, every path keeps references resolvable and the graph acyclic.
     */
    method UpdateItemChecked(oldName: string, item: Item, now: int) returns (stamped: Item, status: Status)
      modifies this`items, this`edges, this`assignments, this`invalidations
      ensures stamped == item.(updatedAt := Some(now))
      ensures status == (if oldName in old(items) && item.name != oldName && item.name in old(items)
                         then Failed(IntegrityViolation) else Done)
      ensures status.Failed? ==> items == old(items) && edges == old(edges)
                                 && assignments == old(assignments) && invalidations == old(invalidations)
      ensures status.Done? ==>
                && edges == (if item.name != oldName && !supportsCascade
                             then RenameInEdges(old(edges), oldName, item.name) else old(edges))
                && assignments == (if item.name != oldName && !supportsCascade
                                   then RewriteAssignments(old(assignments), oldName, item.name) else old(assignments))
                && items == (if oldName in old(items)
                             then (old(items) - {oldName})[item.name := UpdatedRow(old(items)[oldName], item, now)]
                             else old(items))
                && invalidations == old(invalidations) + 1
      ensures !supportsCascade && old(ReferencesResolve(items, edges, assignments)) ==>
                ReferencesResolve(items, edges, assignments)
      ensures !supportsCascade && old(ReferencesResolve(items, edges, assignments)) && Acyclic(old(edges)) ==>
                Acyclic(edges)
    {
      stamped := item.(updatedAt := Some(now));
      if oldName in items && stamped.name != oldName && stamped.name in items {
        return stamped, Failed(IntegrityViolation);
      }
      if !supportsCascade && ReferencesResolve(items, edges, assignments) && item.name != oldName {
        if oldName in items {
          ManualRename(items, edges, assignments, oldName, item.name, UpdatedRow(items[oldName], stamped, now));
        } else {
          UnusedNameIsNoNode(items, edges, assignments, oldName);
          RenameOfNonNode(edges, oldName, item.name);
          RewriteOfUnused(assignments, oldName, item.name);
        }
      }
      if item.name != oldName && !supportsCascade {
        edges := RewriteParents(edges, oldName, item.name);
        edges := RewriteChildren(edges, oldName, item.name);
        assignments := RewriteAssignments(assignments, oldName, item.name);
      }
      if oldName in items {
        items := (items - {oldName})[stamped.name := UpdatedRow(items[oldName], stamped, now)];
      }
      invalidations := invalidations + 1;
      status := Done;
    }

    /**
     * addRule: stamps the null timestamps, inserts the whole serialized rule and
     * invalidates the cache; an existing name is a primary-key violation.
     */
    method AddRule(rule: Rule, now: int) returns (stamped: Rule, status: Status)
      modifies this`rules, this`invalidations
      ensures stamped == rule.(createdAt := StampIfNull(rule.createdAt, now),
                               updatedAt := StampIfNull(rule.updatedAt, now))
      ensures status == (if rule.name in old(rules) then Failed(IntegrityViolation) else Done)
      ensures status.Done? ==> invalidations == old(invalidations) + 1
                               && rules == old(rules)[rule.name := RuleRow(Serialize(RuleObject(stamped)),
                                                                           stamped.createdAt.value, stamped.updatedAt.value)]
      ensures status.Failed? ==> rules == old(rules) && invalidations == old(invalidations)
    {
      stamped := rule;
      if stamped.createdAt.None? {
        stamped := stamped.(createdAt := Some(now));
      }
      if stamped.updatedAt.None? {
        stamped := stamped.(updatedAt := Some(now));
      }
      if stamped.name in rules {
        return stamped, Failed(IntegrityViolation);
      }
      rules := rules[stamped.name := RuleRow(Serialize(RuleObject(stamped)), stamped.createdAt.value, stamped.updatedAt.value)];
      invalidations := invalidations + 1;
      status := Done;
    }

    /**
     * updateRule: on a rename without store cascade, first points every item that used
     * `oldName` at the new name; then writes the rule row keyed `oldName` with the new
     * name, the serialized rule and `updatedAt = now`, and invalidates the cache.
     */
    method UpdateRule(oldName: string, rule: Rule, now: int) returns (stamped: Rule, status: Status)
      modifies this`items, this`rules, this`invalidations
      ensures stamped == rule.(updatedAt := Some(now))
      ensures items == (if rule.name != oldName && !supportsCascade
                        then RewriteRuleNames(old(items), oldName, rule.name) else old(items))
      ensures status == (if oldName in old(rules) && rule.name != oldName && rule.name in old(rules)
                         then Failed(IntegrityViolation) else Done)
      ensures status.Done? ==> invalidations == old(invalidations) + 1
                               && rules == (if oldName in old(rules)
                                            then (old(rules) - {oldName})[rule.name := RuleRow(Serialize(RuleObject(stamped)),
                                                                                               old(rules)[oldName].createdAt, now)]
                                            else old(rules))
      ensures status.Failed? ==> rules == old(rules) && invalidations == old(invalidations)
      ensures rule.name != oldName && !supportsCascade ==>
                forall k :: k in items ==> items[k].ruleName != Some(oldName)
    {
      if rule.name != oldName && !supportsCascade {
        items := RewriteRuleNames(items, oldName, rule.name);
      }
      stamped := rule.(updatedAt := Some(now));
      if oldName in rules {
        if stamped.name != oldName && stamped.name in rules {
          return stamped, Failed(IntegrityViolation);
        }
        rules := (rules - {oldName})[stamped.name := RuleRow(Serialize(RuleObject(stamped)), rules[oldName].createdAt, now)];
      }
      invalidations := invalidations + 1;
      status := Done;
    }

    /**
     * The loop check that addChild inherits. The base-class method is not part of this
     * model; this worklist search stands in for it and answers exactly whether `parent`
     * is reachable from `child`, `child` itself included.
     */
    method DetectLoop(parent: string, child: string) returns (found: bool)
      ensures found <==> Reaches(edges, child, parent)
    {
      var visited: set<string> := {child};
      var work: set<string> := {child};
      ghost var universe := Nodes(edges) + {child};
      ReachesRefl(edges, child);
      while work != {}
        invariant work <= visited <= universe
        invariant child in visited
        invariant forall v :: v in visited ==> Reaches(edges, child, v)
        invariant forall e :: e in edges && e.parent in visited - work ==> e.child in visited
        decreases universe - visited, work
      {
        var x :| x in work;
        var next := set e | e in edges && e.parent == x :: e.child;
        var unseen := next - visited;
        forall y | y in unseen
          ensures Reaches(edges, child, y)
        {
          var e :| e in edges && e.parent == x && e.child == y;
          ReachesStep(edges, child, x, y);
        }
        visited := visited + unseen;
        work := work - {x} + unseen;
      }
      ClosedSetContainsReachable(edges, visited, child);
      found := parent in visited;
    }

    /**
     * addChild: refuses a self-reference, then a role under a permission, then an edge
     * that would close a loop, in that order and without touching the table; otherwise
     * inserts exactly the edge (a duplicate edge is a primary-key violation) and
     * invalidates the cache.
     */
    method AddChild(parent: Item, child: Item) returns (status: Status)
      modifies this`edges, this`invalidations
      ensures status == (if parent.name == child.name then Failed(SelfReference)
                         else if parent.kind == PermissionItem && child.kind == RoleItem then Failed(RoleUnderPermission)
                         else if Reaches(old(edges), child.name, parent.name) then Failed(LoopDetected)
                         else if Edge(parent.name, child.name) in old(edges) then Failed(IntegrityViolation)
                         else Done)
      ensures status.Done? ==> edges == old(edges) + [Edge(parent.name, child.name)]
                               && invalidations == old(invalidations) + 1
      ensures status.Failed? ==> edges == old(edges) && invalidations == old(invalidations)
      ensures Acyclic(old(edges)) ==> Acyclic(edges)
    {
      if parent.name == child.name {
        return Failed(SelfReference);
      }
      if parent.kind == PermissionItem && child.kind == RoleItem {
        return Failed(RoleUnderPermission);
      }
      var loop := DetectLoop(parent.name, child.name);
      if loop {
        return Failed(LoopDetected);
      }
      var e := Edge(parent.name, child.name);
      if e in edges {
        return Failed(IntegrityViolation);
      }
      if Acyclic(edges) {
        AddEdgePreservesAcyclic(edges, e);
      }
      edges := edges + [e];
      invalidations := invalidations + 1;
      status := Done;
    }

    /**
     * assign: builds the assignment of `role` to `userId` created `now` and inserts its
     * row; the cache is left alone. A taken (user, item) pair is a primary-key
     * violation.
     */
    method Assign(role: Item, userId: string, now: int) returns (result: Result<Assignment>)
      modifies this`assignments
      ensures HasAssignment(old(assignments), userId, role.name) ==>
                result == Err(IntegrityViolation) && assignments == old(assignments)
      ensures !HasAssignment(old(assignments), userId, role.name) ==>
                result == Ok(Assignment(userId, role.name, now))
                && assignments == old(assignments) + [AssignmentRow(userId, role.name, now)]
    {
      var assignment := Assignment(userId, role.name, now);
      if HasAssignment(assignments, assignment.userId, assignment.roleName) {
        return Err(IntegrityViolation);
      }
      assignments := assignments + [AssignmentRow(assignment.userId, assignment.roleName, assignment.createdAt)];
      result := Ok(assignment);
    }

    /**
     * removeAllRules: without store cascade, first detaches every item from its rule;
     * then deletes every rule and invalidates the cache.
     */
    method RemoveAllRules()
      modifies this`items, this`rules, this`invalidations
      ensures rules == map[]
      ensures items == (if supportsCascade then old(items) else ClearRuleNames(old(items)))
      ensures invalidations == old(invalidations) + 1
      ensures !supportsCascade ==> RuleNamesResolve(items, rules)
    {
      if !supportsCascade {
        items := ClearRuleNames(items);
      }
      rules := map[];
      invalidations := invalidations + 1;
    }
  }
}
