# craft-rbac: the database manager and the item helper, in Dafny

craft-rbac is Yii's database RBAC manager (role-based access control), adapted for
Craft CMS. Its authorization items are roles and permissions stored in four tables:
- items, keyed by name;
- item-child edges;
- assignments of items to users;
- rules.

This project models the two files that hold its logic:

- `src/DbManager.php` writes to the tables. It is modelled as the class
  `Manager.DbManager`:
  - the item and rule tables are `map` fields keyed by name;
  - the edge and assignment tables are `seq` fields in table order;
  - the flag `supportsCascade` says whether the store cascades renames itself;
  - `invalidations` counts calls to `invalidateCache`.

  Each method changes its table fields statement by statement, as the PHP method
  does, and its `ensures` pin down the whole new state. `time()` is the parameter
  `now`. A primary-key clash (an existing item name, rule name, edge or
  user/item pair) is `Failed(IntegrityViolation)` or `Err(IntegrityViolation)`.
  That statement then changes nothing.
- `src/helpers/ItemHelper.php` reads the tables. It is modelled in module `ItemHelper`:
  - `populate`, `find`, `findItem`, `get`, `getChildren` and `getAssignments` are
    functions;
  - the list-building queries are methods with loops, proved against reference
    definitions.

  SQL filters and joins become filters over the table fields.

Supporting modules:
- `Types` holds the entities, rows and errors.
- `Codec` stands in for PHP `serialize`/`unserialize`: a payload that cannot be read
  back decodes to `None`.
- `Graph` holds walks, reachability, acyclicity and the rename rewrites of the edge
  table.
- `DottedNames` holds `explode`/`implode` on `"."`.

Main results:
- `addChild` keeps the hierarchy acyclic (`Graph.AddEdgePreservesAcyclic`).
- The loop check addChild inherits answers reachability exactly
  (`Manager.DbManager.DetectLoop`). The base-class method is not part of this model; a
  worklist search over the edge table stands in for it.
- A successful manual rename leaves no reference to the old name. On a table whose
  references resolve (every edge endpoint and every assigned name is an item) it keeps
  them resolvable, keeps the graph acyclic, and gives the new name exactly the parents
  and children the old one had (`Manager.DbManager.UpdateItem`). A rename
  that fails on a taken name leaves its rewrites applied (see Findings).
- `getAssignments` is modelled for tables where no chain of roles anywhere is a cycle.
  addChild preserves that on any table (`ItemHelper.AddChildKeepsRoleCycleFree`); a
  successful rename preserves acyclicity on a table whose references resolve. There it
  returns an
  entry for exactly the items the name inherits from through roles that have
  assignment rows, and each entry holds exactly that item's own rows
  (`ItemHelper.AssignmentsCharacterized`).

PHP details that the model keeps:
- `empty("0")` is true, so `find("0")` is null.
- `populate` tests `unserialize(...) === false`, so a stored `false` reads back as null.
- `+=` on arrays keeps the keys already present, so an earlier parent wins a clash.
- `ArrayHelper::index` keeps a name at its first position, holding the last item with
  that name.

`getAssignments` creates the entry under the name itself only inside the loop over its
direct rows (src/helpers/ItemHelper.php:257-263), so a name without rows gets no entry
of its own. `ItemHelper.AdminGrantsDeletePost` proves this for admin/deletePost.

## Model

| member | source | states |
|---|---|---|
| Codec.Unserialize | src/helpers/ItemHelper.php:276-283 | decoding a stored payload fails exactly on an unreadable blob |
| Codec.Serialize | src/DbManager.php:142 | whatever is serialized decodes back to the same value |
| Codec.DataColumn | src/DbManager.php:64 | the data column is NULL exactly for a null payload, and otherwise decodes to the payload |
| Codec.ReadData | src/helpers/ItemHelper.php:276-283 | a payload reads as null when the column is NULL, undecodable or decodes to `false`, and otherwise as the decoded value |
| Codec.DataRoundTrip | src/helpers/ItemHelper.php:276-283 | every payload written survives a read, except `false`, which comes back null |
| Manager.InsertedRow | src/DbManager.php:59-67 | the column list of the insert: type, description, rule name, encoded data and both timestamps; `ItemHelper.PopulateInsertedRow` proves that populate reads back the item it was built from |
| Manager.StampIfNull | src/DbManager.php:51-57 | a timestamp always ends up set: a preset one is kept, a null one becomes `now` |
| Manager.DbManager.AddItem | src/DbManager.php:49-72 | stamps only the null timestamps, then inserts exactly the row mirroring the stamped item and invalidates the cache once; an existing name changes nothing |
| Manager.UpdatedRow | src/DbManager.php:111-120 | the updated row takes the new description, rule name, encoded data and `updatedAt = now` and keeps its type and creation time |
| Manager.RewriteAssignments | src/DbManager.php:98-106 | every assignment row naming the old item is renamed, every other row is unchanged, and no row is added or dropped |
| Manager.RewriteRuleNames | src/DbManager.php:157-167 | exactly the items whose rule is the old name are repointed to the new name; all other items are unchanged |
| Manager.ClearRuleNames | src/DbManager.php:250-254 | every item keeps its row except that its rule name becomes null |
| Manager.RenameKeepsReferences | src/DbManager.php:79-120 | a completed manual rename keeps every edge endpoint and assigned item name resolvable in the item table |
| Manager.UnusedNameIsNoNode | src/DbManager.php:79-120 | when every reference resolves, a name absent from the item table is on no edge |
| Manager.DbManager.UpdateItem | src/DbManager.php:77-125 | on a rename without cascade, rewrites edge parents, edge children and assignments first; afterwards none mentions the old name, and everything else is kept; then moves the row to the new key with `updatedAt = now`, or, if the new name is taken, stops there with the rewrites applied; from a state whose references resolve, a successful rename keeps them resolvable and the graph acyclic, and gives the new name exactly the parents and children the old one had |
| Manager.DbManager.AddRule | src/DbManager.php:130-150 | stamps only the null timestamps, inserts the serialized stamped rule with them and invalidates the cache; an existing name changes nothing |
| Manager.DbManager.UpdateRule | src/DbManager.php:155-183 | on a rename without cascade, repoints exactly the items using the old rule; then rewrites the rule row with the serialized rule and `updatedAt = now`; afterwards no item names the old rule |
| Manager.DbManager.DetectLoop | src/DbManager.php:202 | reports a loop exactly when the parent is reachable from the child along the edges, the child itself included |
| Graph.ClosedSetContainsReachable | src/DbManager.php:202 | a set of names closed under the edges that holds a name holds everything reachable from it |
| Graph.PathStaysIn | src/DbManager.php:202 | a walk that starts inside a set closed under the edges ends inside it |
| Manager.DbManager.AddChild | src/DbManager.php:188-222 | refuses, in this order and without touching the table, a self-reference, a role under a permission, and a loop; otherwise inserts exactly the edge and invalidates the cache; acyclicity is preserved |
| Graph.SplitAtNewEdge | src/DbManager.php:208-217 | a walk over the table plus the new edge either avoids it or goes from its start to the parent and from the child to its end |
| Graph.AddEdgePreservesAcyclic | src/DbManager.php:202-217 | adding an edge whose child does not reach its parent keeps an acyclic table acyclic |
| Graph.LoopIsNecessary | src/DbManager.php:202-206 | adding an edge whose child does reach its parent always creates a cycle, so the check refuses only real loops |
| Graph.NoEdges | src/DbManager.php:202 | with no edges nothing but a name itself is reachable, and there is no cycle |
| Graph.RewriteParents | src/DbManager.php:80-88 | every edge whose parent is the old name gets the new parent, the rest are kept, in table order |
| Graph.RewriteChildren | src/DbManager.php:89-97 | every edge whose child is the old name gets the new child, the rest are kept, in table order |
| Graph.RenameInEdges | src/DbManager.php:80-97 | the two edge UPDATEs of a manual rename, parents first and then children; what the pair does is proved in `Graph.RenameInEdgesExactly` |
| Graph.RenameInEdgesExactly | src/DbManager.php:79-97 | after both rewrites no edge mentions the old name, edges not touching it are unchanged and the rest are renamed endpoint by endpoint |
| Graph.RenamedEdgeHasPreimage | src/DbManager.php:79-97 | when the new name was on no edge, each rewritten edge comes from an edge of the old table |
| Graph.PathHasPreimage | src/DbManager.php:79-97 | when the new name was on no edge, a walk after the rename, renamed back, is a walk of the old table with the same ends renamed back |
| Graph.AcyclicNoSelfEdge | src/DbManager.php:79-97 | an acyclic table has no edge from a name to itself |
| Graph.RenameKeepsParentNames | src/DbManager.php:79-120 | after renaming a name to an unused one in the edges and the item table, the new name has exactly the parents the old name had, in the same order |
| Graph.RenameKeepsChildNames | src/DbManager.php:79-120 | the same for the children |
| Manager.ManualRename | src/DbManager.php:79-120 | a completed manual rename to an unused name keeps references resolvable, and on an acyclic table keeps it acyclic and moves the parents and children to the new name |
| Graph.RenameOntoTakenNameClosesCycle | src/DbManager.php:80-97 | the rewrites of renaming o to the taken name n turn the acyclic chain o -> x -> n into the cycle n -> x -> n |
| Manager.DbManager.UpdateItemChecked | src/DbManager.php:77-125 | updateItem with the key clash checked before any rewrite: a rename to a taken name changes nothing, every other call acts as updateItem, and on a store without cascade, from a state whose references resolve, every path keeps them resolvable and the graph acyclic |
| ItemHelper.AddChildKeepsRoleCycleFree | src/DbManager.php:188-222 | an edge that passes the loop check keeps a table without cycles of roles so, whatever else the table holds |
| ItemHelper.AddChildRoleCycleFree | src/DbManager.php:188-222 | addChild on the manager, refused or not, leaves its tables without cycles of roles when they had none |
| Graph.RenamePreservesAcyclic | src/DbManager.php:79-97 | renaming a node to a name on no edge keeps an acyclic table acyclic |
| Manager.DbManager.Assign | src/DbManager.php:227-243 | returns the assignment of the role's name to the user created `now` and inserts exactly its row, without invalidating the cache; a taken user/item pair is refused and changes nothing |
| Manager.DbManager.RemoveAllRules | src/DbManager.php:248-259 | empties the rule table; without cascade clears every item's rule name, otherwise leaves the items alone; invalidates the cache once; without cascade, no item then names a missing rule |
| ItemHelper.Populate | src/helpers/ItemHelper.php:272-294 | a row becomes a Permission exactly when its type is TYPE_PERMISSION and a Role otherwise, with a defensively read payload and every other column copied |
| ItemHelper.PopulateInsertedRow | src/helpers/ItemHelper.php:272-294 | populating the row that addItem inserts gives back the item, apart from its class, which follows the type, and a `false` payload, which reads as null |
| ItemHelper.FindItem | src/helpers/ItemHelper.php:96-128 | null exactly for an empty name or a missing row; otherwise the row as a base-class Item with the fields populate gives |
| ItemHelper.Find | src/helpers/ItemHelper.php:135-150 | null exactly for an empty name or a missing row; otherwise the populated row of that very name |
| ItemHelper.Get | src/helpers/ItemHelper.php:157-160 | answers as find does |
| ItemHelper.NamesOfSnoc | src/helpers/ItemHelper.php:34 | appending an item adds exactly its name to the names of a list |
| ItemHelper.LastNamed | src/helpers/ItemHelper.php:34 | indexing by name keeps, for a name, an item carrying it |
| ItemHelper.LastNamedIsLast | src/helpers/ItemHelper.php:34 | the item kept for a name is the last one in the list with that name |
| ItemHelper.FirstIndex | src/helpers/ItemHelper.php:34 | indexing by name places a name at a position holding that name |
| ItemHelper.FirstIndexIsFirst | src/helpers/ItemHelper.php:34 | that position is the first occurrence of the name |
| ItemHelper.IndexByName | src/helpers/ItemHelper.php:34 | the index holds every name of the list once, in order of first occurrence, each with its last item |
| ItemHelper.IndexRemove | src/helpers/ItemHelper.php:37-39 | removing a key from the index keeps the rest of it distinct, in order and with the same items |
| ItemHelper.RemoveInUse | src/helpers/ItemHelper.php:37-39 | after removing every name in use, the index holds exactly the available names not in use, still once each, in order and with the same items |
| ItemHelper.ArrayValues | src/helpers/ItemHelper.php:41 | the values of the index in key order name each indexed name once, in order of first occurrence, each with its last item |
| ItemHelper.GetDiffItems | src/helpers/ItemHelper.php:31-42 | the result names exactly the available names not used in `inUse`, once each, ordered by first occurrence, each with the last available item of that name |
| DottedNames.Explode | src/helpers/ItemHelper.php:53 | splitting on dots gives at least one part |
| DottedNames.PartsHaveNoDot | src/helpers/ItemHelper.php:53 | no part of the split holds a dot |
| DottedNames.Implode | src/helpers/ItemHelper.php:58 | `implode(".", …)`: the parts joined with dots; `DottedNames.ImplodeExplode` proves it inverts the split on dots |
| DottedNames.ImplodeExplode | src/helpers/ItemHelper.php:53-58 | joining the parts of a name with dots gives the name back |
| DottedNames.LeadingJoinIsDotPrefix | src/helpers/ItemHelper.php:55-58 | the join of fewer than all leading parts is the text in front of some dot of the name |
| DottedNames.DotPrefixIsLeadingJoin | src/helpers/ItemHelper.php:55-58 | the text in front of any dot of the name is the join of some leading parts |
| DottedNames.LeadingJoins | src/helpers/ItemHelper.php:55-59 | the joins of leading parts other than the name itself are exactly the texts in front of its dots |
| ItemHelper.GetItemsThatMatchBeginning | src/helpers/ItemHelper.php:49-68 | the result is keyed by exactly those texts in front of a dot of the name that are items, each holding the populated item of that name |
| ItemHelper.GetItemsThatBeginWith | src/helpers/ItemHelper.php:75-89 | the result holds every item whose name starts with the prefix and differs from it, and nothing else, once each |
| Graph.ParentNames | src/helpers/ItemHelper.php:169-173 | the join yields exactly the parents of the name that are items |
| ItemHelper.ParentRoleNames | src/helpers/ItemHelper.php:222-227 | the join yields exactly the parents of the name stored with type TYPE_ROLE |
| Graph.ChildNames | src/helpers/ItemHelper.php:211 | the one-hop query yields exactly the children of the name that are items |
| ItemHelper.GetParents | src/helpers/ItemHelper.php:167-182 | an item is in the result exactly when it is the populated row of an item with an edge to the name, in the order of the join |
| ItemHelper.GetParentRoles | src/helpers/ItemHelper.php:219-236 | the same for parents of type TYPE_ROLE, each of them a Role |
| ItemHelper.GetChildren | src/helpers/ItemHelper.php:209-212 | an item is in the result exactly when it is the populated row of a child of the name |
| ItemHelper.TopLevelMeansNoAncestor | src/helpers/ItemHelper.php:190-194 | a name is the child of no edge exactly when every walk ending at it is the name alone |
| ItemHelper.LastStepEntersLast | src/helpers/ItemHelper.php:190-194 | a walk of one edge or more ends at the child of some edge |
| ItemHelper.GetTopLevelItems | src/helpers/ItemHelper.php:188-202 | the result holds every item that is the child of no edge, and nothing else, once each |
| ItemHelper.DirectAssignments | src/helpers/ItemHelper.php:252-263 | the direct rows of a name give exactly one entry per user assigned to it, with the name as role and the creation time of the last row for that user, and none at all when it has no rows |
| ItemHelper.LastRowExtend | src/helpers/ItemHelper.php:257-263 | one more row keeps each entry's creation time that of the last row for its user |
| ItemHelper.AcyclicIsRoleCycleFree | src/helpers/ItemHelper.php:243-266 | a hierarchy built by addChild, being acyclic, meets the termination condition of getAssignments |
| ItemHelper.ChainStartsAtNode | src/helpers/ItemHelper.php:246-249 | a chain of roles over one edge or more starts at a node of the graph |
| ItemHelper.ChainExtend | src/helpers/ItemHelper.php:246-249 | a chain of roles ending at a role extends by an edge out of it |
| ItemHelper.AncestorsShrink | src/helpers/ItemHelper.php:246-249 | each recursive call on a parent role has strictly fewer role ancestors, so the recursion ends |
| ItemHelper.InheritsStep | src/helpers/ItemHelper.php:246-249 | an item is inherited from exactly when it is the name itself or is inherited by one of its parent roles |
| ItemHelper.NotAboveParent | src/helpers/ItemHelper.php:246-249 | a name never inherits from one of its own parent roles, so the collected parents never hold its own key |
| ItemHelper.Inherited | src/helpers/ItemHelper.php:246-250 | the `+=` loop over the parent roles, each contributing its own recursive collection; what it collects is proved in `ItemHelper.InheritedCharacterized` and `ItemHelper.InheritedOfLast` |
| ItemHelper.InheritedOfLast | src/helpers/ItemHelper.php:246-249 | the parents' collection holds the keys of the last parent's and of the earlier parents', an earlier parent's entry winning a clash as `+=` does |
| ItemHelper.AssignmentsOfOthers | src/helpers/ItemHelper.php:245-250 | the entries for items other than the name are exactly those the parents contribute |
| ItemHelper.AssignmentsOfSelf | src/helpers/ItemHelper.php:257-263 | when the parents contribute nothing under the name itself, its entry exists exactly when it has rows and holds exactly them |
| ItemHelper.InheritedCharacterized | src/helpers/ItemHelper.php:245-250 | what the parents contribute is keyed by exactly the items some parent inherits from that have rows, each with exactly those rows |
| ItemHelper.Assignments | src/helpers/ItemHelper.php:243-266 | the recursion of getAssignments: the parents' collection, then the direct rows merged under the name when there are any; what it returns is proved in `ItemHelper.AssignmentsCharacterized` |
| ItemHelper.AssignmentsCharacterized | src/helpers/ItemHelper.php:243-266 | the result is keyed by exactly the items the name inherits from through roles, itself included, that have rows; each entry is exactly that item's rows, so which clashing entry `+=` keeps does not matter |
| ItemHelper.GetAssignments | src/helpers/ItemHelper.php:243-266 | the same characterization on the manager's tables, for any hierarchy without a cycle of roles |
| ItemHelper.InheritedAssignmentVisible | src/helpers/ItemHelper.php:243-266 | a user assigned to an item the name inherits from appears under that item, with that item as role |
| ItemHelper.FailedRenameLeavesRoleCycle | src/DbManager.php:79-120 | on roles o -> x -> n built by addChild, updateItem("o", n) fails with a key clash yet leaves the edges n -> x -> n, a cycle of roles |
| ItemHelper.ChainOXN | src/DbManager.php:188-222 | addChild builds the acyclic chain o -> x -> n over three roles |
| ItemHelper.AdminGrantsDeletePost | src/helpers/ItemHelper.php:243-266 | with user "42" assigned to role admin over permission deletePost, the result holds that assignment under admin and no deletePost entry |

## Left out

- The store's cascade actions are not modelled: its ON UPDATE and ON DELETE foreign-key
  actions, and the foreign-key checks on the rewrite statements. With
  `supportsCascade` the model issues no rewrites and leaves the other tables as they were.
- Manager.DbManager.RemoveAllRules: with `supportsCascade` the store's ON DELETE action
  would clear the items' rule names; the model leaves the items as they were, so on that
  path an item can still name a removed rule.
- The foreign-key checks of the inserts are not modelled: addChild's parent and
  child, assign's `item_name` and addItem's `rule_name` need not name stored rows. So
  `Manager.ReferencesResolve` is not an invariant of `DbManager`, and the rename
  guarantees that depend on it hold only from states where it holds. From other states
  a rename to a name that is on an edge but not an item can succeed and close a cycle.
- Manager.DbManager.UpdateItem: the three rewrite statements run before the row update,
  so a rename to a taken name leaves them applied. The model keeps that order but does
  not model the composite-key clashes those rewrites can raise.
- Manager.DbManager.AddItem: returns the stamped item. The PHP method writes the
  timestamps into the caller's object instead, and the model does not capture that
  aliasing. UpdateItem, AddRule and UpdateRule do the same.
- Codec.Serialize: an abstract codec. PHP's serialized format, resource streams and
  `stream_get_contents` are not modelled; only "a stored value decodes back, an
  unreadable one decodes to failure" is kept.
- ItemHelper.GetItemsThatBeginWith: LIKE is modelled as a literal prefix test. The
  unescaped `%` and `_` in the prefix act as wildcards in SQL.
- The database's collation is not modelled: every comparison of names is exact string
  equality. That covers the key clashes of addItem, updateItem, addRule, updateRule,
  addChild and assign; the lookups of find and findItem
  (src/helpers/ItemHelper.php:102-104, 141-143); the exclusion of the name itself at
  src/helpers/ItemHelper.php:59 and 79; the LIKE at 78; and the joins at 171 and 224. Under a
  case-insensitive collation, for example, `ItemHelper.Find` could return a row whose
  name differs from the one asked for.
- ItemHelper.GetChildren: only the one-hop join. The base-class method it delegates to
  (src/helpers/ItemHelper.php:211) indexes the children by name and is not part of this
  model.
- GetItemsThatBeginWith, GetTopLevelItems: the model fixes no order for the result,
  which matches the SQL; GetParents and GetParentRoles follow the table order of the
  edges.
- GetItemsThatMatchBeginning, GetAssignments: the PHP arrays become Dafny maps, which
  have no key order. The PHP keys of getItemsThatMatchBeginning come shortest prefix first
  (src/helpers/ItemHelper.php:55-65); those of getAssignments come in merge order, the
  parents' entries first in parent order and the name's own entry last, with users in
  the order of their first row (src/helpers/ItemHelper.php:243-266).
- ItemHelper.GetAssignments: requires that no chain of roles anywhere is a cycle. The
  PHP recursion diverges only on a cycle of roles above the name it is called for; for a
  name with no such cycle above it, while some cycle elsewhere exists, the PHP call
  terminates but the model does not describe it. addChild keeps the requirement on any
  table, and a successful rename keeps it on a table whose references resolve. A rename
  that fails on a taken name can break it (see Findings), and so can a rename onto a
  name that is on an edge but not an item.
- ItemHelper.GetAssignments: no lemma relates its answers before and after a rename;
  they agree only after renaming the key and the `roleName` of the old name.
- Caches, database connections, transactions and concurrent callers are not modelled.
  Cache invalidation is only counted.
- src/migrations/Install.php and src/migrations/InitRBAC.php are not part of this model.
  They provision the schema through a migration class that is not available.

## Findings

| source | as written | input that shows it | evidently intended | confidence | as-written member | corrected member |
|---|---|---|---|---|---|---|
| src/DbManager.php:79-120 | on a store without cascade, the edge and assignment rewrites run before the row update, and a rename to a taken name fails only at that update, leaving the rewrites applied | roles o, x, n linked o -> x -> n; `updateItem("o", item named "n")` | a rename that fails changes nothing, so an acyclic hierarchy stays acyclic; here the edges become n -> x -> n, a cycle of roles above "n" on which `getAssignments("n")` recurses without end | medium, not executed | ItemHelper.FailedRenameLeavesRoleCycle | Manager.DbManager.UpdateItemChecked |
