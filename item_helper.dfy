/**
 * The read side (src/helpers/ItemHelper.php): row-to-entity mapping, single-item
 * lookups, list queries over the tables of a manager, and the transitive collection
 * of assignments. Nothing here changes the manager.
 */
module ItemHelper {
  import opened Types
  import opened Codec
  import opened Graph
  import opened Manager
  import opened DottedNames

  // ---------------------------------------------------------------------------
  // populate, findItem, find, get

  /**
   * populate: a Permission when the stored type is TYPE_PERMISSION and a Role for any
   * other type; the payload is read defensively and every other column is copied.
   */
  function Populate(name: string, row: ItemRow): (it: Item)
    ensures it.kind == PermissionItem <==> row.itemType == TYPE_PERMISSION
    ensures it.kind == RoleItem <==> row.itemType != TYPE_PERMISSION
    ensures it.name == name && it.itemType == row.itemType
    ensures it.description == row.description && it.ruleName == row.ruleName
    ensures it.createdAt == Some(row.createdAt) && it.updatedAt == Some(row.updatedAt)
    ensures it.data == ReadData(row.data)
  {
    Item(if row.itemType == TYPE_PERMISSION then PermissionItem else RoleItem,
         name, row.itemType, row.description, row.ruleName, ReadData(row.data),
         Some(row.createdAt), Some(row.updatedAt))
  }

  /**
   * What addItem writes, populate reads back: the class follows the type, a `false`
   * payload comes back null, and everything else is the item itself.
   */
  lemma PopulateInsertedRow(item: Item)
    requires item.createdAt.Some? && item.updatedAt.Some?
    ensures var it := Populate(item.name, InsertedRow(item));
            it == item.(kind := it.kind, data := if item.data == Bool(false) then Null else item.data)
    ensures (item.kind == RoleItem && item.itemType == TYPE_ROLE)
            || (item.kind == PermissionItem && item.itemType == TYPE_PERMISSION) ==>
              Populate(item.name, InsertedRow(item)).kind == item.kind
  {
    DataRoundTrip(item.data);
  }

  /** PHP's empty() on a string: true for "" and for "0". */
  predicate IsEmptyName(name: string)
  {
    name == "" || name == "0"
  }

  /**
   * findItem: null for an empty name or a name with no row; otherwise the row built as
   * an object of the base class Item, with the same fields populate would give it.
   */
  function FindItem(name: string, db: DbManager): (r: Option<Item>)
    reads db
    ensures r.None? <==> IsEmptyName(name) || name !in db.items
    ensures r.Some? ==> r.value == Populate(name, db.items[name]).(kind := PlainItem)
  {
    if IsEmptyName(name) || name !in db.items then None
    else
      var row := db.items[name];
      Some(Item(PlainItem, name, row.itemType, row.description, row.ruleName, ReadData(row.data),
                Some(row.createdAt), Some(row.updatedAt)))
  }

  /** find: null for an empty name or a name with no row; otherwise the populated row. */
  function Find(name: string, db: DbManager): (r: Option<Item>)
    reads db
    ensures r.None? <==> IsEmptyName(name) || name !in db.items
    ensures r.Some? ==> r.value.name == name && r.value == Populate(name, db.items[name])
  {
    if IsEmptyName(name) || name !in db.items then None else Some(Populate(name, db.items[name]))
  }

  /** get is find under another name. */
  function Get(name: string, db: DbManager): (r: Option<Item>)
    reads db
    ensures r == Find(name, db)
  {
    Find(name, db)
  }

  // ---------------------------------------------------------------------------
  // getDiffItems

  function NamesOf(s: seq<Item>): set<string>
  {
    set i | 0 <= i < |s| :: s[i].name
  }

  lemma NamesOfSnoc(s: seq<Item>, x: Item)
    ensures NamesOf(s + [x]) == NamesOf(s) + {x.name}
  {
    var t := s + [x];
    forall n | n in NamesOf(t) ensures n in NamesOf(s) + {x.name} {
      var i :| 0 <= i < |t| && t[i].name == n;
      if i < |s| { assert t[i] == s[i]; }
    }
    forall n | n in NamesOf(s) ensures n in NamesOf(t) {
      var i :| 0 <= i < |s| && s[i].name == n;
      assert t[i] == s[i];
    }
    assert t[|s|] == x;
  }

  lemma NamesOfInit(s: seq<Item>)
    requires |s| > 0
    ensures NamesOf(s) == NamesOf(s[..|s| - 1]) + {s[|s| - 1].name}
  {
    assert s == s[..|s| - 1] + [s[|s| - 1]];
    NamesOfSnoc(s[..|s| - 1], s[|s| - 1]);
  }

  /** The item that indexing `s` by name keeps for `n` (see LastNamedIsLast). */
  function LastNamed(s: seq<Item>, n: string): (it: Item)
    requires n in NamesOf(s)
    ensures it.name == n
    decreases |s|
  {
    NamesOfInit(s);
    if s[|s| - 1].name == n then s[|s| - 1] else LastNamed(s[..|s| - 1], n)
  }

  /** LastNamed picks the last item of `s` that carries the name. */
  lemma {:induction false} LastNamedIsLast(s: seq<Item>, n: string)
    requires n in NamesOf(s)
    ensures exists i :: 0 <= i < |s| && s[i] == LastNamed(s, n) && forall j :: i < j < |s| ==> s[j].name != n
    decreases |s|
  {
    NamesOfInit(s);
    if s[|s| - 1].name != n {
      var t := s[..|s| - 1];
      LastNamedIsLast(t, n);
      var i :| 0 <= i < |t| && t[i] == LastNamed(t, n) && forall j :: i < j < |t| ==> t[j].name != n;
      assert s[i] == t[i];
      forall j | i < j < |s| ensures s[j].name != n {
        if j < |t| { assert s[j] == t[j]; }
      }
    }
  }

  /** The position at which indexing `s` by name places `n` (see FirstIndexIsFirst). */
  function FirstIndex(s: seq<Item>, n: string): (i: nat)
    requires n in NamesOf(s)
    ensures i < |s| && s[i].name == n
    decreases |s|
  {
    NamesOfInit(s);
    if n in NamesOf(s[..|s| - 1]) then
      var i := FirstIndex(s[..|s| - 1], n);
      assert s[..|s| - 1][i] == s[i];
      i
    else |s| - 1
  }

  /** FirstIndex is the position of the first item of `s` that carries the name. */
  lemma {:induction false} FirstIndexIsFirst(s: seq<Item>, n: string)
    requires n in NamesOf(s)
    ensures forall j :: 0 <= j < FirstIndex(s, n) ==> s[j].name != n
    decreases |s|
  {
    NamesOfInit(s);
    var t := s[..|s| - 1];
    if n in NamesOf(t) {
      FirstIndexIsFirst(t, n);
      forall j | 0 <= j < FirstIndex(s, n) ensures s[j].name != n {
        assert s[j] == t[j];
      }
    } else {
      forall j | 0 <= j < |t| ensures s[j].name != n {
        assert t[j] == s[j];
      }
    }
  }

  lemma LastNamedSnoc(s: seq<Item>, x: Item, k: string)
    requires k in NamesOf(s + [x])
    ensures k == x.name ==> LastNamed(s + [x], k) == x
    ensures k != x.name ==> k in NamesOf(s) && LastNamed(s + [x], k) == LastNamed(s, k)
  {
    NamesOfSnoc(s, x);
    assert (s + [x])[..|s|] == s;
  }

  lemma FirstIndexSnoc(s: seq<Item>, x: Item, k: string)
    requires k in NamesOf(s + [x])
    ensures k in NamesOf(s) ==> FirstIndex(s + [x], k) == FirstIndex(s, k)
    ensures k !in NamesOf(s) ==> FirstIndex(s + [x], k) == |s|
  {
    NamesOfSnoc(s, x);
    assert (s + [x])[..|s|] == s;
  }

  function IndexOf(keys: seq<string>, k: string): (i: nat)
    requires k in keys
    ensures i < |keys| && keys[i] == k
  {
    if keys[0] == k then 0 else 1 + IndexOf(keys[1..], k)
  }

  function RemoveAt(keys: seq<string>, at: nat): (rest: seq<string>)
    requires at < |keys|
    ensures |rest| == |keys| - 1
    ensures forall a :: 0 <= a < at ==> rest[a] == keys[a]
    ensures forall a :: at <= a < |rest| ==> rest[a] == keys[a + 1]
  {
    keys[..at] + keys[at + 1..]
  }

  /**
   * `keys` and `byName` together are the PHP array that ArrayHelper::index builds from
   * `s`, possibly with some entries removed: distinct keys in order of first
   * occurrence in `s`, each holding the last item of `s` with that name.
   */
  ghost predicate IndexOfItems(keys: seq<string>, byName: map<string, Item>, s: seq<Item>)
  {
    && DistinctKeys(keys)
    && (forall k :: k in keys <==> k in byName)
    && LastValues(byName, s)
    && FirstOrder(keys, s)
  }

  predicate DistinctKeys(keys: seq<string>)
  {
    forall a, b :: 0 <= a < b < |keys| ==> keys[a] != keys[b]
  }

  ghost predicate LastValues(byName: map<string, Item>, s: seq<Item>)
  {
    forall k :: k in byName ==> k in NamesOf(s) && byName[k] == LastNamed(s, k)
  }

  ghost predicate FirstOrder(keys: seq<string>, s: seq<Item>)
  {
    && (forall k :: k in keys ==> k in NamesOf(s))
    && (forall a, b :: 0 <= a < b < |keys| ==> FirstIndex(s, keys[a]) < FirstIndex(s, keys[b]))
  }

  lemma LastValuesAppend(byName: map<string, Item>, s: seq<Item>, x: Item)
    requires LastValues(byName, s) && byName.Keys == NamesOf(s)
    ensures LastValues(byName[x.name := x], s + [x]) && byName[x.name := x].Keys == NamesOf(s + [x])
  {
    NamesOfSnoc(s, x);
    var m := byName[x.name := x];
    forall k | k in m ensures k in NamesOf(s + [x]) && m[k] == LastNamed(s + [x], k) {
      LastNamedSnoc(s, x, k);
    }
  }

  lemma FirstOrderAppend(keys: seq<string>, s: seq<Item>, x: Item)
    requires FirstOrder(keys, s)
    ensures FirstOrder(keys, s + [x])
  {
    NamesOfSnoc(s, x);
    var t := s + [x];
    forall a, b | 0 <= a < b < |keys|
      ensures FirstIndex(t, keys[a]) < FirstIndex(t, keys[b])
    {
      assert FirstIndex(s, keys[a]) < FirstIndex(s, keys[b]);
      FirstIndexSnoc(s, x, keys[a]);
      FirstIndexSnoc(s, x, keys[b]);
    }
  }

  lemma FirstOrderAppendNew(keys: seq<string>, s: seq<Item>, x: Item)
    requires FirstOrder(keys, s) && x.name !in NamesOf(s)
    requires forall k :: k in keys ==> k in NamesOf(s)
    ensures FirstOrder(keys + [x.name], s + [x])
  {
    FirstOrderAppend(keys, s, x);
    NamesOfSnoc(s, x);
    FirstIndexSnoc(s, x, x.name);
    var keys' := keys + [x.name];
    forall a | 0 <= a < |keys|
      ensures FirstIndex(s + [x], keys'[a]) < FirstIndex(s + [x], x.name)
    {
      assert keys'[a] == keys[a] && keys[a] in keys;
      FirstIndexSnoc(s, x, keys[a]);
    }
  }

  lemma IndexAppend(keys: seq<string>, byName: map<string, Item>, s: seq<Item>, x: Item)
    requires IndexOfItems(keys, byName, s) && byName.Keys == NamesOf(s)
    ensures x.name in byName ==>
              IndexOfItems(keys, byName[x.name := x], s + [x]) && byName[x.name := x].Keys == NamesOf(s + [x])
    ensures x.name !in byName ==>
              IndexOfItems(keys + [x.name], byName[x.name := x], s + [x]) && byName[x.name := x].Keys == NamesOf(s + [x])
  {
    LastValuesAppend(byName, s, x);
    if x.name in byName {
      FirstOrderAppend(keys, s, x);
    } else {
      FirstOrderAppendNew(keys, s, x);
      assert DistinctKeys(keys + [x.name]);
    }
  }

  lemma IndexRemove(keys: seq<string>, byName: map<string, Item>, s: seq<Item>, name: string)
    requires IndexOfItems(keys, byName, s) && name in byName
    ensures IndexOfItems(RemoveAt(keys, IndexOf(keys, name)), byName - {name}, s)
  {
    var at := IndexOf(keys, name);
    RemoveAtMembers(keys, at);
    RemoveKeepsOrder(keys, s, at);
    var m := byName - {name};
    assert LastValues(m, s) by {
      forall k | k in m ensures k in NamesOf(s) && m[k] == LastNamed(s, k) {
        assert k in byName;
      }
    }
  }

  lemma RemoveAtMembers(keys: seq<string>, at: nat)
    requires at < |keys| && DistinctKeys(keys)
    ensures forall k :: k in RemoveAt(keys, at) <==> k in keys && k != keys[at]
  {
    var rest := RemoveAt(keys, at);
    forall k | k in rest ensures k in keys && k != keys[at] {
      var a :| 0 <= a < |rest| && rest[a] == k;
      var a' := if a < at then a else a + 1;
      assert rest[a] == keys[a'];
    }
    forall k | k in keys && k != keys[at] ensures k in rest {
      var b :| 0 <= b < |keys| && keys[b] == k;
      if b < at { assert rest[b] == k; } else { assert rest[b - 1] == k; }
    }
  }

  lemma RemoveKeepsOrder(keys: seq<string>, s: seq<Item>, at: nat)
    requires at < |keys| && DistinctKeys(keys) && FirstOrder(keys, s)
    ensures DistinctKeys(RemoveAt(keys, at)) && FirstOrder(RemoveAt(keys, at), s)
  {
    var rest := RemoveAt(keys, at);
    RemoveAtMembers(keys, at);
    forall a, b | 0 <= a < b < |rest|
      ensures rest[a] != rest[b] && FirstIndex(s, rest[a]) < FirstIndex(s, rest[b])
    {
      var a' := if a < at then a else a + 1;
      var b' := if b < at then b else b + 1;
      assert rest[a] == keys[a'] && rest[b] == keys[b'];
    }
  }

  /** ArrayHelper::index by name. */
  method IndexByName(s: seq<Item>) returns (keys: seq<string>, byName: map<string, Item>)
    ensures IndexOfItems(keys, byName, s) && byName.Keys == NamesOf(s)
  {
    keys := [];
    byName := map[];
    for i := 0 to |s|
      invariant IndexOfItems(keys, byName, s[..i]) && byName.Keys == NamesOf(s[..i])
    {
      IndexAppend(keys, byName, s[..i], s[i]);
      assert s[..i + 1] == s[..i] + [s[i]];
      if s[i].name !in byName {
        keys := keys + [s[i].name];
      }
      byName := byName[s[i].name := s[i]];
    }
    assert s[..|s|] == s;
  }

  /**
   * getDiffItems: the items of `available`, indexed by name, without the names used by
   * `inUse`, as a list. Each name appears once, at the place of its first occurrence,
   * with the last item in `available` that carries it.
   */
  method GetDiffItems(available: seq<Item>, inUse: seq<Item>) returns (r: seq<Item>)
    ensures forall i, j :: 0 <= i < j < |r| ==> r[i].name != r[j].name
    ensures NamesOf(r) == NamesOf(available) - NamesOf(inUse)
    ensures forall i :: 0 <= i < |r| ==> r[i].name in NamesOf(available) && r[i] == LastNamed(available, r[i].name)
    ensures forall i, j :: 0 <= i < j < |r| ==>
              r[i].name in NamesOf(available) && r[j].name in NamesOf(available)
              && FirstIndex(available, r[i].name) < FirstIndex(available, r[j].name)
  {
    var keys, byName := IndexByName(available);
    keys, byName := RemoveInUse(keys, byName, available, inUse);
    // array_values
    r := seq(|keys|, i requires 0 <= i < |keys| && keys[i] in byName => byName[keys[i]]);
    ArrayValues(keys, byName, available, r);
  }

  /** Removing one more name in use leaves the names available and not in use. */
  lemma KeysAfterRemove(keys: set<string>, available: set<string>, used: set<string>, name: string)
    requires keys == available - used
    ensures keys - {name} == available - (used + {name})
    ensures name !in keys ==> keys == available - (used + {name})
  {
  }

  /** `ArrayHelper::remove` of every name in use from an index of `available`. */
  method RemoveInUse(keys0: seq<string>, byName0: map<string, Item>, available: seq<Item>, inUse: seq<Item>)
    returns (keys: seq<string>, byName: map<string, Item>)
    requires IndexOfItems(keys0, byName0, available) && byName0.Keys == NamesOf(available)
    ensures IndexOfItems(keys, byName, available)
    ensures byName.Keys == NamesOf(available) - NamesOf(inUse)
  {
    keys, byName := keys0, byName0;
    assert inUse[..0] == [];
    for j := 0 to |inUse|
      invariant IndexOfItems(keys, byName, available)
      invariant byName.Keys == NamesOf(available) - NamesOf(inUse[..j])
    {
      var name := inUse[j].name;
      assert inUse[..j + 1] == inUse[..j] + [inUse[j]];
      NamesOfSnoc(inUse[..j], inUse[j]);
      KeysAfterRemove(byName.Keys, NamesOf(available), NamesOf(inUse[..j]), name);
      if name in byName {
        IndexRemove(keys, byName, available, name);
        keys := RemoveAt(keys, IndexOf(keys, name));
        byName := byName - {name};
      }
    }
    assert inUse[..|inUse|] == inUse;
  }

  /** The values of an index of `s`, in key order, are the items its keys name, in order. */
  lemma ArrayValues(keys: seq<string>, byName: map<string, Item>, s: seq<Item>, r: seq<Item>)
    requires IndexOfItems(keys, byName, s)
    requires |r| == |keys| && forall i :: 0 <= i < |r| ==> keys[i] in byName && r[i] == byName[keys[i]]
    ensures forall i, j :: 0 <= i < j < |r| ==> r[i].name != r[j].name
    ensures NamesOf(r) == byName.Keys
    ensures forall i :: 0 <= i < |r| ==> r[i].name in NamesOf(s) && r[i] == LastNamed(s, r[i].name)
    ensures forall i, j :: 0 <= i < j < |r| ==>
              r[i].name in NamesOf(s) && r[j].name in NamesOf(s)
              && FirstIndex(s, r[i].name) < FirstIndex(s, r[j].name)
  {
    assert forall i :: 0 <= i < |r| ==> r[i].name == keys[i] by {
      forall i | 0 <= i < |r| ensures r[i].name == keys[i] {
        assert LastValues(byName, s);
        assert byName[keys[i]] == LastNamed(s, keys[i]);
      }
    }
    ValuesNames(keys, byName, r);
    ValuesLast(keys, byName, s, r);
    ValuesOrder(keys, s, r);
  }

  lemma ValuesNames(keys: seq<string>, byName: map<string, Item>, r: seq<Item>)
    requires DistinctKeys(keys) && forall k :: k in keys <==> k in byName
    requires |r| == |keys| && forall i :: 0 <= i < |r| ==> r[i].name == keys[i]
    ensures forall i, j :: 0 <= i < j < |r| ==> r[i].name != r[j].name
    ensures NamesOf(r) == byName.Keys
  {
    forall n | n in NamesOf(r) ensures n in byName {
      var i :| 0 <= i < |r| && r[i].name == n;
      assert keys[i] in keys;
    }
    forall n | n in byName ensures n in NamesOf(r) {
      var i :| 0 <= i < |keys| && keys[i] == n;
      assert r[i].name == n;
    }
  }

  lemma ValuesLast(keys: seq<string>, byName: map<string, Item>, s: seq<Item>, r: seq<Item>)
    requires LastValues(byName, s)
    requires |r| == |keys| && forall i :: 0 <= i < |r| ==> keys[i] in byName && r[i] == byName[keys[i]]
    ensures forall i :: 0 <= i < |r| ==> r[i].name in NamesOf(s) && r[i] == LastNamed(s, r[i].name)
  {
    forall i | 0 <= i < |r| ensures r[i].name in NamesOf(s) && r[i] == LastNamed(s, r[i].name) {
      assert byName[keys[i]] == LastNamed(s, keys[i]);
    }
  }

  lemma ValuesOrder(keys: seq<string>, s: seq<Item>, r: seq<Item>)
    requires FirstOrder(keys, s)
    requires |r| == |keys| && forall i :: 0 <= i < |r| ==> r[i].name == keys[i]
    ensures forall i, j :: 0 <= i < j < |r| ==>
              r[i].name in NamesOf(s) && r[j].name in NamesOf(s)
              && FirstIndex(s, r[i].name) < FirstIndex(s, r[j].name)
  {
    forall i, j | 0 <= i < j < |r|
      ensures r[i].name in NamesOf(s) && r[j].name in NamesOf(s)
              && FirstIndex(s, r[i].name) < FirstIndex(s, r[j].name)
    {
      assert keys[i] in keys && keys[j] in keys;
    }
  }

  // ---------------------------------------------------------------------------
  // getItemsThatMatchBeginning, getItemsThatBeginWith

  /**
   * getItemsThatMatchBeginning: the items named by the joins of the leading dotted
   * segments of `name`, other than `name` itself, keyed by name. These are exactly the
   * items named by the part of `name` in front of one of its dots.
   */
  method GetItemsThatMatchBeginning(name: string, db: DbManager) returns (r: map<string, Item>)
    ensures forall key :: key in r <==>
              key in db.items && exists j :: 1 <= j <= |Explode(name)| && key == Implode(Explode(name)[..j]) && key != name
    ensures forall key :: key in r <==>
              key in db.items && exists i :: 0 <= i < |name| && name[i] == '.' && key == name[..i]
    ensures forall key :: key in r ==> r[key].name == key && r[key] == Populate(key, db.items[key])
  {
    r := map[];
    var parts := Explode(name);
    var activeParts: seq<string> := [];
    for k := 0 to |parts|
      invariant activeParts == parts[..k]
      invariant forall key :: key in r <==>
                  key in db.items && exists j :: 1 <= j <= k && key == Implode(Explode(name)[..j]) && key != name
      invariant forall key :: key in r ==> r[key] == Populate(key, db.items[key])
    {
      activeParts := activeParts + [parts[k]];
      assert activeParts == parts[..k + 1];
      var joined := Implode(activeParts);
      if joined in db.items && joined != name {
        r := r[joined := Populate(joined, db.items[joined])];
      }
    }
    forall key | key in db.items
      ensures (exists j :: 1 <= j <= |Explode(name)| && key == Implode(Explode(name)[..j]) && key != name)
                       <==> (exists i :: 0 <= i < |name| && name[i] == '.' && key == name[..i])
    {
      LeadingJoins(name, key);
    }
  }

  /**
   * getItemsThatBeginWith: the items whose name starts with `prefix`, other than
   * `prefix` itself, once each.
   */
  method GetItemsThatBeginWith(prefix: string, db: DbManager) returns (r: seq<Item>)
    ensures forall k :: k in db.items && prefix <= k && k != prefix ==> Populate(k, db.items[k]) in r
    ensures forall i :: 0 <= i < |r| ==>
              r[i].name in db.items && prefix <= r[i].name && r[i].name != prefix
              && r[i] == Populate(r[i].name, db.items[r[i].name])
    ensures forall i, j :: 0 <= i < j < |r| ==> r[i].name != r[j].name
  {
    r := [];
    var rest := db.items.Keys;
    while rest != {}
      invariant rest <= db.items.Keys
      invariant forall k :: k in db.items && k !in rest && prefix <= k && k != prefix ==> Populate(k, db.items[k]) in r
      invariant forall i :: 0 <= i < |r| ==>
                  r[i].name in db.items && r[i].name !in rest && prefix <= r[i].name && r[i].name != prefix
                  && r[i] == Populate(r[i].name, db.items[r[i].name])
      invariant forall i, j :: 0 <= i < j < |r| ==> r[i].name != r[j].name
      decreases rest
    {
      var k :| k in rest;
      if prefix <= k && k != prefix {
        r := r + [Populate(k, db.items[k])];
      }
      rest := rest - {k};
    }
  }

  // ---------------------------------------------------------------------------
  // getParents, getTopLevelItems, getChildren, getParentRoles

  predicate IsRoleRow(items: map<string, ItemRow>, p: string)
  {
    p in items && items[p].itemType == TYPE_ROLE
  }

  /** The same join restricted to rows of type TYPE_ROLE. */
  function ParentRoleNames(es: seq<Edge>, items: map<string, ItemRow>, n: string): (ps: seq<string>)
    ensures forall p :: p in ps <==> Edge(p, n) in es && IsRoleRow(items, p)
    ensures forall p :: p in ps ==> p in items && items[p].itemType == TYPE_ROLE
    decreases |es|
  {
    if es == [] then []
    else
      var e := es[|es| - 1];
      assert es == es[..|es| - 1] + [e];
      var before := ParentRoleNames(es[..|es| - 1], items, n);
      if e.child == n && IsRoleRow(items, e.parent) then before + [e.parent] else before
  }

  /** getParents: the populated item table rows of the direct parents of `name`. */
  method GetParents(name: string, db: DbManager) returns (r: seq<Item>)
    ensures |r| == |ParentNames(db.edges, db.items, name)|
    ensures forall i :: 0 <= i < |r| ==> r[i].name == ParentNames(db.edges, db.items, name)[i]
    ensures forall it: Item :: it in r <==>
              Edge(it.name, name) in db.edges && it.name in db.items && it == Populate(it.name, db.items[it.name])
  {
    var rows := ParentNames(db.edges, db.items, name);
    r := [];
    for i := 0 to |rows|
      invariant |r| == i
      invariant forall j :: 0 <= j < i ==> r[j] == Populate(rows[j], db.items[rows[j]])
    {
      r := r + [Populate(rows[i], db.items[rows[i]])];
    }
    forall it: Item | Edge(it.name, name) in db.edges && it.name in db.items && it == Populate(it.name, db.items[it.name])
      ensures it in r
    {
      var j :| 0 <= j < |rows| && rows[j] == it.name;
      assert r[j] == it;
    }
  }

  /** getParentRoles: like getParents, for the parents stored with type TYPE_ROLE; each is a Role. */
  method GetParentRoles(name: string, db: DbManager) returns (r: seq<Item>)
    ensures |r| == |ParentRoleNames(db.edges, db.items, name)|
    ensures forall i :: 0 <= i < |r| ==> r[i].name == ParentRoleNames(db.edges, db.items, name)[i]
    ensures forall it :: it in r ==> it.kind == RoleItem
    ensures forall it: Item :: it in r <==>
              Edge(it.name, name) in db.edges && IsRoleRow(db.items, it.name) && it == Populate(it.name, db.items[it.name])
  {
    var rows := ParentRoleNames(db.edges, db.items, name);
    r := [];
    for i := 0 to |rows|
      invariant |r| == i
      invariant forall j :: 0 <= j < i ==> r[j] == Populate(rows[j], db.items[rows[j]])
    {
      r := r + [Populate(rows[i], db.items[rows[i]])];
    }
    forall it: Item | Edge(it.name, name) in db.edges && IsRoleRow(db.items, it.name) && it == Populate(it.name, db.items[it.name])
      ensures it in r
    {
      var j :| 0 <= j < |rows| && rows[j] == it.name;
      assert r[j] == it;
    }
  }

  /** getChildren, one hop: the populated rows of the direct children of `name`. */
  function GetChildren(name: string, db: DbManager): (r: seq<Item>)
    reads db
    ensures forall it: Item :: it in r <==>
              Edge(name, it.name) in db.edges && it.name in db.items && it == Populate(it.name, db.items[it.name])
  {
    var items := db.items;
    var cs := ChildNames(db.edges, items, name);
    var r := seq(|cs|, i requires 0 <= i < |cs| && cs[i] in items => Populate(cs[i], items[cs[i]]));
    assert forall i :: 0 <= i < |cs| ==> r[i].name == cs[i];
    assert forall c :: c in cs ==> Populate(c, items[c]) in r by {
      forall c | c in cs ensures Populate(c, items[c]) in r {
        var i :| 0 <= i < |cs| && cs[i] == c;
        assert r[i] == Populate(c, items[c]);
      }
    }
    r
  }

  /** Some edge has `n` as its child. */
  predicate HasParentEdge(es: seq<Edge>, n: string)
  {
    exists i :: 0 <= i < |es| && es[i].child == n
  }

  /** A name is the child of no edge exactly when no walk of one edge or more ends at it. */
  lemma TopLevelMeansNoAncestor(es: seq<Edge>, n: string)
    ensures !HasParentEdge(es, n) <==> forall p :: IsPath(es, p) && p[|p| - 1] == n ==> |p| == 1
  {
    if HasParentEdge(es, n) {
      var i :| 0 <= i < |es| && es[i].child == n;
      assert IsPath(es, [es[i].parent, n]);
    } else {
      forall p | IsPath(es, p) && p[|p| - 1] == n ensures |p| == 1 {
        LastStepEntersLast(es, p);
      }
    }
  }

  lemma LastStepEntersLast(es: seq<Edge>, p: seq<string>)
    requires IsPath(es, p)
    ensures |p| >= 2 ==> HasParentEdge(es, p[|p| - 1])
  {
    if |p| >= 2 {
      var e := Edge(p[|p| - 2], p[|p| - 1]);
      assert e in es;
      var i :| 0 <= i < |es| && es[i] == e;
    }
  }

  /** getTopLevelItems: every item that is the child of no edge, once each. */
  method GetTopLevelItems(db: DbManager) returns (r: seq<Item>)
    ensures forall k :: k in db.items && !HasParentEdge(db.edges, k) ==> Populate(k, db.items[k]) in r
    ensures forall i :: 0 <= i < |r| ==>
              r[i].name in db.items && !HasParentEdge(db.edges, r[i].name)
              && r[i] == Populate(r[i].name, db.items[r[i].name])
    ensures forall i, j :: 0 <= i < j < |r| ==> r[i].name != r[j].name
  {
    r := [];
    var rest := db.items.Keys;
    while rest != {}
      invariant rest <= db.items.Keys
      invariant forall k :: k in db.items && k !in rest && !HasParentEdge(db.edges, k) ==> Populate(k, db.items[k]) in r
      invariant forall i :: 0 <= i < |r| ==>
                  r[i].name in db.items && r[i].name !in rest && !HasParentEdge(db.edges, r[i].name)
                  && r[i] == Populate(r[i].name, db.items[r[i].name])
      invariant forall i, j :: 0 <= i < j < |r| ==> r[i].name != r[j].name
      decreases rest
    {
      var k :| k in rest;
      if !HasParentEdge(db.edges, k) {
        r := r + [Populate(k, db.items[k])];
      }
      rest := rest - {k};
    }
  }

  // ---------------------------------------------------------------------------
  // getAssignments

  /** Row `i` is the last row assigning `n` to user `u`. */
  predicate LastRowFor(rows: seq<AssignmentRow>, u: string, n: string, i: int)
  {
    && 0 <= i < |rows| && rows[i].userId == u && rows[i].itemName == n
    && forall j :: i < j < |rows| ==> !(rows[j].userId == u && rows[j].itemName == n)
  }

  /**
   * The assignment rows for one item name, keyed by user id; a later row for the same
   * user replaces an earlier one.
   */
  function DirectAssignments(rows: seq<AssignmentRow>, n: string): (m: map<string, Assignment>)
    ensures forall u :: u in m <==> HasAssignment(rows, u, n)
    ensures forall u :: u in m ==> m[u].userId == u && m[u].roleName == n
    ensures forall u :: u in m ==> exists i :: LastRowFor(rows, u, n, i) && rows[i].createdAt == m[u].createdAt
    ensures m == map[] <==> forall i :: 0 <= i < |rows| ==> rows[i].itemName != n
    decreases |rows|
  {
    if rows == [] then map[]
    else
      var a := rows[|rows| - 1];
      var before := DirectAssignments(rows[..|rows| - 1], n);
      assert forall i :: 0 <= i < |rows| - 1 ==> rows[..|rows| - 1][i] == rows[i];
      if a.itemName == n then
        var m := before[a.userId := Assignment(a.userId, a.itemName, a.createdAt)];
        assert a.userId in m;
        LastRowExtend(rows, rows[..|rows| - 1], n, before, m);
        m
      else
        LastRowExtend(rows, rows[..|rows| - 1], n, before, before);
        before
  }

  /** One more row keeps the creation time of each entry that of the last row for its user. */
  lemma LastRowExtend(rows: seq<AssignmentRow>, init: seq<AssignmentRow>, n: string,
                      before: map<string, Assignment>, m: map<string, Assignment>)
    requires |rows| > 0 && init == rows[..|rows| - 1]
    requires forall u :: u in before ==> exists i :: LastRowFor(init, u, n, i) && init[i].createdAt == before[u].createdAt
    requires m == if rows[|rows| - 1].itemName == n
                  then before[rows[|rows| - 1].userId := Assignment(rows[|rows| - 1].userId, n, rows[|rows| - 1].createdAt)]
                  else before
    ensures forall u :: u in m ==> exists i :: LastRowFor(rows, u, n, i) && rows[i].createdAt == m[u].createdAt
  {
    var a := rows[|rows| - 1];
    forall u | u in m ensures exists i :: LastRowFor(rows, u, n, i) && rows[i].createdAt == m[u].createdAt {
      if a.itemName == n && u == a.userId {
        assert LastRowFor(rows, u, n, |rows| - 1);
      } else {
        var i :| LastRowFor(init, u, n, i) && init[i].createdAt == before[u].createdAt;
        assert init[i] == rows[i];
        forall j | i < j < |rows| ensures !(rows[j].userId == u && rows[j].itemName == n) {
          if j < |rows| - 1 {
            assert init[j] == rows[j];
          }
        }
        assert LastRowFor(rows, u, n, i);
      }
    }
  }

  /** A path whose every node but the last is an item stored with type TYPE_ROLE. */
  ghost predicate RoleChain(items: map<string, ItemRow>, es: seq<Edge>, p: seq<string>)
  {
    IsPath(es, p) && forall i :: 0 <= i < |p| - 1 ==> IsRoleRow(items, p[i])
  }

  /** `r` is `n` itself or reaches `n` through roles: its assignments count for `n`. */
  ghost predicate InheritsFrom(items: map<string, ItemRow>, es: seq<Edge>, r: string, n: string)
  {
    exists p :: RoleChain(items, es, p) && p[0] == r && p[|p| - 1] == n
  }

  /** `x` reaches `n` over at least one edge through roles. */
  ghost predicate StrictlyInherits(items: map<string, ItemRow>, es: seq<Edge>, x: string, n: string)
  {
    exists p :: RoleChain(items, es, p) && |p| >= 2 && p[0] == x && p[|p| - 1] == n
  }

  /** No chain of roles leads back to where it started. */
  ghost predicate RoleCycleFree(items: map<string, ItemRow>, es: seq<Edge>)
  {
    forall p :: RoleChain(items, es, p) && |p| >= 2 ==> p[0] != p[|p| - 1]
  }

  /** A hierarchy without cycles has no cycle of roles either. */
  lemma AcyclicIsRoleCycleFree(items: map<string, ItemRow>, es: seq<Edge>)
    requires Acyclic(es)
    ensures RoleCycleFree(items, es)
  {
  }

  /**
   * The edge addChild inserts keeps a table without role cycles so, whether or not the
   * rest of the table is acyclic or its names are items: a new cycle would have to run
   * from `e.child` back to `e.parent`, which the loop check has ruled out.
   */
  lemma AddChildKeepsRoleCycleFree(items: map<string, ItemRow>, es: seq<Edge>, e: Edge)
    requires RoleCycleFree(items, es) && !Reaches(es, e.child, e.parent)
    ensures RoleCycleFree(items, es + [e])
  {
    forall q | RoleChain(items, es + [e], q) && |q| >= 2
      ensures q[0] != q[|q| - 1]
    {
      SplitAtNewEdge(es, e, q);
      if IsPath(es, q) {
        assert RoleChain(items, es, q);
      } else if q[0] == q[|q| - 1] {
        ReachesTrans(es, e.child, q[0], e.parent);
      }
    }
  }

  /** On the manager: an addChild that succeeds keeps the table free of role cycles. */
  method AddChildRoleCycleFree(db: DbManager, parent: Item, child: Item) returns (status: Status)
    requires RoleCycleFree(db.items, db.edges)
    modifies db`edges, db`invalidations
    ensures RoleCycleFree(db.items, db.edges)
  {
    ghost var es := db.edges;
    status := db.AddChild(parent, child);
    if status.Done? {
      AddChildKeepsRoleCycleFree(db.items, es, Edge(parent.name, child.name));
    }
  }

  /** Everything that reaches `n` through roles: the measure of the recursion. */
  ghost function RoleAncestors(items: map<string, ItemRow>, es: seq<Edge>, n: string): set<string>
  {
    set x | x in Nodes(es) && StrictlyInherits(items, es, x, n)
  }

  lemma ChainStartsAtNode(items: map<string, ItemRow>, es: seq<Edge>, p: seq<string>)
    requires RoleChain(items, es, p) && |p| >= 2
    ensures p[0] in Nodes(es)
  {
    assert Edge(p[0], p[1]) in es;
  }

  lemma ChainExtend(items: map<string, ItemRow>, es: seq<Edge>, p: seq<string>, n: string)
    requires RoleChain(items, es, p) && Edge(p[|p| - 1], n) in es && IsRoleRow(items, p[|p| - 1])
    ensures RoleChain(items, es, p + [n]) && (p + [n])[0] == p[0]
  {
    var q := p + [n];
    forall i | 0 <= i < |q| - 1 ensures Edge(q[i], q[i + 1]) in es && IsRoleRow(items, q[i]) {
      if i < |p| - 1 {
        assert q[i] == p[i] && q[i + 1] == p[i + 1];
      }
    }
  }

  /** Going up one role edge leaves strictly fewer role ancestors. */
  lemma AncestorsShrink(items: map<string, ItemRow>, es: seq<Edge>, p: string, n: string)
    requires RoleCycleFree(items, es)
    requires Edge(p, n) in es && IsRoleRow(items, p)
    ensures RoleAncestors(items, es, p) < RoleAncestors(items, es, n)
  {
    forall x | x in RoleAncestors(items, es, p) ensures x in RoleAncestors(items, es, n) {
      var q :| RoleChain(items, es, q) && |q| >= 2 && q[0] == x && q[|q| - 1] == p;
      ChainExtend(items, es, q, n);
    }
    var pn := [p, n];
    assert RoleChain(items, es, pn);
    ChainStartsAtNode(items, es, pn);
    assert p in RoleAncestors(items, es, n);
    assert p !in RoleAncestors(items, es, p);
  }

  /**
   * getAssignments: the assignments that grant `n`, keyed by the item they were made
   * for and then by user. The parent roles come first, each with everything above it,
   * an earlier parent winning a clash (PHP's `+=`); the direct rows of `n` are merged
   * into `[n]` afterwards, and only when there are some.
   */
  function Assignments(items: map<string, ItemRow>, es: seq<Edge>, rows: seq<AssignmentRow>, n: string): map<string, map<string, Assignment>>
    requires RoleCycleFree(items, es)
    decreases RoleAncestors(items, es, n), 1, 0
  {
    var inherited := Inherited(items, es, rows, n, ParentRoleNames(es, items, n));
    var direct := DirectAssignments(rows, n);
    if direct == map[] then inherited
    else inherited[n := (if n in inherited then inherited[n] else map[]) + direct]
  }

  /** The assignments collected from the parent roles `ps` of `n`, in order. */
  function Inherited(items: map<string, ItemRow>, es: seq<Edge>, rows: seq<AssignmentRow>, n: string, ps: seq<string>): map<string, map<string, Assignment>>
    requires RoleCycleFree(items, es)
    requires forall p :: p in ps ==> Edge(p, n) in es && IsRoleRow(items, p)
    decreases RoleAncestors(items, es, n), 0, |ps|
  {
    if ps == [] then map[]
    else
      var p := ps[|ps| - 1];
      AncestorsShrink(items, es, p, n);
      Assignments(items, es, rows, p) + Inherited(items, es, rows, n, ps[..|ps| - 1])
  }

  /** The parents of a name through which something strictly above it is reached. */
  lemma {:induction false} InheritsStep(items: map<string, ItemRow>, es: seq<Edge>, r: string, n: string)
    ensures InheritsFrom(items, es, r, n) <==>
              r == n || exists p :: p in ParentRoleNames(es, items, n) && InheritsFrom(items, es, r, p)
  {
    if InheritsFrom(items, es, r, n) && r != n {
      var q :| RoleChain(items, es, q) && q[0] == r && q[|q| - 1] == n;
      var p := q[|q| - 2];
      assert Edge(p, n) in es && IsRoleRow(items, p);
      var q' := q[..|q| - 1];
      assert RoleChain(items, es, q') by {
        forall i | 0 <= i < |q'| - 1 ensures Edge(q'[i], q'[i + 1]) in es && IsRoleRow(items, q'[i]) {
          assert q'[i] == q[i] && q'[i + 1] == q[i + 1];
        }
      }
      assert q'[0] == r && q'[|q'| - 1] == p;
    }
    if r == n {
      assert RoleChain(items, es, [n]);
    }
    forall p | p in ParentRoleNames(es, items, n) && InheritsFrom(items, es, r, p)
      ensures InheritsFrom(items, es, r, n)
    {
      var q :| RoleChain(items, es, q) && q[0] == r && q[|q| - 1] == p;
      ChainExtend(items, es, q, n);
    }
  }

  /** A name never inherits from one of its own parent roles. */
  lemma NotAboveParent(items: map<string, ItemRow>, es: seq<Edge>, p: string, n: string)
    requires RoleCycleFree(items, es)
    requires Edge(p, n) in es && IsRoleRow(items, p)
    ensures !InheritsFrom(items, es, n, p)
  {
    if InheritsFrom(items, es, n, p) {
      var q :| RoleChain(items, es, q) && q[0] == n && q[|q| - 1] == p;
      ChainExtend(items, es, q, n);
    }
  }

  /**
   * What getAssignments collects for `n`: an entry for exactly the items that `n`
   * inherits from (itself included) and that have assignment rows, and each entry
   * holds exactly that item's own rows. So where the walk meets an item twice the
   * two collected entries are equal, and which one `+=` keeps does not matter.
   */
  lemma {:induction false} AssignmentsCharacterized(items: map<string, ItemRow>, es: seq<Edge>, rows: seq<AssignmentRow>, n: string)
    requires RoleCycleFree(items, es)
    ensures forall r :: r in Assignments(items, es, rows, n) <==>
              InheritsFrom(items, es, r, n) && DirectAssignments(rows, r) != map[]
    ensures forall r :: r in Assignments(items, es, rows, n) ==>
              Assignments(items, es, rows, n)[r] == DirectAssignments(rows, r)
    decreases RoleAncestors(items, es, n), 1, 0
  {
    var ps := ParentRoleNames(es, items, n);
    InheritedCharacterized(items, es, rows, n, ps);
    AssignmentsOfOthers(items, es, rows, n);
    AssignmentsOfOthersValue(items, es, rows, n);
    AssignmentsOfSelf(items, es, rows, n);
    assert n !in Inherited(items, es, rows, n, ps) by {
      forall p | p in ps ensures !InheritsFrom(items, es, n, p) {
        NotAboveParent(items, es, p, n);
      }
    }
    forall r
      ensures (r in Assignments(items, es, rows, n) <==>
                 InheritsFrom(items, es, r, n) && DirectAssignments(rows, r) != map[])
              && (r in Assignments(items, es, rows, n) ==>
                 Assignments(items, es, rows, n)[r] == DirectAssignments(rows, r))
    {
      InheritsStep(items, es, r, n);
    }
  }

  /** An entry of `n`'s collection for another item is the one inherited from the parents. */
  lemma AssignmentsOfOthers(items: map<string, ItemRow>, es: seq<Edge>, rows: seq<AssignmentRow>, n: string)
    requires RoleCycleFree(items, es)
    ensures forall r :: r != n ==>
              (r in Assignments(items, es, rows, n) <==> r in Inherited(items, es, rows, n, ParentRoleNames(es, items, n)))
  {
  }

  lemma AssignmentsOfOthersValue(items: map<string, ItemRow>, es: seq<Edge>, rows: seq<AssignmentRow>, n: string)
    requires RoleCycleFree(items, es)
    ensures forall r :: r != n && r in Assignments(items, es, rows, n) ==>
              Assignments(items, es, rows, n)[r] == Inherited(items, es, rows, n, ParentRoleNames(es, items, n))[r]
  {
  }

  /** When nothing is inherited for `n` itself, its entry holds exactly its own rows. */
  lemma AssignmentsOfSelf(items: map<string, ItemRow>, es: seq<Edge>, rows: seq<AssignmentRow>, n: string)
    requires RoleCycleFree(items, es)
    ensures n !in Inherited(items, es, rows, n, ParentRoleNames(es, items, n)) ==>
              (n in Assignments(items, es, rows, n) <==> DirectAssignments(rows, n) != map[])
              && (n in Assignments(items, es, rows, n) ==> Assignments(items, es, rows, n)[n] == DirectAssignments(rows, n))
  {
  }

  lemma {:induction false} InheritedCharacterized(items: map<string, ItemRow>, es: seq<Edge>, rows: seq<AssignmentRow>, n: string, ps: seq<string>)
    requires RoleCycleFree(items, es)
    requires forall p :: p in ps ==> Edge(p, n) in es && IsRoleRow(items, p)
    ensures forall r :: r in Inherited(items, es, rows, n, ps) <==>
              (exists p :: p in ps && InheritsFrom(items, es, r, p)) && DirectAssignments(rows, r) != map[]
    ensures forall r :: r in Inherited(items, es, rows, n, ps) ==>
              Inherited(items, es, rows, n, ps)[r] == DirectAssignments(rows, r)
    decreases RoleAncestors(items, es, n), 0, |ps|
  {
    if ps != [] {
      var p := ps[|ps| - 1];
      var init := ps[..|ps| - 1];
      assert ps == init + [p];
      AncestorsShrink(items, es, p, n);
      AssignmentsCharacterized(items, es, rows, p);
      InheritedCharacterized(items, es, rows, n, init);
      InheritedOfLast(items, es, rows, n, ps);
      forall r
        ensures (r in Inherited(items, es, rows, n, ps) <==>
                   (exists q :: q in ps && InheritsFrom(items, es, r, q)) && DirectAssignments(rows, r) != map[])
                && (r in Inherited(items, es, rows, n, ps) ==>
                   Inherited(items, es, rows, n, ps)[r] == DirectAssignments(rows, r))
      {
        if q :| q in ps && InheritsFrom(items, es, r, q) {
          assert q == p || q in init;
        }
      }
    }
  }

  /** The collection from parents `ps` joins that of the last parent and that of the others. */
  lemma InheritedOfLast(items: map<string, ItemRow>, es: seq<Edge>, rows: seq<AssignmentRow>, n: string, ps: seq<string>)
    requires RoleCycleFree(items, es)
    requires forall p :: p in ps ==> Edge(p, n) in es && IsRoleRow(items, p)
    requires |ps| > 0
    ensures forall r :: r in Inherited(items, es, rows, n, ps) <==>
              r in Assignments(items, es, rows, ps[|ps| - 1]) || r in Inherited(items, es, rows, n, ps[..|ps| - 1])
    ensures forall r :: r in Inherited(items, es, rows, n, ps) ==>
              Inherited(items, es, rows, n, ps)[r] ==
                if r in Inherited(items, es, rows, n, ps[..|ps| - 1]) then Inherited(items, es, rows, n, ps[..|ps| - 1])[r]
                else Assignments(items, es, rows, ps[|ps| - 1])[r]
  {
  }

  /**
   * getAssignments on the manager's tables, for tables where no chain of roles is a
   * cycle. addChild keeps that true (`AddChildRoleCycleFree`), and so does a successful
   * rename from a state whose references resolve; a rename that fails on a taken name
   * can break it (`FailedRenameLeavesRoleCycle`).
   */
  function GetAssignments(name: string, db: DbManager): (r: map<string, map<string, Assignment>>)
    reads db
    requires RoleCycleFree(db.items, db.edges)
    ensures forall k :: k in r <==>
              InheritsFrom(db.items, db.edges, k, name) && DirectAssignments(db.assignments, k) != map[]
    ensures forall k :: k in r ==> r[k] == DirectAssignments(db.assignments, k)
  {
    AssignmentsCharacterized(db.items, db.edges, db.assignments, name);
    Assignments(db.items, db.edges, db.assignments, name)
  }

  /** A user assigned to an item that `name` inherits from shows up under that item. */
  lemma InheritedAssignmentVisible(items: map<string, ItemRow>, es: seq<Edge>, rows: seq<AssignmentRow>, name: string, r: string, u: string)
    requires RoleCycleFree(items, es)
    requires InheritsFrom(items, es, r, name) && HasAssignment(rows, u, r)
    ensures r in Assignments(items, es, rows, name)
    ensures u in Assignments(items, es, rows, name)[r]
    ensures Assignments(items, es, rows, name)[r][u].roleName == r
  {
    AssignmentsCharacterized(items, es, rows, name);
  }

  /**
   * The hierarchy "admin" (a role) over "deletePost" (a permission) with user "42"
   * assigned to admin, built through the manager: getAssignments("deletePost") holds
   * the admin assignment of user "42" and no entry for deletePost itself.
   */
  method AdminGrantsDeletePost(now: int) returns (granted: map<string, map<string, Assignment>>)
    ensures "admin" in granted && "42" in granted["admin"]
    ensures granted["admin"]["42"] == Assignment("42", "admin", now)
    ensures "deletePost" !in granted
  {
    var db := new DbManager(false);
    var admin := Item(RoleItem, "admin", TYPE_ROLE, None, None, Null, None, None);
    var deletePost := Item(PermissionItem, "deletePost", TYPE_PERMISSION, None, None, Null, None, None);
    var _, added := db.AddItem(admin, now);
    var _, addedToo := db.AddItem(deletePost, now);
    NoEdges();
    var linked := db.AddChild(admin, deletePost);
    var assignment := db.Assign(admin, "42", now);
    assert db.edges == [Edge("admin", "deletePost")];
    assert db.assignments == [AssignmentRow("42", "admin", now)];
    assert IsRoleRow(db.items, "admin");
    AdminOverDeletePost(db.items, now);
    granted := GetAssignments("deletePost", db);
  }

  /** The tables of that hierarchy, and what getAssignments("deletePost") collects from them. */
  lemma AdminOverDeletePost(items: map<string, ItemRow>, now: int)
    requires IsRoleRow(items, "admin")
    ensures RoleCycleFree(items, [Edge("admin", "deletePost")])
    ensures var a := Assignments(items, [Edge("admin", "deletePost")], [AssignmentRow("42", "admin", now)], "deletePost");
            && "admin" in a && "42" in a["admin"]
            && a["admin"]["42"] == Assignment("42", "admin", now)
            && "deletePost" !in a
  {
    var es := [Edge("admin", "deletePost")];
    var rows := [AssignmentRow("42", "admin", now)];
    OneEdge(items);
    OneRow(now);
    AssignmentsCharacterized(items, es, rows, "deletePost");
  }

  /** A role over one other item: no cycle, and the role inherits from nothing but itself and the item. */
  lemma OneEdge(items: map<string, ItemRow>)
    requires IsRoleRow(items, "admin")
    ensures RoleCycleFree(items, [Edge("admin", "deletePost")])
    ensures InheritsFrom(items, [Edge("admin", "deletePost")], "admin", "deletePost")
  {
    var es := [Edge("admin", "deletePost")];
    assert Acyclic(es) by {
      NoEdges();
      AddEdgePreservesAcyclic([], Edge("admin", "deletePost"));
      assert [] + [Edge("admin", "deletePost")] == es;
    }
    AcyclicIsRoleCycleFree(items, es);
    assert RoleChain(items, es, ["admin", "deletePost"]);
  }

  /** One assignment row of user "42" to "admin". */
  lemma OneRow(now: int)
    ensures DirectAssignments([AssignmentRow("42", "admin", now)], "admin") == map["42" := Assignment("42", "admin", now)]
    ensures DirectAssignments([AssignmentRow("42", "admin", now)], "deletePost") == map[]
  {
    var rows := [AssignmentRow("42", "admin", now)];
    assert rows[..0] == [];
  }

  /**
   * updateItem as written, on a store without cascade: with roles o, x and n linked
   * o -> x -> n by addChild, renaming o to the taken name n fails, but only after the
   * edge rewrites have run. They leave the role cycle n -> x -> n, on which
   * getAssignments("n") would not terminate.
   */
  method FailedRenameLeavesRoleCycle(now: int) returns (db: DbManager, status: Status)
    ensures status == Failed(IntegrityViolation)
    ensures db.edges == [Edge("n", "x"), Edge("x", "n")]
    ensures !RoleCycleFree(db.items, db.edges)
  {
    db := ChainOXN(now);
    var n := Item(RoleItem, "n", TYPE_ROLE, None, None, Null, None, None);
    RenameChainOXN();
    var _, renamed := db.UpdateItem("o", n, now);
    status := renamed;
    NXNIsRoleCycle(db.items);
  }

  /** Roles o, x and n on a store without cascade, linked o -> x -> n by addChild. */
  method ChainOXN(now: int) returns (db: DbManager)
    ensures fresh(db) && !db.supportsCascade
    ensures "o" in db.items && IsRoleRow(db.items, "n") && IsRoleRow(db.items, "x")
    ensures db.edges == [Edge("o", "x"), Edge("x", "n")] && Acyclic(db.edges)
  {
    db := RolesOXN(now);
    ghost var items := db.items;
    var o := Item(RoleItem, "o", TYPE_ROLE, None, None, Null, None, None);
    var x := Item(RoleItem, "x", TYPE_ROLE, None, None, Null, None, None);
    var n := Item(RoleItem, "n", TYPE_ROLE, None, None, Null, None, None);
    NoEdges();
    assert !Reaches([], "x", "o");
    var linkedOX := db.AddChild(o, x);
    assert db.edges == [Edge("o", "x")];
    SinkReachesOnlyItself([Edge("o", "x")], "n");
    var linkedXN := db.AddChild(x, n);
    assert db.items == items;
    ChainOXNAcyclic();
  }

  /** Roles o, x and n added to an empty store without cascade. */
  method RolesOXN(now: int) returns (db: DbManager)
    ensures fresh(db) && !db.supportsCascade && db.edges == []
    ensures "o" in db.items && IsRoleRow(db.items, "n") && IsRoleRow(db.items, "x")
  {
    db := new DbManager(false);
    var _, addedO := db.AddItem(Item(RoleItem, "o", TYPE_ROLE, None, None, Null, None, None), now);
    var _, addedX := db.AddItem(Item(RoleItem, "x", TYPE_ROLE, None, None, Null, None, None), now);
    var _, addedN := db.AddItem(Item(RoleItem, "n", TYPE_ROLE, None, None, Null, None, None), now);
  }

  /** With n and x stored as roles, n -> x -> n is a cycle of roles. */
  lemma NXNIsRoleCycle(items: map<string, ItemRow>)
    requires IsRoleRow(items, "n") && IsRoleRow(items, "x")
    ensures !RoleCycleFree(items, [Edge("n", "x"), Edge("x", "n")])
  {
    assert RoleChain(items, [Edge("n", "x"), Edge("x", "n")], ["n", "x", "n"]);
  }
}
