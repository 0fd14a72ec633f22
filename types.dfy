/**
 * The entities of the authorization graph (yii\rbac Item, Role, Permission, Rule,
 * Assignment) and the rows of the four tables that hold them.
 */
module Types {

  datatype Option<T> = None | Some(value: T)

  /** A PHP value, as far as payloads and rule state need one. `Null` is PHP null. */
  datatype Value =
    | Null
    | Bool(b: bool)
    | Int(i: int)
    | Str(s: string)
    | RuleObject(rule: Rule)

  /** A rule object; `state` stands for whatever its concrete class keeps. */
  datatype Rule = Rule(name: string, createdAt: Option<int>, updatedAt: Option<int>, state: Value)

  /** The stored form of a serialized value, or bytes that do not unserialize. */
  datatype Blob = Serialized(value: Value) | Unreadable(raw: string)

  /** Item::TYPE_ROLE and Item::TYPE_PERMISSION. */
  const TYPE_ROLE: int := 1
  const TYPE_PERMISSION: int := 2

  /** The PHP class of an item object: the base class Item, Role or Permission. */
  datatype Kind = PlainItem | RoleItem | PermissionItem

  datatype Item = Item(
    kind: Kind,
    name: string,
    itemType: int,
    description: Option<string>,
    ruleName: Option<string>,
    data: Value,
    createdAt: Option<int>,
    updatedAt: Option<int>)

  /** A row of the item table; the key of the table (the name) is held by the map. */
  datatype ItemRow = ItemRow(
    itemType: int,
    description: Option<string>,
    ruleName: Option<string>,
    data: Option<Blob>,
    createdAt: int,
    updatedAt: int)

  /** A row of the rule table; `data` is the whole serialized rule object. */
  datatype RuleRow = RuleRow(data: Blob, createdAt: int, updatedAt: int)

  /** A row of the item-child table. */
  datatype Edge = Edge(parent: string, child: string)

  /** A row of the assignment table. */
  datatype AssignmentRow = AssignmentRow(userId: string, itemName: string, createdAt: int)

  datatype Assignment = Assignment(userId: string, roleName: string, createdAt: int)

  /**
   * Why an operation failed: a primary-key violation raised by the store, or one of
   * the three checks of addChild.
   */
  datatype Error = IntegrityViolation | SelfReference | RoleUnderPermission | LoopDetected

  datatype Status = Done | Failed(error: Error)

  datatype Result<T> = Ok(value: T) | Err(error: Error)
}
