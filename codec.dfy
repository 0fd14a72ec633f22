/**
 * PHP's serialize/unserialize as an opaque codec, and the defensive read of a
 * `data` column shared by findItem and populate.
 */
module Codec {
  import opened Types

  function Unserialize(b: Blob): (r: Option<Value>)
    ensures r.None? <==> b.Unreadable?
  {
    match b
    case Serialized(v) => Some(v)
    case Unreadable(_) => None
  }

  function Serialize(v: Value): (b: Blob)
    ensures Unserialize(b) == Some(v)
  {
    Serialized(v)
  }

  /** What addItem and updateItem write to the `data` column: NULL for a null payload. */
  function DataColumn(v: Value): (c: Option<Blob>)
    ensures c.None? <==> v == Null
    ensures c.Some? ==> Unserialize(c.value) == Some(v)
  {
    if v == Null then None else Some(Serialize(v))
  }

  /**
   * The payload read back from a `data` column: null when the column is NULL, when the
   * bytes do not unserialize, and also when they unserialize to `false`, since the
   * source cannot tell that value from the failure result of `unserialize`.
   */
  function ReadData(c: Option<Blob>): (v: Value)
    ensures c.None? ==> v == Null
    ensures c.Some? && Unserialize(c.value).None? ==> v == Null
    ensures c.Some? && Unserialize(c.value).Some? ==>
              v == (if Unserialize(c.value).value == Bool(false) then Null else Unserialize(c.value).value)
  {
    if c.None? then Null
    else
      match Unserialize(c.value)
      case None => Null
      case Some(d) => if d == Bool(false) then Null else d
  }

  /** Every payload except `false` survives a write and a read. */
  lemma DataRoundTrip(v: Value)
    ensures v != Bool(false) ==> ReadData(DataColumn(v)) == v
    ensures v == Bool(false) ==> ReadData(DataColumn(v)) == Null
  {
  }
}
