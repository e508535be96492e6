/**
 * Identifiers, field values and the failure outcomes shared by the storage core.
 * Java's `null` is modelled by `Option.None`; Java exceptions by `Result.Err`.
 */
module Common {

  datatype Option<+T> = None | Some(value: T)

  /** The exceptions the modelled code raises, one constructor per kind. */
  datatype Error =
    | NoSuchElement        // java.util.NoSuchElementException
    | IllegalArgument      // IllegalArgumentException
    | IndexOutOfBounds     // an out-of-range list or array index
    | NullPointer          // dereferencing null
    | ClassCast            // a field of the wrong kind
    | Db                   // simpledb.DbException
    | TransactionAborted   // simpledb.TransactionAbortedException

  datatype Result<+T> = Ok(value: T) | Err(error: Error)

  /** (table id, page number) */
  datatype PageId = PageId(tableId: int, pageNumber: int)

  /** A page id plus a slot on that page. */
  datatype RecordId = RecordId(pageId: PageId, slot: int)

  /** A transaction, identified by its sequence number. */
  datatype TransactionId = TransactionId(id: int)

  datatype Permissions = ReadOnly | ReadWrite

  /** The two column types; a field's width in bytes is `Len`. */
  datatype Type = IntType | StringType {
    function Len(): (n: nat)
      ensures n > 0
    {
      match this
      case IntType => 4
      case StringType => StringLen + 4
    }
  }

  /** Maximum payload of a string field; its on-page width is this plus a 4-byte length. */
  const StringLen: nat := 128

  /** A field value. */
  datatype Field = IntField(intValue: int) | StringField(stringValue: string)

  /** Decimal rendering of a natural number (Integer.toString for non-negative values). */
  function NatToString(n: nat): (s: string)
    ensures |s| > 0
    ensures forall i :: 0 <= i < |s| ==> '0' <= s[i] <= '9'
    decreases n
  {
    var d := [(('0' as int) + n % 10) as char];
    if n < 10 then d else NatToString(n / 10) + d
  }

  /** Integer.toString: a leading '-' for negative values. */
  function IntToString(n: int): (s: string)
    ensures |s| > 0
  {
    if n < 0 then "-" + NatToString(-n) else NatToString(n)
  }

  /** Field.toString: the decimal value of an int field, the text of a string field. */
  function FieldToString(f: Field): string {
    match f
    case IntField(v) => IntToString(v)
    case StringField(s) => s
  }

  /** Java's string concatenation renders a null reference as "null". */
  function StringOrNull(s: Option<string>): string {
    match s
    case None => "null"
    case Some(v) => v
  }
}
