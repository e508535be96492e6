/**
 * SeqScan: a sequential scan over one table under one transaction. The table
 * id, the alias and the file iterator are fields reassigned by reset, open and
 * close. The catalog is given as two functions from table id to the table's
 * schema and to its pages.
 */
module SeqScans {
  import opened Common
  import opened TupleDescs
  import opened Tuples
  import opened HeapFiles

  /** The name getTupleDesc gives a field: alias, a dot, the field's own name; null renders as "null". */
  function QualifiedName(alias: Option<string>, name: Option<string>): string {
    StringOrNull(alias) + "." + StringOrNull(name)
  }

  class SeqScan {
    const tid: TransactionId
    var tableId: int
    var tableAlias: Option<string>
    var dfIter: HeapFileIterator?

    ghost predicate Valid()
      reads this, dfIter
    {
      dfIter != null ==> dfIter.Valid()
    }

    /** The tuples a hasNext/next loop started now would yield; none without an iterator. */
    ghost function Remaining(): seq<Tuple>
      reads this, dfIter
      requires Valid()
    {
      if dfIter == null then [] else dfIter.Visible()
    }

    constructor (tid: TransactionId, tableid: int, tableAlias: Option<string>)
      ensures Valid() && dfIter == null && Remaining() == []
      ensures this.tid == tid && tableId == tableid && this.tableAlias == tableAlias
    {
      this.tid := tid;
      this.tableId := tableid;
      this.tableAlias := tableAlias;
      this.dfIter := null;
    }

    function GetAlias(): Option<string>
      reads this
    {
      tableAlias
    }

    /** reset: a new table id and alias; the iterator stays, and the transaction id is a constant. */
    method Reset(tableid: int, tableAlias: Option<string>)
      modifies this
      ensures tableId == tableid && this.tableAlias == tableAlias
      ensures dfIter == old(dfIter)
    {
      this.tableId := tableid;
      this.tableAlias := tableAlias;
    }

    /**
     * getTupleDesc: the catalog schema of the table with every name prefixed by
     * the alias; field count and types are kept, so the result equals the
     * catalog schema.
     */
    method GetTupleDesc(schemaOf: int -> TupleDesc) returns (td: TupleDesc)
      ensures NumFields(td) == NumFields(schemaOf(tableId))
      ensures forall i :: 0 <= i < NumFields(td) ==>
        && td.items[i].fieldType == schemaOf(tableId).items[i].fieldType
        && td.items[i].fieldName == Some(QualifiedName(tableAlias, schemaOf(tableId).items[i].fieldName))
      ensures SameTypes(td, schemaOf(tableId))
    {
      var prevDesc := schemaOf(tableId);
      var n := NumFields(prevDesc);
      var names: seq<Option<string>> := [];
      var types: seq<Type> := [];
      for i := 0 to n
        invariant |names| == i && |types| == i
        invariant forall k :: 0 <= k < i ==>
          types[k] == prevDesc.items[k].fieldType &&
          names[k] == Some(QualifiedName(tableAlias, prevDesc.items[k].fieldName))
      {
        var name := GetFieldName(prevDesc, i).value;
        names := names + [Some(StringOrNull(GetAlias()) + "." + StringOrNull(name))];
        types := types + [GetFieldType(prevDesc, i).value];
      }
      var r := FromTypesAndNames(types, names);
      td := r.value;
    }

    /** open: a fresh iterator over the table's pages, then its open (which fails on an empty file). */
    method Open(pagesOf: int -> seq<seq<Tuple>>) returns (r: Result<()>)
      requires Valid()
      modifies this
      ensures Valid() && dfIter != null && fresh(dfIter)
      ensures dfIter.pages == pagesOf(tableId) && tableId == old(tableId)
      ensures |pagesOf(tableId)| == 0 ==> r == Err(Db) && Remaining() == []
      ensures |pagesOf(tableId)| > 0 ==> r.Ok? && Remaining() == TableScan(pagesOf(tableId))
    {
      dfIter := new HeapFileIterator(pagesOf(tableId));
      r := dfIter.Open();
    }

    /** hasNext: false without an iterator, otherwise the iterator's hasNext. */
    method HasNext() returns (b: bool)
      requires Valid()
      modifies dfIter
      ensures Valid()
      ensures b <==> old(Remaining()) != []
      ensures b ==> Remaining() == old(Remaining())
      ensures dfIter != null ==> (dfIter.cursor.Some? <==> old(dfIter.cursor).Some?)
      ensures dfIter != null ==>
        var advance := old(dfIter.cursor).Some? && old(dfIter.cursor).value >= |dfIter.pages[old(dfIter.index)]|
          && old(dfIter.index) < |dfIter.pages| - 1;
        && (advance ==> dfIter.index == old(dfIter.index) + 1 && dfIter.cursor == Some(0))
        && (!advance ==> dfIter.index == old(dfIter.index) && dfIter.cursor == old(dfIter.cursor))
    {
      if dfIter == null {
        return false;
      }
      b := dfIter.HasNext();
    }

    /** next: NoSuchElement without an iterator, otherwise the iterator's next. */
    method Next() returns (r: Result<Tuple>)
      requires Valid()
      modifies dfIter
      ensures Valid()
      ensures dfIter == null ==> r == Err(NoSuchElement)
      ensures dfIter != null ==>
        (r.Ok? <==> old(dfIter.cursor).Some? && old(dfIter.cursor).value < |dfIter.pages[old(dfIter.index)]|)
      ensures r.Err? ==> r.error == NoSuchElement && Remaining() == old(Remaining())
      ensures r.Ok? ==> old(Remaining()) == [r.value] + Remaining()
    {
      if dfIter == null {
        return Err(NoSuchElement);
      }
      r := dfIter.Next();
    }

    /** close: drops the iterator, so hasNext is false until the next open. */
    method Close()
      modifies this
      ensures dfIter == null && Valid() && Remaining() == []
      ensures tableId == old(tableId) && tableAlias == old(tableAlias)
    {
      dfIter := null;
    }

    /** rewind: the iterator's rewind; without one, a null dereference. */
    method Rewind() returns (r: Result<()>)
      requires Valid()
      modifies dfIter
      ensures Valid()
      ensures dfIter == null ==> r == Err(NullPointer)
      ensures dfIter != null && |dfIter.pages| == 0 ==> r == Err(Db) && Remaining() == []
      ensures dfIter != null && |dfIter.pages| > 0 ==> r.Ok? && Remaining() == TableScan(dfIter.pages)
    {
      if dfIter == null {
        return Err(NullPointer);
      }
      r := dfIter.Rewind();
    }
  }
}
