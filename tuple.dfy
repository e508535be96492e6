/**
 * Tuple: a record conforming to a TupleDesc. Its field list and record id are
 * updated in place, so it is a class. A slot holding `None` is an unset (null)
 * field.
 */
module Tuples {
  import opened Common
  import opened TupleDescs

  /** `n` unset slots. */
  function Nulls(n: nat): (s: seq<Option<Field>>)
    ensures |s| == n && forall i :: 0 <= i < n ==> s[i].None?
  {
    seq(n, _ => None)
  }

  /** How a slot appears in toString: its value's text, or "null" when unset. */
  function RenderSlot(f: Option<Field>): string {
    match f
    case None => "null"
    case Some(v) => FieldToString(v)
  }

  /** The texts of all slots, in order. */
  function Texts(fs: seq<Option<Field>>): (ss: seq<string>)
    ensures |ss| == |fs| && forall i :: 0 <= i < |fs| ==> ss[i] == RenderSlot(fs[i])
  {
    seq(|fs|, i requires 0 <= i < |fs| => RenderSlot(fs[i]))
  }

  /** Every string followed by one tab. */
  function TabTerminated(ss: seq<string>): string
    decreases |ss|
  {
    if ss == [] then "" else TabTerminated(ss[..|ss| - 1]) + ss[|ss| - 1] + "\t"
  }

  /** The strings joined by single tabs, with nothing after the last one. */
  function JoinTabs(ss: seq<string>): string
    requires |ss| > 0
  {
    TabTerminated(ss[..|ss| - 1]) + ss[|ss| - 1]
  }

  lemma {:induction false} TabTerminatedCount(ss: seq<string>)
    requires forall i :: 0 <= i < |ss| ==> '\t' !in ss[i]
    ensures multiset(TabTerminated(ss))['\t'] == |ss|
    decreases |ss|
  {
    if ss != [] {
      var last := ss[|ss| - 1];
      TabTerminatedCount(ss[..|ss| - 1]);
      assert '\t' !in last;
      assert multiset(last)['\t'] == 0;
      assert TabTerminated(ss) == TabTerminated(ss[..|ss| - 1]) + last + "\t";
      assert multiset(TabTerminated(ss)) == multiset(TabTerminated(ss[..|ss| - 1])) + multiset(last) + multiset("\t");
    }
  }

  /**
   * When no field text contains a tab, the joined line has exactly one tab
   * between neighbouring fields and ends with the last field's text.
   */
  lemma JoinTabsShape(ss: seq<string>)
    requires |ss| > 0
    requires forall i :: 0 <= i < |ss| ==> '\t' !in ss[i]
    ensures multiset(JoinTabs(ss))['\t'] == |ss| - 1
    ensures |JoinTabs(ss)| >= |ss[|ss| - 1]|
    ensures JoinTabs(ss)[|JoinTabs(ss)| - |ss[|ss| - 1]|..] == ss[|ss| - 1]
  {
    var init, last := ss[..|ss| - 1], ss[|ss| - 1];
    TabTerminatedCount(init);
    assert multiset(last)['\t'] == 0;
    assert multiset(JoinTabs(ss)) == multiset(TabTerminated(init)) + multiset(last);
  }

  class Tuple {
    var td: TupleDesc
    var fields: seq<Option<Field>>
    var rid: Option<RecordId>

    /** There is a slot for every field of the schema (resetTupleDesc leaves twice as many). */
    ghost predicate Valid()
      reads this
    {
      |fields| >= NumFields(td)
    }

    /** Tuple(td): one unset slot per field of td, no record id. */
    constructor (td: TupleDesc)
      ensures Valid()
      ensures this.td == td && fields == Nulls(NumFields(td)) && rid == None
    {
      this.td := td;
      this.fields := Nulls(NumFields(td));
      this.rid := None;
    }

    function GetTupleDesc(): TupleDesc
      reads this
    {
      td
    }

    function GetRecordId(): Option<RecordId>
      reads this
    {
      rid
    }

    /** setRecordId(r): getRecordId() now yields r; nothing else changes. */
    method SetRecordId(r: Option<RecordId>)
      modifies this
      ensures GetRecordId() == r
      ensures fields == old(fields) && td == old(td)
    {
      rid := r;
    }

    /** getField(i): the value in slot i (None when unset); i must be a valid index. */
    function GetField(i: int): Option<Field>
      reads this
      requires 0 <= i < |fields|
    {
      fields[i]
    }

    /** setField(i, f): slot i now holds f and every other slot is unchanged. */
    method SetField(i: int, f: Option<Field>)
      requires 0 <= i < |fields|
      modifies this
      ensures fields == old(fields)[i := f]
      ensures GetField(i) == f
      ensures forall j :: 0 <= j < |fields| && j != i ==> GetField(j) == old(GetField(j))
      ensures td == old(td) && rid == old(rid)
    {
      fields := fields[i := f];
    }

    /**
     * resetTupleDesc(newTd): installs newTd; the list starts with one null slot
     * per field and then gets one IntField(0) appended per field.
     */
    method ResetTupleDesc(newTd: TupleDesc)
      modifies this
      ensures Valid() && td == newTd && rid == old(rid)
      ensures |fields| == 2 * NumFields(newTd)
      ensures fields[..NumFields(newTd)] == Nulls(NumFields(newTd))
      ensures forall i :: NumFields(newTd) <= i < |fields| ==> fields[i] == Some(IntField(0))
    {
      var n := NumFields(newTd);
      td := newTd;
      fields := Nulls(n);
      for i := 0 to n
        invariant |fields| == n + i && td == newTd && rid == old(rid)
        invariant fields[..n] == Nulls(n)
        invariant forall k :: n <= k < |fields| ==> fields[k] == Some(IntField(0))
      {
        fields := fields + [Some(IntField(0))];
      }
    }

    /**
     * toString: the slots' texts joined by single tabs. An unset slot before
     * the last one is dereferenced (NullPointer); an unset last slot prints
     * "null"; a tuple with no slot at all indexes slot -1.
     */
    method ToString() returns (r: Result<string>)
      ensures |fields| == 0 ==> r == Err(IndexOutOfBounds)
      ensures r.Ok? <==> |fields| > 0 && forall i :: 0 <= i < |fields| - 1 ==> fields[i].Some?
      ensures r.Ok? ==> r.value == JoinTabs(Texts(fields))
      ensures r.Err? && |fields| > 0 ==> r.error == NullPointer
    {
      var n := |fields|;
      ghost var texts := Texts(fields);
      var column := "";
      var i := 0;
      while i < n - 1
        invariant 0 <= i <= if n == 0 then 0 else n - 1
        invariant forall k :: 0 <= k < i ==> fields[k].Some?
        invariant column == TabTerminated(texts[..i])
      {
        if fields[i].None? {
          return Err(NullPointer);
        }
        assert texts[..i + 1][..i] == texts[..i];
        assert texts[i] == FieldToString(fields[i].value);
        column := column + FieldToString(fields[i].value) + "\t";
        i := i + 1;
      }
      if n == 0 {
        return Err(IndexOutOfBounds);
      }
      assert texts[..n - 1] == texts[..|texts| - 1];
      column := column + RenderSlot(fields[n - 1]);
      r := Ok(column);
    }
  }

  /**
   * merge(a, b): a new tuple over merge(a.td, b.td) whose first fields are a's
   * and whose remaining fields are b's.
   */
  method Merge(a: Tuple, b: Tuple) returns (merged: Tuple)
    requires a.Valid() && b.Valid()
    ensures fresh(merged) && merged.Valid()
    ensures merged.td == Concat(a.td, b.td) && merged.rid == None
    ensures |merged.fields| == NumFields(a.td) + NumFields(b.td)
    ensures forall i :: 0 <= i < NumFields(a.td) ==> merged.GetField(i) == a.GetField(i)
    ensures forall j :: 0 <= j < NumFields(b.td) ==> merged.GetField(NumFields(a.td) + j) == b.GetField(j)
  {
    var td := TupleDescs.Merge(Some(a.td), Some(b.td));
    merged := new Tuple(td.value);
    var num1, num2 := NumFields(a.td), NumFields(b.td);
    for i := 0 to num1
      invariant merged != a && merged != b
      invariant merged.td == Concat(a.td, b.td) && merged.rid == None
      invariant |merged.fields| == num1 + num2
      invariant forall k :: 0 <= k < i ==> merged.fields[k] == a.fields[k]
      invariant forall k :: num1 <= k < num1 + num2 ==> merged.fields[k].None?
    {
      merged.SetField(i, a.GetField(i));
    }
    for i := 0 to num2
      invariant merged != a && merged != b
      invariant merged.td == Concat(a.td, b.td) && merged.rid == None
      invariant |merged.fields| == num1 + num2
      invariant forall k :: 0 <= k < num1 ==> merged.fields[k] == a.fields[k]
      invariant forall k :: 0 <= k < i ==> merged.fields[num1 + k] == b.fields[k]
    {
      merged.SetField(i + num1, b.GetField(i));
    }
  }
}
