/**
 * StringAggregator: COUNT per group over string fields. Each group's result
 * tuple is kept, as its list of field slots, in a map from the group key (None
 * for the null key) that every merge reads, bumps and writes back. The map is
 * always the fold of MergeStep over the keys merged so far.
 */
module StringAggregators {
  import opened Common
  import opened TupleDescs
  import opened Tuples

  /** Aggregator.NO_GROUPING */
  const NoGrouping: int := -1

  /** Aggregator.Op */
  datatype Op = Min | Max | Sum | Avg | Count | SumCount | ScAvg

  type Slots = seq<Option<Field>>
  type Groups = map<Option<Field>, Slots>

  /** Where a group's tuple keeps its count: slot 0 for the null key, slot 1 after the key otherwise. */
  function CountSlot(key: Option<Field>): nat {
    if key.None? then 0 else 1
  }

  /**
   * A group tuple of the right width: an int count in its count slot, the key
   * in slot 0 for a non-null key, and nothing after the count for the null key.
   */
  ghost predicate GroupOk(t: Slots, key: Option<Field>, width: nat) {
    && |t| == width
    && CountSlot(key) < width
    && t[CountSlot(key)].Some? && t[CountSlot(key)].value.IntField?
    && (key.Some? ==> t[0] == key)
    && (key.None? ==> forall j :: 1 <= j < width ==> t[j].None?)
  }

  /** The count a well-formed group tuple holds. */
  function StoredCount(t: Slots, key: Option<Field>): int
    requires CountSlot(key) < |t| && t[CountSlot(key)].Some? && t[CountSlot(key)].value.IntField?
  {
    t[CountSlot(key)].value.intValue
  }

  /**
   * One merge into the group of `key`: start from the stored tuple, or from a
   * fresh tuple of `width` null slots with count 0; store the key (non-null
   * key) and the count plus one; put the tuple back.
   */
  function MergeStep(g: Groups, width: nat, key: Option<Field>): Groups
    requires CountSlot(key) < width
    requires key in g ==> GroupOk(g[key], key, width)
  {
    var t := if key in g then g[key] else Nulls(width);
    var v := if key in g then StoredCount(g[key], key) else 0;
    var t' := if key.None? then t[0 := Some(IntField(v + 1))] else t[0 := key][1 := Some(IntField(v + 1))];
    g[key := t']
  }

  /** MergeStep touches only the merged key's group, whose count goes up by one (to 1 for a new group). */
  lemma MergeStepEffect(g: Groups, width: nat, key: Option<Field>)
    requires CountSlot(key) < width
    requires key in g ==> GroupOk(g[key], key, width)
    ensures MergeStep(g, width, key).Keys == g.Keys + {key}
    ensures GroupOk(MergeStep(g, width, key)[key], key, width)
    ensures StoredCount(MergeStep(g, width, key)[key], key) == (if key in g then StoredCount(g[key], key) else 0) + 1
    ensures forall k :: k in g && k != key ==> MergeStep(g, width, key)[k] == g[k]
  {
  }

  /** The groups after merging the keys in order into an empty map. */
  function Fold(keys: seq<Option<Field>>, width: nat): (g: Groups)
    requires forall i :: 0 <= i < |keys| ==> CountSlot(keys[i]) < width
    ensures forall k :: k in g ==> GroupOk(g[k], k, width)
    decreases |keys|
  {
    if keys == [] then map[]
    else
      var init := keys[..|keys| - 1];
      MergeStep(Fold(init, width), width, keys[|keys| - 1])
  }

  /** Exactly the merged keys have a group, and each group's count is how often its key was merged. */
  lemma {:induction false} FoldCounts(keys: seq<Option<Field>>, width: nat)
    requires forall i :: 0 <= i < |keys| ==> CountSlot(keys[i]) < width
    ensures forall k :: k in Fold(keys, width) <==> k in keys
    ensures forall k :: k in Fold(keys, width) ==> StoredCount(Fold(keys, width)[k], k) == multiset(keys)[k]
    decreases |keys|
  {
    if keys != [] {
      var init, last := keys[..|keys| - 1], keys[|keys| - 1];
      FoldCounts(init, width);
      MergeStepEffect(Fold(init, width), width, last);
      assert keys == init + [last];
      assert multiset(keys) == multiset(init) + multiset{last};
      forall k
        ensures k in Fold(keys, width) <==> k in keys
      {
        assert k in keys <==> k in init || k == last;
      }
    }
  }

  /** Distinct groups hold distinct tuples, so the result has exactly one tuple per group key. */
  lemma GroupTuplesDistinct(keys: seq<Option<Field>>, width: nat, k1: Option<Field>, k2: Option<Field>)
    requires forall i :: 0 <= i < |keys| ==> CountSlot(keys[i]) < width
    requires k1 in Fold(keys, width) && k2 in Fold(keys, width) && k1 != k2
    ensures Fold(keys, width)[k1] != Fold(keys, width)[k2]
  {
    var g := Fold(keys, width);
    if k1.Some? && k2.Some? {
      assert g[k1][0] == k1 && g[k2][0] == k2;
    } else if k1.None? {
      assert g[k1][1].None? && g[k2][1].Some?;
    } else {
      assert g[k1][1].Some? && g[k2][1].None?;
    }
  }

  /**
   * Without grouping every key is null: once anything is merged there is a
   * single group, under the null key, whose count is the number of tuples.
   */
  lemma NoGroupingSingleGroup(keys: seq<Option<Field>>, width: nat)
    requires width >= 1
    requires forall i :: 0 <= i < |keys| ==> keys[i].None?
    ensures keys == [] ==> Fold(keys, width) == map[]
    ensures keys != [] ==> Fold(keys, width).Keys == {None}
    ensures keys != [] ==> StoredCount(Fold(keys, width)[None], None) == |keys|
  {
    FoldCounts(keys, width);
    if keys != [] {
      assert keys[0] in keys;
      forall k | k in Fold(keys, width)
        ensures k == None
      {
        var i :| 0 <= i < |keys| && keys[i] == k;
      }
      assert multiset(keys)[None] == |keys| by {
        AllSameCount(keys, None);
      }
    }
  }

  lemma {:induction false} AllSameCount(keys: seq<Option<Field>>, k: Option<Field>)
    requires forall i :: 0 <= i < |keys| ==> keys[i] == k
    ensures multiset(keys)[k] == |keys|
    decreases |keys|
  {
    if keys != [] {
      var init := keys[..|keys| - 1];
      AllSameCount(init, k);
      assert keys == init + [keys[|keys| - 1]];
    }
  }

  /**
   * mergeTupleIntoGroup's first reads: the group key (null without grouping)
   * and the aggregate field, which must be a string; the errors are those of
   * the list index, the null dereference and the cast, in that order.
   */
  function KeyOf(gbfield: int, afield: int, fields: Slots): (r: Result<Option<Field>>)
    ensures r.Ok? <==>
      && (gbfield == NoGrouping || 0 <= gbfield < |fields|)
      && 0 <= afield < |fields| && fields[afield].Some? && fields[afield].value.StringField?
    ensures r.Ok? ==> r.value == if gbfield == NoGrouping then None else fields[gbfield]
  {
    if gbfield != NoGrouping && !(0 <= gbfield < |fields|) then Err(IndexOutOfBounds)
    else if !(0 <= afield < |fields|) then Err(IndexOutOfBounds)
    else if fields[afield].None? then Err(NullPointer)
    else if !fields[afield].value.StringField? then Err(ClassCast)
    else Ok(if gbfield == NoGrouping then None else fields[gbfield])
  }

  class StringAggregator {
    const gbfield: int
    const afield: int
    const tupleDesc: TupleDesc
    var groupTuple: Groups
    /** The group keys merged so far, in order. */
    ghost var merged: seq<Option<Field>>

    ghost predicate Valid()
      reads this
    {
      && (gbfield == NoGrouping ==> NumFields(tupleDesc) == 1)
      && (gbfield != NoGrouping ==> NumFields(tupleDesc) == 2)
      && (gbfield == NoGrouping ==> forall i :: 0 <= i < |merged| ==> merged[i].None?)
      && (forall i :: 0 <= i < |merged| ==> CountSlot(merged[i]) < NumFields(tupleDesc))
      && groupTuple == Fold(merged, NumFields(tupleDesc))
    }

    constructor (gbfield: int, afield: int, tupleDesc: TupleDesc)
      requires gbfield == NoGrouping ==> NumFields(tupleDesc) == 1
      requires gbfield != NoGrouping ==> NumFields(tupleDesc) == 2
      ensures Valid() && groupTuple == map[] && merged == []
      ensures this.gbfield == gbfield && this.afield == afield && this.tupleDesc == tupleDesc
    {
      this.gbfield := gbfield;
      this.afield := afield;
      this.tupleDesc := tupleDesc;
      this.groupTuple := map[];
      this.merged := [];
    }

    /**
     * mergeTupleIntoGroup: on a readable tuple, MergeStep on its key; on an
     * error nothing changes.
     */
    method MergeTupleIntoGroup(tup: Tuple) returns (r: Result<()>)
      requires Valid()
      modifies this
      ensures Valid()
      ensures KeyOf(gbfield, afield, tup.fields).Err? ==>
        r == Err(KeyOf(gbfield, afield, tup.fields).error) && groupTuple == old(groupTuple) && merged == old(merged)
      ensures KeyOf(gbfield, afield, tup.fields).Ok? ==>
        && r.Ok?
        && merged == old(merged) + [KeyOf(gbfield, afield, tup.fields).value]
        && groupTuple == MergeStep(old(groupTuple), NumFields(tupleDesc), KeyOf(gbfield, afield, tup.fields).value)
    {
      var key: Option<Field> := None;
      if gbfield != NoGrouping {
        if !(0 <= gbfield < |tup.fields|) {
          return Err(IndexOutOfBounds);
        }
        key := tup.GetField(gbfield);
      }
      if !(0 <= afield < |tup.fields|) {
        return Err(IndexOutOfBounds);
      }
      var a := tup.GetField(afield);
      if a.None? {
        return Err(NullPointer);
      }
      if !a.value.StringField? {
        return Err(ClassCast);
      }
      var width := NumFields(tupleDesc);
      var oldTuple: Option<Slots> := if key in groupTuple then Some(groupTuple[key]) else None;
      var newTuple := if oldTuple.None? then Nulls(width) else oldTuple.value;
      var v: int;
      if oldTuple.None? {
        v := 0;
      } else if key.None? {
        v := oldTuple.value[0].value.intValue;
      } else {
        v := oldTuple.value[1].value.intValue;
      }
      if key.None? {
        newTuple := newTuple[0 := Some(IntField(v + 1))];
      } else {
        newTuple := newTuple[0 := key];
        newTuple := newTuple[1 := Some(IntField(v + 1))];
      }
      groupTuple := groupTuple[key := newTuple];
      merged := merged + [key];
      assert merged[..|merged| - 1] == old(merged);
      r := Ok(());
    }

    /** iterator: the group tuples, one per group key (see GroupTuplesDistinct). */
    function Iterator(): (ts: set<Slots>)
      reads this
      requires Valid()
      ensures forall t :: t in ts ==> exists k :: k in groupTuple && k in merged && groupTuple[k] == t
      ensures forall k :: k in merged ==> k in groupTuple && groupTuple[k] in ts
    {
      FoldCounts(merged, NumFields(tupleDesc));
      groupTuple.Values
    }
  }

  /**
   * The StringAggregator constructor: only COUNT is accepted; the output schema
   * is (INT) without grouping and (gbfieldtype, INT) with it.
   */
  method NewStringAggregator(gbfield: int, gbfieldtype: Type, afield: int, what: Op) returns (r: Result<StringAggregator>)
    ensures r.Err? <==> what != Count
    ensures r.Err? ==> r.error == IllegalArgument
    ensures r.Ok? ==> fresh(r.value) && r.value.Valid() && r.value.groupTuple == map[]
    ensures r.Ok? ==> r.value.gbfield == gbfield && r.value.afield == afield
    ensures r.Ok? && gbfield == NoGrouping ==> r.value.tupleDesc.items == [TDItem(IntType, None)]
    ensures r.Ok? && gbfield != NoGrouping ==>
      r.value.tupleDesc.items == [TDItem(gbfieldtype, None), TDItem(IntType, None)]
  {
    if what != Count {
      return Err(IllegalArgument);
    }
    var td: TupleDesc;
    if gbfield == NoGrouping {
      td := FromTypes([IntType]);
    } else {
      td := FromTypes([gbfieldtype, IntType]);
    }
    var agg := new StringAggregator(gbfield, afield, td);
    return Ok(agg);
  }
}
