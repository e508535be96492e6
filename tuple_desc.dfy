/**
 * TupleDesc: a table schema, an ordered list of (type, optional name) items.
 * A descriptor is never changed once built, so it is a value here; the
 * constructors, `merge`, `getSize`, `fieldNameToIndex` and `equals` are loops,
 * proved against the functions below.
 */
module TupleDescs {
  import opened Common

  /** One column: its type and its (possibly null) name. */
  datatype TDItem = TDItem(fieldType: Type, fieldName: Option<string>)

  datatype TupleDesc = TupleDesc(items: seq<TDItem>)

  function NumFields(td: TupleDesc): nat {
    |td.items|
  }

  /** The descriptor built by the no-argument constructor. */
  const EmptyDesc: TupleDesc := TupleDesc([])

  /** getFieldName: the name of field i, NoSuchElement outside 0 <= i < numFields. */
  function GetFieldName(td: TupleDesc, i: int): (r: Result<Option<string>>)
    ensures r.Ok? <==> 0 <= i < NumFields(td)
    ensures r.Ok? ==> r.value == td.items[i].fieldName
    ensures r.Err? ==> r.error == NoSuchElement
  {
    if i < 0 || i >= |td.items| then Err(NoSuchElement) else Ok(td.items[i].fieldName)
  }

  /** getFieldType: the type of field i, NoSuchElement outside 0 <= i < numFields. */
  function GetFieldType(td: TupleDesc, i: int): (r: Result<Type>)
    ensures r.Ok? <==> 0 <= i < NumFields(td)
    ensures r.Ok? ==> r.value == td.items[i].fieldType
    ensures r.Err? ==> r.error == NoSuchElement
  {
    if i < 0 || i >= |td.items| then Err(NoSuchElement) else Ok(td.items[i].fieldType)
  }

  // ---------------------------------------------------------------------------
  // Construction

  /**
   * TupleDesc(typeAr, fieldAr): item i is (typeAr[i], fieldAr[i]). A name array
   * shorter than the type array makes the loop index past its end.
   */
  method FromTypesAndNames(typeAr: seq<Type>, fieldAr: seq<Option<string>>) returns (r: Result<TupleDesc>)
    ensures r.Ok? <==> |fieldAr| >= |typeAr|
    ensures r.Err? ==> r.error == IndexOutOfBounds
    ensures r.Ok? ==> NumFields(r.value) == |typeAr|
    ensures r.Ok? ==> forall i :: 0 <= i < |typeAr| ==> r.value.items[i] == TDItem(typeAr[i], fieldAr[i])
  {
    var items: seq<TDItem> := [];
    var i := 0;
    while i < |typeAr|
      invariant 0 <= i <= |typeAr|
      invariant i <= |fieldAr|
      invariant |items| == i
      invariant forall k :: 0 <= k < i ==> items[k] == TDItem(typeAr[k], fieldAr[k])
    {
      if i >= |fieldAr| {
        return Err(IndexOutOfBounds);
      }
      items := items + [TDItem(typeAr[i], fieldAr[i])];
      i := i + 1;
    }
    r := Ok(TupleDesc(items));
  }

  /** TupleDesc(typeAr): item i is (typeAr[i], null). */
  method FromTypes(typeAr: seq<Type>) returns (td: TupleDesc)
    ensures NumFields(td) == |typeAr|
    ensures forall i :: 0 <= i < |typeAr| ==> td.items[i] == TDItem(typeAr[i], None)
  {
    var items: seq<TDItem> := [];
    for i := 0 to |typeAr|
      invariant |items| == i
      invariant forall k :: 0 <= k < i ==> items[k] == TDItem(typeAr[k], None)
    {
      items := items + [TDItem(typeAr[i], None)];
    }
    td := TupleDesc(items);
  }

  // ---------------------------------------------------------------------------
  // Field search

  /** k is the smallest index whose name equals `name`. */
  ghost predicate IsFirstMatch(td: TupleDesc, name: string, k: int) {
    && 0 <= k < |td.items|
    && td.items[k].fieldName == Some(name)
    && forall j :: 0 <= j < k ==> td.items[j].fieldName != Some(name)
  }

  /**
   * fieldNameToIndex: the first field named `name`; NoSuchElement for a null
   * name or when no field carries that name.
   */
  method FieldNameToIndex(td: TupleDesc, name: Option<string>) returns (r: Result<nat>)
    ensures r.Ok? ==> name.Some? && IsFirstMatch(td, name.value, r.value)
    ensures r.Err? ==> r.error == NoSuchElement
    ensures r.Err? <==> name.None? || forall j :: 0 <= j < |td.items| ==> td.items[j].fieldName != name
  {
    if name.None? {
      return Err(NoSuchElement);
    }
    var i := 0;
    while i < |td.items|
      invariant 0 <= i <= |td.items|
      invariant forall j :: 0 <= j < i ==> td.items[j].fieldName != name
    {
      if td.items[i].fieldName == name {
        return Ok(i);
      }
      i := i + 1;
    }
    r := Err(NoSuchElement);
  }

  // ---------------------------------------------------------------------------
  // Size

  /** The byte width of a tuple: the sum of the item types' widths. */
  function SizeOf(items: seq<TDItem>): nat
    decreases |items|
  {
    if items == [] then 0 else SizeOf(items[..|items| - 1]) + items[|items| - 1].fieldType.Len()
  }

  lemma {:induction false} SizeOfAppend(a: seq<TDItem>, b: seq<TDItem>)
    ensures SizeOf(a + b) == SizeOf(a) + SizeOf(b)
    decreases |b|
  {
    if b != [] {
      var b' := b[..|b| - 1];
      assert (a + b)[..|a + b| - 1] == a + b';
      SizeOfAppend(a, b');
    } else {
      assert a + b == a;
    }
  }

  /** Every field is at least 4 and at most 132 bytes wide. */
  lemma {:induction false} SizeOfBounds(items: seq<TDItem>)
    ensures 4 * |items| <= SizeOf(items) <= (StringLen + 4) * |items|
    decreases |items|
  {
    if items != [] {
      SizeOfBounds(items[..|items| - 1]);
    }
  }

  /** getSize: the loop sums the widths in order. */
  method GetSize(td: TupleDesc) returns (size: nat)
    ensures size == SizeOf(td.items)
  {
    size := 0;
    for i := 0 to |td.items|
      invariant size == SizeOf(td.items[..i])
    {
      assert td.items[..i + 1][..i] == td.items[..i];
      size := size + td.items[i].fieldType.Len();
    }
    assert td.items[..|td.items|] == td.items;
  }

  // ---------------------------------------------------------------------------
  // Merge

  /** The concatenation `merge` builds from two non-null descriptors. */
  function Concat(td1: TupleDesc, td2: TupleDesc): TupleDesc {
    TupleDesc(td1.items + td2.items)
  }

  /**
   * merge(td1, td2): td1's items followed by td2's; a null operand yields the
   * other operand (td1 when td2 is null).
   */
  method Merge(td1: Option<TupleDesc>, td2: Option<TupleDesc>) returns (r: Option<TupleDesc>)
    ensures td2.None? ==> r == td1
    ensures td2.Some? && td1.None? ==> r == td2
    ensures td1.Some? && td2.Some? ==> r == Some(Concat(td1.value, td2.value))
  {
    if td2.None? {
      return td1;
    }
    if td1.None? {
      return td2;
    }
    var a, b := td1.value.items, td2.value.items;
    var items: seq<TDItem> := [];
    for i := 0 to |a|
      invariant items == a[..i]
    {
      items := items + [a[i]];
    }
    assert a[..|a|] == a;
    for i := 0 to |b|
      invariant items == a + b[..i]
    {
      assert b[..i + 1] == b[..i] + [b[i]];
      items := items + [b[i]];
    }
    assert b[..|b|] == b;
    r := Some(TupleDesc(items));
  }

  /** A merged descriptor: counts and sizes add up, and each field keeps its place. */
  lemma ConcatProperties(td1: TupleDesc, td2: TupleDesc)
    ensures NumFields(Concat(td1, td2)) == NumFields(td1) + NumFields(td2)
    ensures SizeOf(Concat(td1, td2).items) == SizeOf(td1.items) + SizeOf(td2.items)
    ensures forall i :: 0 <= i < NumFields(td1) ==>
      GetFieldType(Concat(td1, td2), i) == GetFieldType(td1, i) &&
      GetFieldName(Concat(td1, td2), i) == GetFieldName(td1, i)
    ensures forall j :: 0 <= j < NumFields(td2) ==>
      GetFieldType(Concat(td1, td2), NumFields(td1) + j) == GetFieldType(td2, j) &&
      GetFieldName(Concat(td1, td2), NumFields(td1) + j) == GetFieldName(td2, j)
  {
    SizeOfAppend(td1.items, td2.items);
    var c := Concat(td1, td2);
    forall i | 0 <= i < NumFields(td1)
      ensures GetFieldType(c, i) == GetFieldType(td1, i) && GetFieldName(c, i) == GetFieldName(td1, i)
    {
      assert c.items[i] == td1.items[i];
    }
    forall j | 0 <= j < NumFields(td2)
      ensures GetFieldType(c, NumFields(td1) + j) == GetFieldType(td2, j)
      ensures GetFieldName(c, NumFields(td1) + j) == GetFieldName(td2, j)
    {
      assert c.items[NumFields(td1) + j] == td2.items[j];
    }
  }

  // ---------------------------------------------------------------------------
  // Equality

  /** The equality of descriptors: same number of fields and the same type at every position. */
  ghost predicate SameTypes(a: TupleDesc, b: TupleDesc) {
    && |a.items| == |b.items|
    && forall i :: 0 <= i < |a.items| ==> a.items[i].fieldType == b.items[i].fieldType
  }

  lemma {:induction false} SameTypesSameSize(a: seq<TDItem>, b: seq<TDItem>)
    requires SameTypes(TupleDesc(a), TupleDesc(b))
    ensures SizeOf(a) == SizeOf(b)
    decreases |a|
  {
    if a != [] {
      SameTypesSameSize(a[..|a| - 1], b[..|b| - 1]);
    }
  }

  /** Type-only equality is reflexive, symmetric and transitive; names never matter. */
  lemma SameTypesIsEquivalence(a: TupleDesc, b: TupleDesc, c: TupleDesc)
    ensures SameTypes(a, a)
    ensures SameTypes(a, b) ==> SameTypes(b, a)
    ensures SameTypes(a, b) && SameTypes(b, c) ==> SameTypes(a, c)
  {
  }

  /**
   * equals: false for a null (or non-descriptor) operand; otherwise compares
   * sizes and field counts first, then the type at each position.
   */
  method Equals(self: TupleDesc, o: Option<TupleDesc>) returns (eq: bool)
    ensures eq <==> o.Some? && SameTypes(self, o.value)
  {
    if o.None? {
      return false;
    }
    var other := o.value;
    var s1 := GetSize(other);
    var s2 := GetSize(self);
    if s1 != s2 || |other.items| != |self.items| {
      assert !SameTypes(self, other) by {
        if SameTypes(self, other) {
          SameTypesSameSize(self.items, other.items);
        }
      }
      return false;
    }
    var i := 0;
    while i < |self.items|
      invariant 0 <= i <= |self.items|
      invariant forall k :: 0 <= k < i ==> self.items[k].fieldType == other.items[k].fieldType
    {
      if self.items[i].fieldType != other.items[i].fieldType {
        return false;
      }
      i := i + 1;
    }
    eq := true;
  }
}
