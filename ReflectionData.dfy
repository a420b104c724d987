/** The conversion of a runtime object graph into a `Data` tree
    (src/QuickCheck/Internal/ReflectionData.cs).

    A runtime object is one of: a primitive or a string, an enumerable
    object with its elements, or any other instance, described by the chain
    of its runtime type and that type's base types, each level with the
    values of the instance fields it declares. Being a datatype, the object
    graph is acyclic; the source has no cycle detection and would not
    terminate on a cycle. */
module ReflectionData {
  import opened Data

  datatype Obj =
    | Primitive(prim: Prim)
    | Enumerable(items: seq<Ref>)
    | Instance(runtimeType: Level)

  /** A reference that may be `null`. */
  datatype Ref = Nil | Ref(obj: Obj)

  /** One type of an inheritance chain: its name, the instance fields it
      declares itself (public or not) with their values in this instance,
      and its base type, `NoType` above the root. */
  datatype Level = Level(name: string, declared: seq<FieldValue>, base: TypeRef)

  datatype TypeRef = NoType | Type(level: Level)

  datatype FieldValue = FieldValue(name: string, value: Ref)

  /** The fields the walk up the base types gathers: the runtime type's own
      first, then each base type's in turn. */
  function AllFields(l: Level): (fs: seq<FieldValue>)
    ensures l.declared <= fs
    decreases l
  {
    l.declared + (if l.base.Type? then AllFields(l.base.level) else [])
  }

  /** What `CreateFrom` returns: `null` for `null`; a leaf for a primitive
      or a string; a list of the converted elements, in order, for an
      enumerable; an object named by the runtime type holding the converted
      fields otherwise. */
  function Convert(r: Ref): Slot
    decreases r, 0
  {
    match r
    case Nil => Null
    case Ref(o) => Some(ConvertObj(o))
  }

  function ConvertObj(o: Obj): Data
    decreases o, 1
  {
    match o
    case Primitive(p) => Value(p)
    case Enumerable(items) => List(seq(|items|, i requires 0 <= i < |items| => Convert(items[i])))
    case Instance(l) => Object(l.name, ConvertFields(l))
  }

  function ConvertFields(l: Level): seq<Field>
    decreases l, 0
  {
    seq(|l.declared|, j requires 0 <= j < |l.declared| => Field(l.declared[j].name, Convert(l.declared[j].value))) +
    (if l.base.Type? then ConvertFields(l.base.level) else [])
  }

  /** The converted fields are the gathered fields, one for one and in the
      same order, each keeping its name and holding its converted value. */
  lemma {:induction false} ConvertFieldsOrder(l: Level)
    ensures |ConvertFields(l)| == |AllFields(l)|
    ensures forall k :: 0 <= k < |AllFields(l)| ==>
      ConvertFields(l)[k] == Field(AllFields(l)[k].name, Convert(AllFields(l)[k].value))
    decreases l
  {
    if l.base.Type? {
      ConvertFieldsOrder(l.base.level);
    }
  }

  /** Every gathered field value lies inside the instance. */
  lemma {:induction false} FieldsBelow(l: Level)
    ensures forall k :: 0 <= k < |AllFields(l)| ==> (l decreases to AllFields(l)[k].value)
    decreases l
  {
    if l.base.Type? {
      FieldsBelow(l.base.level);
    }
  }

  /** The `while` loop over `ftype`: appends the fields each type declares
      and moves to its base type until there is none. */
  method CollectFields(l: Level) returns (fields: seq<FieldValue>)
    ensures fields == AllFields(l)
  {
    fields := [];
    var ftype := Type(l);
    while ftype.Type?
      invariant fields + (if ftype.Type? then AllFields(ftype.level) else []) == AllFields(l)
      decreases ftype
    {
      fields := fields + ftype.level.declared;
      ftype := ftype.level.base;
    }
  }

  /** `CreateFrom`. */
  method CreateFrom(r: Ref) returns (s: Slot)
    ensures s == Convert(r)
    decreases r
  {
    if r.Nil? {
      return Null;
    }
    match r.obj
    case Primitive(p) =>
      return Some(Value(p));
    case Enumerable(items) =>
      var converted: seq<Slot> := [];
      var i := 0;
      while i < |items|
        invariant 0 <= i <= |items| && |converted| == i
        invariant forall k :: 0 <= k < i ==> converted[k] == Convert(items[k])
      {
        var c := CreateFrom(items[i]);
        converted := converted + [c];
        i := i + 1;
      }
      assert converted == ConvertObj(r.obj).items;
      return Some(List(converted));
    case Instance(l) =>
      var fields := CollectFields(l);
      FieldsBelow(l);
      ConvertFieldsOrder(l);
      var values: seq<Field> := [];
      var k := 0;
      while k < |fields|
        invariant 0 <= k <= |fields| && |values| == k
        invariant forall j :: 0 <= j < k ==> values[j] == ConvertFields(l)[j]
      {
        assert r decreases to fields[k].value;
        var c := CreateFrom(fields[k].value);
        values := values + [Field(fields[k].name, c)];
        k := k + 1;
      }
      assert values == ConvertFields(l);
      return Some(Object(l.name, values));
  }

  /** `null` converts to `null`; anything else to a tree. */
  lemma NullIffNull(r: Ref)
    ensures Convert(r).Null? <==> r.Nil?
  {
  }

  /** A list keeps the length and order of the enumeration. */
  lemma EnumerableOrder(items: seq<Ref>)
    ensures var d := ConvertObj(Enumerable(items));
      d.List? && |d.items| == |items| &&
      forall i :: 0 <= i < |items| ==> d.items[i] == Convert(items[i])
  {
  }

  /** An object's keys are the field names, the runtime type's fields first
      and its base types' after them. Names declared on two levels repeat. */
  lemma ObjectKeys(l: Level)
    ensures var d := ConvertObj(Instance(l));
      d.Object? && d.typeName == l.name &&
      |d.fields| == |AllFields(l)| &&
      (forall k :: 0 <= k < |d.fields| ==> d.fields[k].key == AllFields(l)[k].name) &&
      (forall k :: 0 <= k < |l.declared| ==> d.fields[k].key == l.declared[k].name)
  {
    ConvertFieldsOrder(l);
  }
}
