/** The structural value model (src/QuickCheck/Internal/Data.cs): a tree of
    primitive leaves, lists and objects with named fields, its text
    rendering through a `StringBuilder`, its equality and its hash.

    A list item or a field value can be `null` in the source; here that is
    the `Null` slot. The factories `Data.Value`, `Data.List` and
    `Data.Object` copy their input in order, which is what the datatype
    constructors do. */
module Data {
  import opened Words
  import opened Outcomes
  import opened Text
  import opened Sequence

  /** A boxed primitive or string. Floating-point values are kept as the
      text their `ToString()` would give. */
  datatype Prim =
    | Str(s: string)
    | Chr(c: char)
    | Integer(typeName: string, value: int)
    | Boolean(b: bool)
    | Real(typeName: string, text: string)

  /** The runtime type name of the primitive. */
  function TypeName(p: Prim): string {
    match p
    case Str(_) => "String"
    case Chr(_) => "Char"
    case Integer(t, _) => t
    case Boolean(_) => "Boolean"
    case Real(t, _) => t
  }

  /** `ToString()` of the primitive. */
  function PrimText(p: Prim): string {
    match p
    case Str(s) => s
    case Chr(c) => [c]
    case Integer(_, v) => IntText(v)
    case Boolean(b) => if b then "True" else "False"
    case Real(_, t) => t
  }

  datatype Data =
    | Value(prim: Prim)
    | List(items: seq<Slot>)
    | Object(typeName: string, fields: seq<Field>)

  /** A reference to a `Data` that may be `null`. */
  datatype Slot = Null | Some(data: Data)

  datatype Field = Field(key: string, value: Slot)

  // Rendering

  /** The text of a leaf: strings in double quotes and chars in single
      quotes, neither escaped; any other primitive as its `ToString()`. */
  function LeafText(p: Prim): (s: string)
    ensures p.Str? ==> s == "\"" + p.s + "\""
    ensures p.Chr? ==> s == "'" + [p.c] + "'"
    ensures !p.Str? && !p.Chr? ==> s == PrimText(p)
  {
    match p
    case Str(s) => "\"" + s + "\""
    case Chr(c) => "'" + [c] + "'"
    case _ => PrimText(p)
  }

  /** What `ToString()` gives, or the exception it throws: a `null` list
      item is dereferenced and throws. */
  function Render(d: Data): Outcome<string>
    decreases d, 1
  {
    match d
    case Value(p) => Ok(LeafText(p))
    case List(items) =>
      var body := ItemsText(d, |items|);
      if body.Throw? then body else Ok("[" + body.value + "]")
    case Object(t, fields) =>
      if |fields| == 0 then Ok(t)
      else
        var body := FieldsText(d, |fields|);
        if body.Throw? then body else Ok(t + " {" + body.value + "}")
  }

  /** The first `n` items of a list, separated by `", "`. */
  function ItemsText(d: Data, n: nat): Outcome<string>
    requires d.List? && n <= |d.items|
    decreases d, 0, n
  {
    if n == 0 then Ok("")
    else
      var prev := ItemsText(d, n - 1);
      var item := d.items[n - 1];
      if prev.Throw? then prev
      else if item.Null? then Throw(Runtime(NullReference))
      else
        var r := Render(item.data);
        if r.Throw? then r
        else Ok(prev.value + (if n > 1 then ", " else "") + r.value)
  }

  /** The text of one field's value: `null`, or the value's `ToString()`. */
  function SlotText(d: Data, k: nat): Outcome<string>
    requires d.Object? && k < |d.fields|
    decreases d, 0, 0
  {
    var v := d.fields[k].value;
    if v.Null? then Ok("null") else Render(v.data)
  }

  /** The first `n` fields of an object as `key = value`, separated by `", "`. */
  function FieldsText(d: Data, n: nat): Outcome<string>
    requires d.Object? && n <= |d.fields|
    decreases d, 0, n + 1
  {
    if n == 0 then Ok("")
    else
      var prev := FieldsText(d, n - 1);
      var v := SlotText(d, n - 1);
      if prev.Throw? then prev
      else if v.Throw? then v
      else Ok(prev.value + (if n > 1 then ", " else "") + d.fields[n - 1].key + " = " + v.value)
  }

  /** Some list item, in this value or below it, is `null`. */
  predicate NullItemBelow(d: Data)
    decreases d
  {
    match d
    case Value(_) => false
    case List(items) =>
      exists i :: 0 <= i < |items| && (items[i].Null? || NullItemBelow(items[i].data))
    case Object(_, fields) =>
      exists i :: 0 <= i < |fields| && fields[i].value.Some? && NullItemBelow(fields[i].value.data)
  }

  /** Rendering throws exactly when a `null` list item is reached. */
  lemma {:induction false} RenderThrowsIff(d: Data)
    ensures Render(d).Throw? <==> NullItemBelow(d)
    ensures Render(d).Throw? ==> Render(d).error == Runtime(NullReference)
    decreases d, 1
  {
    match d
    case Value(_) =>
    case List(items) => ItemsThrowIff(d, |items|);
    case Object(_, fields) => FieldsThrowIff(d, |fields|);
  }

  lemma {:induction false} ItemsThrowIff(d: Data, n: nat)
    requires d.List? && n <= |d.items|
    ensures ItemsText(d, n).Throw? <==>
      exists i :: 0 <= i < n && (d.items[i].Null? || NullItemBelow(d.items[i].data))
    ensures ItemsText(d, n).Throw? ==> ItemsText(d, n).error == Runtime(NullReference)
    decreases d, 0, n
  {
    if n > 0 {
      ItemsThrowIff(d, n - 1);
      if d.items[n - 1].Some? {
        RenderThrowsIff(d.items[n - 1].data);
      }
    }
  }

  lemma {:induction false} FieldsThrowIff(d: Data, n: nat)
    requires d.Object? && n <= |d.fields|
    ensures FieldsText(d, n).Throw? <==>
      exists i :: 0 <= i < n && d.fields[i].value.Some? && NullItemBelow(d.fields[i].value.data)
    ensures FieldsText(d, n).Throw? ==> FieldsText(d, n).error == Runtime(NullReference)
    decreases d, 0, n + 1
  {
    if n > 0 {
      FieldsThrowIff(d, n - 1);
      if d.fields[n - 1].value.Some? {
        RenderThrowsIff(d.fields[n - 1].value.data);
      }
    }
  }

  /** Once an item throws, every longer prefix throws the same. */
  lemma {:induction false} ItemsThrowPersists(d: Data, i: nat, j: nat)
    requires d.List? && i <= j <= |d.items| && ItemsText(d, i).Throw?
    ensures ItemsText(d, j) == ItemsText(d, i)
    decreases j - i
  {
    if i < j {
      ItemsThrowPersists(d, i, j - 1);
    }
  }

  lemma {:induction false} FieldsThrowPersists(d: Data, i: nat, j: nat)
    requires d.Object? && i <= j <= |d.fields| && FieldsText(d, i).Throw?
    ensures FieldsText(d, j) == FieldsText(d, i)
    decreases j - i
  {
    if i < j {
      FieldsThrowPersists(d, i, j - 1);
    }
  }

  /** The shape of the rendered text. */
  lemma RenderShapes(d: Data)
    requires Render(d).Ok?
    ensures d.List? ==> (|Render(d).value| >= 2 && Render(d).value[0] == '[' &&
                         Render(d).value[|Render(d).value| - 1] == ']')
    ensures d.List? && d.items == [] ==> Render(d).value == "[]"
    ensures d.Object? && d.fields == [] ==> Render(d).value == d.typeName
    ensures d.Object? && d.fields != [] ==>
      Render(d).value == d.typeName + " {" + FieldsText(d, |d.fields|).value + "}"
  {
  }

  /** A `StringBuilder`: text that only grows. */
  class StringBuilder {
    var text: string

    constructor ()
      ensures text == ""
    {
      text := "";
    }

    method Append(s: string)
      modifies this
      ensures text == old(text) + s
    {
      text := text + s;
    }
  }

  /** `AppendTo`: appends the rendering to the builder's content. When it
      throws, what was appended before the exception stays. */
  method AppendTo(d: Data, sb: StringBuilder) returns (o: Outcome<()>)
    modifies sb
    ensures o.Ok? <==> Render(d).Ok?
    ensures o.Ok? ==> sb.text == old(sb.text) + Render(d).value
    ensures o.Throw? ==> o.error == Render(d).error
    ensures old(sb.text) <= sb.text
    decreases d, 2
  {
    match d
    case Value(p) =>
      sb.Append(LeafText(p));
      return Ok(());
    case List(_) =>
      o := AppendList(d, sb);
    case Object(_, _) =>
      o := AppendObject(d, sb);
  }

  /** `DataList.AppendTo`: `[`, the items with a comma flag, `]`. */
  method AppendList(d: Data, sb: StringBuilder) returns (o: Outcome<()>)
    requires d.List?
    modifies sb
    ensures o.Ok? <==> Render(d).Ok?
    ensures o.Ok? ==> sb.text == old(sb.text) + Render(d).value
    ensures o.Throw? ==> o.error == Render(d).error
    ensures old(sb.text) <= sb.text
    decreases d, 1
  {
    var items := d.items;
    ghost var start := sb.text;
    sb.Append("[");
    var comma := false;
    var i := 0;
    while i < |items|
      invariant 0 <= i <= |items| && comma == (i > 0)
      invariant ItemsText(d, i).Ok?
      invariant sb.text == start + "[" + ItemsText(d, i).value
    {
      if comma {
        sb.Append(", ");
      }
      var item := items[i];
      if item.Null? {
        ItemsThrowPersists(d, i + 1, |items|);
        return Throw(Runtime(NullReference));
      }
      ghost var before := sb.text;
      var r := AppendTo(item.data, sb);
      if r.Throw? {
        assert start <= before <= sb.text;
        ItemsThrowPersists(d, i + 1, |items|);
        return r;
      }
      comma := true;
      i := i + 1;
    }
    sb.Append("]");
    return Ok(());
  }

  /** `DataObject.AppendTo`: the type name, then ` {`, the fields as
      `key = value` with a comma flag, `}`; nothing after the name when there
      are no fields. */
  method AppendObject(d: Data, sb: StringBuilder) returns (o: Outcome<()>)
    requires d.Object?
    modifies sb
    ensures o.Ok? <==> Render(d).Ok?
    ensures o.Ok? ==> sb.text == old(sb.text) + Render(d).value
    ensures o.Throw? ==> o.error == Render(d).error
    ensures old(sb.text) <= sb.text
    decreases d, 1
  {
    ghost var start := sb.text;
    sb.Append(d.typeName);
    if |d.fields| == 0 {
      return Ok(());
    }
    sb.Append(" {");
    o := AppendFields(d, sb);
    if o.Throw? {
      return;
    }
    sb.Append("}");
    assert sb.text == start + (d.typeName + " {" + FieldsText(d, |d.fields|).value + "}");
  }

  /** The loop of `DataObject.AppendTo` over the fields. */
  method AppendFields(d: Data, sb: StringBuilder) returns (o: Outcome<()>)
    requires d.Object?
    modifies sb
    ensures o.Ok? <==> FieldsText(d, |d.fields|).Ok?
    ensures o.Ok? ==> sb.text == old(sb.text) + FieldsText(d, |d.fields|).value
    ensures o.Throw? ==> o.error == FieldsText(d, |d.fields|).error
    ensures old(sb.text) <= sb.text
    decreases d, 0, 1
  {
    var fields := d.fields;
    ghost var head := sb.text;
    var comma := false;
    var i := 0;
    while i < |fields|
      invariant 0 <= i <= |fields| && comma == (i > 0)
      invariant FieldsText(d, i).Ok?
      invariant sb.text == head + FieldsText(d, i).value
    {
      ghost var body := sb.text;
      var r := AppendField(d, sb, i, comma);
      if r.Throw? {
        PrefixTrans(head, body, sb.text);
        assert FieldsText(d, i + 1) == SlotText(d, i);
        FieldsThrowPersists(d, i + 1, |fields|);
        return r;
      }
      FieldsTextStep(d, i);
      Concat3(head, FieldsText(d, i).value, sb.text[|body|..]);
      comma := true;
      i := i + 1;
    }
    return Ok(());
  }

  /** One pass of the loop: the separator, `key = `, then `null` or the
      rendering of the field's value. */
  method AppendField(d: Data, sb: StringBuilder, i: nat, comma: bool) returns (o: Outcome<()>)
    requires d.Object? && i < |d.fields|
    modifies sb
    ensures o.Ok? <==> SlotText(d, i).Ok?
    ensures o.Ok? ==>
      sb.text == old(sb.text) + ((if comma then ", " else "") + d.fields[i].key + " = " + SlotText(d, i).value)
    ensures o.Throw? ==> o.error == SlotText(d, i).error
    ensures old(sb.text) <= sb.text
    decreases d, 0, 0
  {
    ghost var head := sb.text;
    var field := d.fields[i];
    var sep := if comma then ", " else "";
    sb.Append(sep);
    sb.Append(field.key);
    sb.Append(" = ");
    assert sb.text == head + sep + field.key + " = ";
    var v: string;
    if field.value.Null? {
      v := "null";
    } else {
      var s := ToString(field.value.data);
      if s.Throw? {
        return Throw(s.error);
      }
      v := s.value;
    }
    sb.Append(v);
    Concat3(head, sep, field.key);
    Concat3(head, sep + field.key, " = ");
    Concat3(head, sep + field.key + " = ", v);
    return Ok(());
  }

  lemma Concat3(a: string, b: string, c: string)
    ensures (a + b) + c == a + (b + c)
  {
  }

  lemma PrefixTrans(a: string, b: string, c: string)
    requires a <= b && b <= c
    ensures a <= c
  {
  }

  lemma FieldsTextStep(d: Data, i: nat)
    requires d.Object? && i < |d.fields| && FieldsText(d, i).Ok? && SlotText(d, i).Ok?
    ensures FieldsText(d, i + 1) ==
      Ok(FieldsText(d, i).value + ((if i > 0 then ", " else "") + d.fields[i].key + " = " + SlotText(d, i).value))
  {
    var p, sep, k := FieldsText(d, i).value, (if i > 0 then ", " else ""), d.fields[i].key;
    Concat3(p, sep, k);
    Concat3(p, sep + k, " = ");
    Concat3(p, sep + k + " = ", SlotText(d, i).value);
  }

  /** `ToString()`: `AppendTo` on a new, empty builder. */
  method ToString(d: Data) returns (o: Outcome<string>)
    ensures o == Render(d)
    decreases d, 3
  {
    var sb := new StringBuilder();
    var r := AppendTo(d, sb);
    if r.Throw? {
      return Throw(r.error);
    }
    assert sb.text == "" + Render(d).value == Render(d).value;
    return Ok(sb.text);
  }

  // Equality

  /** `Equals` as the variants define it: leaves by primitive equality,
      lists by `Sequence.Equals` of their items, objects by type name and
      `Sequence.Equals` of their fields; different variants never. */
  predicate DataEquals(a: Data, b: Data)
    decreases a
  {
    match a
    case Value(p) => b.Value? && p == b.prim
    case List(xs) =>
      b.List? && |xs| == |b.items| &&
      forall i :: 0 <= i < |xs| ==> SlotEquals(xs[i], b.items[i])
    case Object(t, fs) =>
      b.Object? && t == b.typeName && |fs| == |b.fields| &&
      forall i :: 0 <= i < |fs| ==> fs[i].key == b.fields[i].key && SlotEquals(fs[i].value, b.fields[i].value)
  }

  /** The default comparer: `null` equals only `null`, otherwise `Equals`. */
  predicate SlotEquals(x: Slot, y: Slot)
    decreases x
  {
    match x
    case Null => y.Null?
    case Some(d) => y.Some? && DataEquals(d, y.data)
  }

  /** Structural equality is exactly equality of the trees. */
  lemma {:induction false} DataEqualsIff(a: Data, b: Data)
    ensures DataEquals(a, b) <==> a == b
    decreases a
  {
    match a
    case Value(_) =>
    case List(xs) =>
      if b.List? && |xs| == |b.items| {
        forall i | 0 <= i < |xs|
          ensures SlotEquals(xs[i], b.items[i]) <==> xs[i] == b.items[i]
        {
          if xs[i].Some? && b.items[i].Some? {
            DataEqualsIff(xs[i].data, b.items[i].data);
          }
        }
        if DataEquals(a, b) {
          assert xs == b.items;
        }
      }
    case Object(t, fs) =>
      if b.Object? && t == b.typeName && |fs| == |b.fields| {
        forall i | 0 <= i < |fs|
          ensures SlotEquals(fs[i].value, b.fields[i].value) <==> fs[i].value == b.fields[i].value
        {
          if fs[i].value.Some? && b.fields[i].value.Some? {
            DataEqualsIff(fs[i].value.data, b.fields[i].value.data);
          }
        }
        if DataEquals(a, b) {
          assert forall i :: 0 <= i < |fs| ==> fs[i] == b.fields[i];
          assert fs == b.fields;
        }
      }
  }

  // Hash

  /** `GetHashCode()`, with the hashes of primitives and of strings given:
      a leaf hashes as its primitive, a list as the sequence hash of its
      items (a `null` item is dereferenced and throws), an object as
      `(hash(type) * 397) ^ Sequence.GetHashCode(fields)`. A field is a
      `KeyValuePair`, which the runtime hashes by its first non-null
      member, the key. */
  function Hash(d: Data, ph: Prim -> i32, sh: string -> i32): Outcome<i32>
    decreases d, 1
  {
    match d
    case Value(p) => Ok(ph(p))
    case List(items) =>
      var hs := ItemHashes(d, |items|, ph, sh);
      if hs.Throw? then Throw(hs.error) else Ok(SeqHash(hs.value))
    case Object(t, fields) =>
      var keys := Hashes(fields, (f: Field) => sh(f.key));
      Ok(XorI32(ToI32(sh(t) * 397), SeqHash(keys)))
  }

  function ItemHashes(d: Data, n: nat, ph: Prim -> i32, sh: string -> i32): (o: Outcome<seq<i32>>)
    requires d.List? && n <= |d.items|
    ensures o.Ok? ==> |o.value| == n
    decreases d, 0, n
  {
    if n == 0 then Ok([])
    else
      var prev := ItemHashes(d, n - 1, ph, sh);
      var item := d.items[n - 1];
      if prev.Throw? then prev
      else if item.Null? then Throw(Runtime(NullReference))
      else
        var h := Hash(item.data, ph, sh);
        if h.Throw? then Throw(h.error) else Ok(prev.value + [h.value])
  }

  /** Equal values have equal hash codes. */
  lemma HashConsistent(a: Data, b: Data, ph: Prim -> i32, sh: string -> i32)
    requires DataEquals(a, b)
    ensures Hash(a, ph, sh) == Hash(b, ph, sh)
  {
    DataEqualsIff(a, b);
  }

  /** The empty list hashes to the sequence seed 19. */
  lemma EmptyListHash(ph: Prim -> i32, sh: string -> i32)
    ensures Hash(List([]), ph, sh) == Ok(SEED)
  {
  }
}
