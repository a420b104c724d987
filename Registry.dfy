/** The generator registry keyed by type shape
    (src/QuickCheck/Internal/GeneratorContainer.cs, and the same code over
    static fields in src/QuickCheck/Quick.cs).

    Runtime types are values of `Ty`. A generic type definition such as
    `List<>` is `Open(d)`, a constructed generic type such as `List<int>`
    is `Generic(d, args)`, and `System.Array` is the named type `ARRAY`.
    The reflection the registry performs on a candidate generator class —
    its constructors and its interfaces — is given as a `TypeInfo`. */
module Registry {
  import opened Outcomes

  /** A generic type definition: its runtime name (`List`1`) and the names
      of its type parameters. */
  datatype Def = Def(name: string, params: seq<string>)

  datatype Ty =
    | Named(name: string)
    | ArrayOf(elem: Ty)
    | Generic(def: Def, args: seq<Ty>)
    | Open(def: Def)
    | Param(name: string)

  const ARRAY: Ty := Named("Array")
  const IGENERATOR: Def := Def("IGenerator`1", ["T"])

  /** `Type.Name` */
  function Name(t: Ty): string {
    match t
    case Named(n) => n
    case ArrayOf(e) => Name(e) + "[]"
    case Generic(d, _) => d.name
    case Open(d) => d.name
    case Param(n) => n
  }

  /** `GenericDef`: every array type has the shape `Array`, every generic
      type the shape of its definition, and any other type is its own shape. */
  function GenericDef(t: Ty): (s: Ty)
    ensures t.ArrayOf? ==> s == ARRAY
    ensures t.Generic? || t.Open? ==> s == Open(t.def)
    ensures !t.ArrayOf? && !t.Generic? && !t.Open? ==> s == t
  {
    match t
    case ArrayOf(_) => ARRAY
    case Generic(d, _) => Open(d)
    case Open(d) => Open(d)
    case _ => t
  }

  predicate IsShape(t: Ty) {
    GenericDef(t) == t
  }

  /** A shape is its own shape, so `GenericDef` is idempotent. */
  lemma GenericDefIdempotent(t: Ty)
    ensures IsShape(GenericDef(t))
    ensures GenericDef(GenericDef(t)) == GenericDef(t)
  {
  }

  /** What the registry reads from a candidate class by reflection: whether
      it has a parameterless constructor, and its interfaces in order. */
  datatype TypeInfo = TypeInfo(ty: Ty, parameterless: bool, interfaces: seq<Ty>)

  /** `IsGenerator`: a constructed `IGenerator<X>`. */
  predicate IsGenerator(t: Ty) {
    t.Generic? && t.def == IGENERATOR && |t.args| == 1
  }

  /** The `X` of every `IGenerator<X>` among the interfaces, in order. */
  function GeneratedBy(interfaces: seq<Ty>): (xs: seq<Ty>)
    ensures |xs| <= |interfaces|
    ensures forall x :: x in xs <==> exists i :: i in interfaces && IsGenerator(i) && i.args[0] == x
  {
    if interfaces == [] then []
    else
      var rest := GeneratedBy(interfaces[1..]);
      var i := interfaces[0];
      assert forall j :: j in interfaces <==> j == i || j in interfaces[1..];
      if IsGenerator(i) then [i.args[0]] + rest else rest
  }

  /** `GeneratableTypes`: none for a class whose every constructor takes
      arguments. */
  function GeneratableTypes(info: TypeInfo): (xs: seq<Ty>)
    ensures !info.parameterless ==> xs == []
    ensures info.parameterless ==> xs == GeneratedBy(info.interfaces)
  {
    if !info.parameterless then [] else GeneratedBy(info.interfaces)
  }

  function Shapes(ts: seq<Ty>): (ss: seq<Ty>)
    ensures |ss| == |ts| && forall i :: 0 <= i < |ts| ==> ss[i] == GenericDef(ts[i])
  {
    if ts == [] then [] else [GenericDef(ts[0])] + Shapes(ts[1..])
  }

  /** `Dictionary.Add` of every key in order, all to the same value: the
      first key already present throws, keeping the keys added before it. */
  function AddAll(m: map<Ty, Ty>, keys: seq<Ty>, v: Ty): (r: (map<Ty, Ty>, Outcome<()>))
    decreases |keys|
  {
    if keys == [] then (m, Ok(()))
    else if keys[0] in m then (m, Throw(Runtime(ArgumentError)))
    else AddAll(m[keys[0] := v], keys[1..], v)
  }

  predicate Distinct(keys: seq<Ty>) {
    forall i, j :: 0 <= i < j < |keys| ==> keys[i] != keys[j]
  }

  /** Adding never overwrites: every old entry survives, and every new entry
      is one of the keys, mapped to `v`. */
  lemma {:induction false} AddAllExtends(m: map<Ty, Ty>, keys: seq<Ty>, v: Ty)
    ensures var r := AddAll(m, keys, v).0;
      (forall k :: k in m ==> k in r && r[k] == m[k]) &&
      (forall k :: k in r && k !in m ==> k in keys && r[k] == v)
    decreases |keys|
  {
    if keys != [] && keys[0] !in m {
      AddAllExtends(m[keys[0] := v], keys[1..], v);
    }
  }

  /** The registration succeeds exactly when the keys are distinct and none
      is registered yet; then every key maps to `v`. */
  lemma {:induction false} AddAllSucceeds(m: map<Ty, Ty>, keys: seq<Ty>, v: Ty)
    ensures AddAll(m, keys, v).1.Ok? <==> Distinct(keys) && forall k :: k in keys ==> k !in m
    ensures AddAll(m, keys, v).1.Ok? ==>
      forall k :: k in AddAll(m, keys, v).0 <==> k in m || k in keys
    ensures AddAll(m, keys, v).1.Ok? ==> forall k :: k in keys ==> AddAll(m, keys, v).0[k] == v
    decreases |keys|
  {
    if keys != [] {
      var m' := m[keys[0] := v];
      AddAllSucceeds(m', keys[1..], v);
      AddAllExtends(m', keys[1..], v);
      assert forall k :: k in keys <==> k == keys[0] || k in keys[1..];
      if Distinct(keys) {
        assert Distinct(keys[1..]);
        assert keys[0] !in keys[1..];
      } else if keys[0] !in m && Distinct(keys[1..]) {
        var i, j :| 0 <= i < j < |keys| && keys[i] == keys[j];
        if i == 0 {
          assert keys[j] in keys[1..];
        }
      }
    }
  }

  const NOT_FOUND_PREFIX := "Could not find a generator for "
  const NOT_FOUND_SUFFIX := ", please register one."

  /** `Type.MakeGenericType`: only a generic type definition can be
      instantiated, with exactly as many arguments as it has parameters. */
  function MakeGenericType(g: Ty, args: seq<Ty>): (o: Outcome<Ty>)
    ensures o.Ok? <==> g.Open? && |args| == |g.def.params|
    ensures o.Ok? ==> o.value == Generic(g.def, args)
  {
    if !g.Open? then Throw(Runtime(InvalidOperation))
    else if |args| != |g.def.params| then Throw(Runtime(ArgumentError))
    else Ok(Generic(g.def, args))
  }

  /** `Type.GetGenericArguments`: the arguments of a constructed type, the
      parameters of a definition, none otherwise. */
  function GenericArguments(t: Ty): seq<Ty> {
    match t
    case Generic(_, args) => args
    case Open(d) => seq(|d.params|, i requires 0 <= i < |d.params| => Param(d.params[i]))
    case _ => []
  }

  /** `GeneratorType`: the generator registered for the request's shape,
      instantiated with the array's element type or with the request's type
      arguments when it is a generic definition. */
  function GeneratorType(types: map<Ty, Ty>, value: Ty): (o: Outcome<Ty>)
    ensures GenericDef(value) !in types <==>
      o == Throw(Exception(InvalidOperation, NOT_FOUND_PREFIX + Name(GenericDef(value)) + NOT_FOUND_SUFFIX))
    ensures value.ArrayOf? && ARRAY in types ==> o == MakeGenericType(types[ARRAY], [value.elem])
    ensures !value.ArrayOf? && value != ARRAY && GenericDef(value) in types ==>
      var g := types[GenericDef(value)];
      o == if g.Open? then MakeGenericType(g, GenericArguments(value)) else Ok(g)
  {
    var generic := GenericDef(value);
    if generic !in types then
      Throw(Exception(InvalidOperation, NOT_FOUND_PREFIX + Name(generic) + NOT_FOUND_SUFFIX))
    else
      var g := types[generic];
      if generic == ARRAY then
        // `typeof(Array).GetElementType()` is null, which `MakeGenericType` refuses
        if value.ArrayOf? then MakeGenericType(g, [value.elem]) else Throw(Runtime(ArgumentError))
      else if g.Open? then MakeGenericType(g, GenericArguments(value))
      else Ok(g)
  }

  /** The registry: shape to generator shape, and the generator instances
      created so far, each seen through the type it was created from. */
  class Container {
    var generatorTypes: map<Ty, Ty>
    var generators: map<Ty, Ty>

    /** Every registered key and value is a shape, and every cached instance
        is what `GeneratorType` resolves for its type. */
    ghost predicate Valid()
      reads this
    {
      (forall k :: k in generatorTypes ==> IsShape(k) && IsShape(generatorTypes[k])) &&
      (forall t :: t in generators ==> GeneratorType(generatorTypes, t) == Ok(generators[t]))
    }

    constructor ()
      ensures Valid() && generatorTypes == map[] && generators == map[]
    {
      generatorTypes := map[];
      generators := map[];
    }

    /** `Register(Type)`: one entry per `IGenerator<X>` the class implements,
      from the shape of `X` to the shape of the class; a shape already
      present throws and keeps the entries added before it. */
    method Register(info: TypeInfo) returns (o: Outcome<()>)
      requires Valid()
      modifies this
      ensures Valid()
      ensures generators == old(generators)
      ensures (generatorTypes, o) ==
        AddAll(old(generatorTypes), Shapes(GeneratableTypes(info)), GenericDef(info.ty))
    {
      var keys := Shapes(GeneratableTypes(info));
      var v := GenericDef(info.ty);
      GenericDefIdempotent(info.ty);
      var i := 0;
      while i < |keys|
        invariant 0 <= i <= |keys|
        invariant AddAll(old(generatorTypes), keys, v) == AddAll(generatorTypes, keys[i..], v)
        invariant generators == old(generators)
        invariant Valid()
      {
        GenericDefIdempotent(GeneratableTypes(info)[i]);
        if keys[i] in generatorTypes {
          return Throw(Runtime(ArgumentError));
        }
        KeepsResolved(generatorTypes, keys[i], v);
        generatorTypes := generatorTypes[keys[i] := v];
        assert keys[i..][1..] == keys[i + 1..];
        i := i + 1;
      }
      o := Ok(());
    }

    /** `Register(Assembly)`: `Register` on each type in order; the first
      exception ends the registration. */
    method RegisterAll(infos: seq<TypeInfo>) returns (o: Outcome<()>)
      requires Valid()
      modifies this
      ensures Valid()
      ensures generators == old(generators)
      ensures (generatorTypes, o) == RegisterEach(old(generatorTypes), infos)
    {
      var i := 0;
      while i < |infos|
        invariant 0 <= i <= |infos|
        invariant RegisterEach(old(generatorTypes), infos) == RegisterEach(generatorTypes, infos[i..])
        invariant generators == old(generators)
        invariant Valid()
      {
        o := Register(infos[i]);
        assert infos[i..][1..] == infos[i + 1..];
        if o.Throw? {
          return;
        }
        i := i + 1;
      }
      o := Ok(());
    }

    /** `Instance<T>()`: the cached instance, or a new one for what
      `GeneratorType` resolves, cached; the registered shapes never change. */
    method Instance(t: Ty) returns (o: Outcome<Ty>)
      requires Valid()
      modifies this
      ensures Valid()
      ensures generatorTypes == old(generatorTypes)
      ensures o == GeneratorType(generatorTypes, t)
      ensures t in old(generators) ==> generators == old(generators)
      ensures t !in old(generators) ==>
        generators == if o.Ok? then old(generators)[t := o.value] else old(generators)
      ensures o.Ok? ==> t in generators && generators[t] == o.value
    {
      if t in generators {
        return Ok(generators[t]);
      }
      o := GeneratorType(generatorTypes, t);
      if o.Ok? {
        generators := generators[t := o.value];
      }
    }
  }

  /** Registration after the first: each type in order, stopping at the
      first that throws. */
  function RegisterEach(m: map<Ty, Ty>, infos: seq<TypeInfo>): (map<Ty, Ty>, Outcome<()>)
    decreases |infos|
  {
    if infos == [] then (m, Ok(()))
    else
      var r := AddAll(m, Shapes(GeneratableTypes(infos[0])), GenericDef(infos[0].ty));
      if r.1.Throw? then r else RegisterEach(r.0, infos[1..])
  }

  /** Adding a shape that is not registered yet leaves every resolution that
      succeeded before unchanged. */
  lemma KeepsResolved(m: map<Ty, Ty>, k: Ty, v: Ty)
    requires k !in m
    ensures forall t :: GeneratorType(m, t).Ok? ==> GeneratorType(m[k := v], t) == GeneratorType(m, t)
  {
  }

  /** A class without a parameterless constructor registers nothing. */
  lemma NoParameterlessNoEntries(m: map<Ty, Ty>, info: TypeInfo)
    requires !info.parameterless
    ensures AddAll(m, Shapes(GeneratableTypes(info)), GenericDef(info.ty)) == (m, Ok(()))
  {
  }

  /** Asking twice gives the same generator and caches it once. */
  method InstanceTwice(c: Container, t: Ty) returns (a: Outcome<Ty>, b: Outcome<Ty>)
    requires c.Valid()
    modifies c
    ensures a == b
  {
    a := c.Instance(t);
    b := c.Instance(t);
  }
}
