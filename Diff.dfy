/** Differences between two `Data` trees (src/QuickCheck/Internal/DataDiff.cs).

    `ObjectDiff` and `Data.Diff`, which `Object` uses, are not defined in
    the repository: here `ObjectDiff` is the variant that keeps the three
    dictionaries `Object` hands it, and `Data.Diff` is a parameter `diff`
    that may throw. */
module Diff {
  import opened Outcomes
  import Data

  datatype DataDiff =
    | Empty
    | Incompatible(oldData: Data.Data, newData: Data.Data)
    | ValueDiff(oldValue: Data.Prim, newValue: Data.Prim)
    | FloatDiff(oldValue: Data.Prim, newValue: Data.Prim)
    | DoubleDiff(oldValue: Data.Prim, newValue: Data.Prim)
    | ObjectDiff(added: map<string, Data.Slot>, removed: map<string, Data.Slot>,
                 modified: map<string, DataDiff>)

  /** `IsEmpty`: `false` except on the `Empty` singleton. */
  predicate IsEmpty(d: DataDiff) {
    d.Empty?
  }

  /** `Value`: same-typed `float`s give a `FloatDiff`, same-typed `double`s a
      `DoubleDiff`, anything else a `ValueDiff`; both values are kept. */
  function Value(oldValue: Data.Prim, newValue: Data.Prim): (d: DataDiff)
    ensures !IsEmpty(d) && !d.Incompatible? && !d.ObjectDiff?
    ensures d.oldValue == oldValue && d.newValue == newValue
    ensures d.FloatDiff? <==> Data.TypeName(oldValue) == Data.TypeName(newValue) == "Single"
    ensures d.DoubleDiff? <==> Data.TypeName(oldValue) == Data.TypeName(newValue) == "Double"
  {
    var t := Data.TypeName(oldValue);
    if t == Data.TypeName(newValue) && t == "Single" then FloatDiff(oldValue, newValue)
    else if t == Data.TypeName(newValue) && t == "Double" then DoubleDiff(oldValue, newValue)
    else ValueDiff(oldValue, newValue)
  }

  /** Equal values still give a non-empty diff. */
  lemma ValueNeverEmpty(p: Data.Prim)
    ensures !IsEmpty(Value(p, p))
    ensures Value(p, p).ValueDiff? <==> Data.TypeName(p) != "Single" && Data.TypeName(p) != "Double"
  {
  }

  /** `List` is not implemented: it always throws. */
  function List(olds: seq<Data.Slot>, news: seq<Data.Slot>): (o: Outcome<DataDiff>)
    ensures o.Throw? && o.error.kind == NotImplemented
  {
    Throw(Runtime(NotImplemented))
  }

  // Dictionaries of fields

  /** The keys of the first `n` fields. */
  function KeysUpTo(fs: seq<Data.Field>, n: nat): set<string>
    requires n <= |fs|
  {
    if n == 0 then {} else KeysUpTo(fs, n - 1) + {fs[n - 1].key}
  }

  lemma {:induction false} KeysUpToMember(fs: seq<Data.Field>, n: nat, k: string)
    requires n <= |fs|
    ensures k in KeysUpTo(fs, n) <==> exists i :: 0 <= i < n && fs[i].key == k
  {
    if n > 0 {
      KeysUpToMember(fs, n - 1, k);
    }
  }

  /** No key appears twice among the first `n` fields. */
  predicate DistinctUpTo(fs: seq<Data.Field>, n: nat)
    requires n <= |fs|
  {
    forall i, j :: 0 <= i < j < n ==> fs[i].key != fs[j].key
  }

  function Keys(fs: seq<Data.Field>): set<string> {
    KeysUpTo(fs, |fs|)
  }

  predicate DistinctKeys(fs: seq<Data.Field>) {
    DistinctUpTo(fs, |fs|)
  }

  /** `ToDictionary(x => x.Key, x => x.Value)` over the first `n` fields:
      adding a key a second time throws. */
  function ToDictionary(fs: seq<Data.Field>, n: nat): Outcome<map<string, Data.Slot>>
    requires n <= |fs|
  {
    if n == 0 then Ok(map[])
    else
      match ToDictionary(fs, n - 1)
      case Throw(e) => Throw(e)
      case Ok(m) =>
        if fs[n - 1].key in m then Throw(Runtime(ArgumentError)) else Ok(m[fs[n - 1].key := fs[n - 1].value])
  }

  /** A built dictionary holds the keys of the fields, each mapped to its
      field's value. */
  lemma {:induction false} ToDictionaryContents(fs: seq<Data.Field>, n: nat)
    requires n <= |fs| && ToDictionary(fs, n).Ok?
    ensures ToDictionary(fs, n).value.Keys == KeysUpTo(fs, n)
    ensures forall j :: 0 <= j < n ==>
      fs[j].key in ToDictionary(fs, n).value && ToDictionary(fs, n).value[fs[j].key] == fs[j].value
  {
    if n > 0 {
      ToDictionaryContents(fs, n - 1);
    }
  }

  /** The dictionary is built exactly when the keys are distinct; otherwise
      it throws `ArgumentError`. */
  lemma {:induction false} ToDictionaryIff(fs: seq<Data.Field>, n: nat)
    requires n <= |fs|
    ensures ToDictionary(fs, n).Ok? <==> DistinctUpTo(fs, n)
    ensures ToDictionary(fs, n).Throw? ==> ToDictionary(fs, n).error.kind == ArgumentError
  {
    if n > 0 {
      ToDictionaryIff(fs, n - 1);
      if ToDictionary(fs, n - 1).Ok? {
        ToDictionaryContents(fs, n - 1);
        KeysUpToMember(fs, n - 1, fs[n - 1].key);
      }
    }
  }

  // The object diff

  /** The three dictionaries the loop of `Object` fills. */
  datatype Parts = Parts(added: map<string, Data.Slot>, removed: map<string, Data.Slot>,
                         modified: map<string, DataDiff>)

  /** The loop of `Object` after the first `n` old fields: a key still in
      the new dictionary is diffed (dereferencing the old value) and taken
      out of it; any other old key is removed. */
  function Partition(olds: seq<Data.Field>, newDict: map<string, Data.Slot>,
                     diff: (Data.Data, Data.Slot) -> Outcome<DataDiff>, n: nat): Outcome<Parts>
    requires n <= |olds|
  {
    if n == 0 then Ok(Parts(newDict, map[], map[]))
    else
      match Partition(olds, newDict, diff, n - 1)
      case Throw(e) => Throw(e)
      case Ok(p) =>
        var f := olds[n - 1];
        if f.key in p.added then
          if f.value.Null? then Throw(Runtime(NullReference))
          else
            match diff(f.value.data, p.added[f.key])
            case Throw(e) => Throw(e)
            case Ok(d) => Ok(Parts(p.added - {f.key}, p.removed, p.modified[f.key := d]))
        else Ok(Parts(p.added, p.removed[f.key := f.value], p.modified))
  }

  /** What is left of the new dictionary is its entries whose keys are not
      among the old keys visited so far. */
  lemma {:induction false} PartitionAdded(olds: seq<Data.Field>, newDict: map<string, Data.Slot>,
                                          diff: (Data.Data, Data.Slot) -> Outcome<DataDiff>, n: nat)
    requires n <= |olds| && Partition(olds, newDict, diff, n).Ok?
    ensures Partition(olds, newDict, diff, n).value.added.Keys == newDict.Keys - KeysUpTo(olds, n)
    ensures forall key :: key in Partition(olds, newDict, diff, n).value.added ==>
      Partition(olds, newDict, diff, n).value.added[key] == newDict[key]
  {
    if n > 0 {
      PartitionAdded(olds, newDict, diff, n - 1);
    }
  }

  /** Every shared key among the first `n` old fields has a non-null old
      value that `diff` accepts. */
  predicate Diffable(olds: seq<Data.Field>, newDict: map<string, Data.Slot>,
                     diff: (Data.Data, Data.Slot) -> Outcome<DataDiff>, n: nat)
    requires n <= |olds|
  {
    forall j :: 0 <= j < n && olds[j].key in newDict ==>
      olds[j].value.Some? && diff(olds[j].value.data, newDict[olds[j].key]).Ok?
  }

  /** An old key not seen before is still in what is left of the new
      dictionary exactly when the new dictionary has it. */
  lemma StillAdded(olds: seq<Data.Field>, newDict: map<string, Data.Slot>,
                   diff: (Data.Data, Data.Slot) -> Outcome<DataDiff>, n: nat)
    requires n < |olds| && DistinctUpTo(olds, n + 1) && Partition(olds, newDict, diff, n).Ok?
    ensures olds[n].key in Partition(olds, newDict, diff, n).value.added <==> olds[n].key in newDict
    ensures olds[n].key in newDict ==>
      Partition(olds, newDict, diff, n).value.added[olds[n].key] == newDict[olds[n].key]
  {
    PartitionAdded(olds, newDict, diff, n);
    KeysUpToMember(olds, n, olds[n].key);
  }

  /** With distinct old keys the loop throws exactly when a shared key is
      not diffable. */
  lemma {:induction false} PartitionOkIff(olds: seq<Data.Field>, newDict: map<string, Data.Slot>,
                                          diff: (Data.Data, Data.Slot) -> Outcome<DataDiff>, n: nat)
    requires n <= |olds| && DistinctUpTo(olds, n)
    ensures Partition(olds, newDict, diff, n).Ok? <==> Diffable(olds, newDict, diff, n)
  {
    if n > 0 {
      PartitionOkIff(olds, newDict, diff, n - 1);
      if Partition(olds, newDict, diff, n - 1).Ok? {
        StillAdded(olds, newDict, diff, n - 1);
      }
    }
  }

  /** With distinct old keys, old-only keys are removed with their old
      values and shared keys are modified with their diff. */
  lemma {:induction false} PartitionRest(olds: seq<Data.Field>, newDict: map<string, Data.Slot>,
                                         diff: (Data.Data, Data.Slot) -> Outcome<DataDiff>, n: nat)
    requires n <= |olds| && DistinctUpTo(olds, n) && Partition(olds, newDict, diff, n).Ok?
    ensures var p := Partition(olds, newDict, diff, n).value;
      p.removed.Keys == KeysUpTo(olds, n) - newDict.Keys &&
      p.modified.Keys == KeysUpTo(olds, n) * newDict.Keys
    ensures var p := Partition(olds, newDict, diff, n).value;
      forall j :: 0 <= j < n && olds[j].key !in newDict ==>
        olds[j].key in p.removed && p.removed[olds[j].key] == olds[j].value
    ensures var p := Partition(olds, newDict, diff, n).value;
      forall j :: 0 <= j < n && olds[j].key in newDict ==>
        olds[j].key in p.modified && olds[j].value.Some? &&
        Ok(p.modified[olds[j].key]) == diff(olds[j].value.data, newDict[olds[j].key])
  {
    if n > 0 {
      PartitionRest(olds, newDict, diff, n - 1);
      StillAdded(olds, newDict, diff, n - 1);
    }
  }

  /** `Object`: both field lists become dictionaries (a repeated key
      throws), then the loop runs over the old fields in their order. */
  function ObjectSpec(olds: seq<Data.Field>, news: seq<Data.Field>,
                      diff: (Data.Data, Data.Slot) -> Outcome<DataDiff>): Outcome<DataDiff>
  {
    match ToDictionary(olds, |olds|)
    case Throw(e) => Throw(e)
    case Ok(_) =>
      match ToDictionary(news, |news|)
      case Throw(e) => Throw(e)
      case Ok(newDict) =>
        match Partition(olds, newDict, diff, |olds|)
        case Throw(e) => Throw(e)
        case Ok(p) => Ok(ObjectDiff(p.added, p.removed, p.modified))
  }

  /** `Object`, with the `foreach` over the old dictionary visiting its keys
      in the order they were added. */
  method Object(olds: seq<Data.Field>, news: seq<Data.Field>,
                diff: (Data.Data, Data.Slot) -> Outcome<DataDiff>) returns (o: Outcome<DataDiff>)
    ensures o == ObjectSpec(olds, news, diff)
  {
    var oldDict := ToDictionary(olds, |olds|);
    if oldDict.Throw? {
      return Throw(oldDict.error);
    }
    var created := ToDictionary(news, |news|);
    if created.Throw? {
      return Throw(created.error);
    }
    var newDict := created.value;
    var removed: map<string, Data.Slot> := map[];
    var modified: map<string, DataDiff> := map[];
    var i := 0;
    while i < |olds|
      invariant 0 <= i <= |olds|
      invariant Partition(olds, created.value, diff, i) == Ok(Parts(newDict, removed, modified))
    {
      var field := olds[i];
      if field.key in newDict {
        if field.value.Null? {
          PartitionThrowPersists(olds, created.value, diff, i + 1, |olds|);
          return Throw(Runtime(NullReference));
        }
        var d := diff(field.value.data, newDict[field.key]);
        if d.Throw? {
          PartitionThrowPersists(olds, created.value, diff, i + 1, |olds|);
          return Throw(d.error);
        }
        modified := modified[field.key := d.value];
        newDict := newDict - {field.key};
      } else {
        removed := removed[field.key := field.value];
      }
      i := i + 1;
    }
    return Ok(ObjectDiff(newDict, removed, modified));
  }

  lemma {:induction false} PartitionThrowPersists(olds: seq<Data.Field>, newDict: map<string, Data.Slot>,
                                                  diff: (Data.Data, Data.Slot) -> Outcome<DataDiff>, i: nat, j: nat)
    requires i <= j <= |olds| && Partition(olds, newDict, diff, i).Throw?
    ensures Partition(olds, newDict, diff, j) == Partition(olds, newDict, diff, i)
    decreases j - i
  {
    if i < j {
      PartitionThrowPersists(olds, newDict, diff, i, j - 1);
    }
  }

  /** The object diff: a repeated key on either side throws `ArgumentError`;
      otherwise it succeeds exactly when every shared key is diffable, and
      then the added, removed and modified keys are the new-only, old-only
      and shared keys. */
  lemma ObjectOutcome(olds: seq<Data.Field>, news: seq<Data.Field>,
                      diff: (Data.Data, Data.Slot) -> Outcome<DataDiff>)
    ensures !DistinctKeys(olds) || !DistinctKeys(news) ==>
      ObjectSpec(olds, news, diff).Throw? && ObjectSpec(olds, news, diff).error.kind == ArgumentError
    ensures DistinctKeys(olds) && DistinctKeys(news) ==>
      ToDictionary(news, |news|).Ok? &&
      (ObjectSpec(olds, news, diff).Ok? <==> Diffable(olds, ToDictionary(news, |news|).value, diff, |olds|))
    ensures ObjectSpec(olds, news, diff).Ok? ==>
      var d := ObjectSpec(olds, news, diff).value;
      d.ObjectDiff? &&
      d.added.Keys == Keys(news) - Keys(olds) &&
      d.removed.Keys == Keys(olds) - Keys(news) &&
      d.modified.Keys == Keys(olds) * Keys(news)
  {
    ToDictionaryIff(olds, |olds|);
    ToDictionaryIff(news, |news|);
    if DistinctKeys(olds) && DistinctKeys(news) {
      var newDict := ToDictionary(news, |news|).value;
      ToDictionaryContents(news, |news|);
      PartitionOkIff(olds, newDict, diff, |olds|);
      if Partition(olds, newDict, diff, |olds|).Ok? {
        PartitionAdded(olds, newDict, diff, |olds|);
        PartitionRest(olds, newDict, diff, |olds|);
      }
    }
  }

  /** The three key sets of an object diff are pairwise disjoint and
      together are the old and the new keys. */
  lemma ObjectPartition(olds: seq<Data.Field>, news: seq<Data.Field>,
                        diff: (Data.Data, Data.Slot) -> Outcome<DataDiff>)
    requires ObjectSpec(olds, news, diff).Ok?
    ensures var d := ObjectSpec(olds, news, diff).value;
      d.added.Keys !! d.removed.Keys && d.added.Keys !! d.modified.Keys && d.removed.Keys !! d.modified.Keys &&
      d.added.Keys + d.removed.Keys + d.modified.Keys == Keys(olds) + Keys(news)
  {
    ObjectOutcome(olds, news, diff);
  }

  /** Every added field keeps its new value, every removed field its old
      value, and every modified field holds the diff of its two values. */
  lemma ObjectValues(olds: seq<Data.Field>, news: seq<Data.Field>,
                     diff: (Data.Data, Data.Slot) -> Outcome<DataDiff>)
    requires ObjectSpec(olds, news, diff).Ok?
    ensures var d := ObjectSpec(olds, news, diff).value;
      (forall j :: 0 <= j < |news| && news[j].key in d.added ==> d.added[news[j].key] == news[j].value) &&
      (forall j :: 0 <= j < |olds| && olds[j].key in d.removed ==> d.removed[olds[j].key] == olds[j].value) &&
      (forall i, j :: 0 <= i < |olds| && 0 <= j < |news| && olds[i].key == news[j].key ==>
         olds[i].key in d.modified && olds[i].value.Some? &&
         diff(olds[i].value.data, news[j].value) == Ok(d.modified[olds[i].key]))
  {
    ToDictionaryIff(olds, |olds|);
    ToDictionaryIff(news, |news|);
    var newDict := ToDictionary(news, |news|).value;
    ToDictionaryContents(news, |news|);
    PartitionOkIff(olds, newDict, diff, |olds|);
    PartitionAdded(olds, newDict, diff, |olds|);
    PartitionRest(olds, newDict, diff, |olds|);
    ObjectOutcome(olds, news, diff);
    forall j | 0 <= j < |olds| && olds[j].key in ObjectSpec(olds, news, diff).value.removed
      ensures olds[j].key !in newDict
    {
      KeysUpToMember(olds, |olds|, olds[j].key);
    }
  }
}
