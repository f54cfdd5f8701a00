/** Beleriand.Extensions.DictionaryExtensions: helpers that mutate an
    `IDictionary` in place, modelled as functions from the dictionary before
    to the dictionary after. An `IEnumerable` of key/value pairs (and the
    enumeration order of an `IDictionary`) is a sequence of pairs. */
module DictionaryExtensions {
  import opened Wrappers
  import opened Text

  /** The keys of a pair sequence, in enumeration order. */
  function KeysOf<K(!new), V>(ps: seq<(K, V)>): (r: seq<K>)
    ensures |r| == |ps|
    ensures forall i :: 0 <= i < |ps| ==> r[i] == ps[i].0
  {
    if |ps| == 0 then [] else [ps[0].0] + KeysOf(ps[1..])
  }

  /** A pair sequence that could be the enumeration of a dictionary: no key twice. */
  predicate IsDictionary<K(==,!new), V>(ps: seq<(K, V)>) {
    NoDuplicates(KeysOf(ps))
  }

  /** A C# `Dictionary`: its pairs in enumeration order. */
  type Dictionary<K(==,!new), V> = ps: seq<(K, V)> | IsDictionary(ps) witness []

  lemma DictionaryTail<K(!new), V>(ps: seq<(K, V)>)
    requires |ps| > 0 && IsDictionary(ps)
    ensures IsDictionary(ps[1..])
    ensures ps[0].0 !in KeysOf(ps[1..])
  {
    assert KeysOf(ps) == [ps[0].0] + KeysOf(ps[1..]);
  }

  /** The dictionary enumerated by `ps`. */
  function ToMap<K(!new), V>(ps: seq<(K, V)>): (m: map<K, V>)
    requires IsDictionary(ps)
    ensures forall k :: k in m <==> k in KeysOf(ps)
    ensures forall i :: 0 <= i < |ps| ==> m[ps[i].0] == ps[i].1
    ensures |m| == |ps|
    decreases |ps|
  {
    if |ps| == 0 then map[]
    else
      DictionaryTail(ps);
      var m := ToMap(ps[1..]);
      assert KeysOf(ps) == [ps[0].0] + KeysOf(ps[1..]);
      assert forall i :: 1 <= i < |ps| ==> ps[i] == ps[1..][i - 1];
      m[ps[0].0 := ps[0].1]
  }

  /** A map after an in-place mutation, together with how the mutation ended. */
  datatype Mutated<K, V> = Mutated(target: map<K, V>, outcome: Result<()>)

  const DuplicateKeyMessage := "An item with the same key has already been added."

  /** `AddRange` can add every pair of `other`: none of its keys is in
      `values` and none repeats. */
  predicate CanAddAll<K(==,!new), V>(values: map<K, V>, other: seq<(K, V)>) {
    && (forall i :: 0 <= i < |other| ==> other[i].0 !in values)
    && IsDictionary(other)
  }

  lemma CanAddAllStep<K(!new), V>(values: map<K, V>, other: seq<(K, V)>)
    requires |other| > 0
    ensures CanAddAll(values, other) <==>
              other[0].0 !in values && CanAddAll(values[other[0].0 := other[0].1], other[1..])
  {
    var rest := other[1..];
    var added := values[other[0].0 := other[0].1];
    assert KeysOf(other) == [other[0].0] + KeysOf(rest);
    assert forall i :: 0 <= i < |rest| ==> rest[i] == other[i + 1];
    if other[0].0 !in values && CanAddAll(added, rest) {
      assert other[0].0 !in KeysOf(rest);
    }
    if CanAddAll(values, other) {
      DictionaryTail(other);
    }
  }

  lemma UnionStep<K(!new), V>(values: map<K, V>, other: seq<(K, V)>)
    requires |other| > 0 && IsDictionary(other)
    ensures IsDictionary(other[1..])
    ensures values + ToMap(other) == values[other[0].0 := other[0].1] + ToMap(other[1..])
  {
    DictionaryTail(other);
    var m := ToMap(other[1..]);
    assert ToMap(other) == m[other[0].0 := other[0].1];
    UpdateThenUnion(values, m, other[0].0, other[0].1);
  }

  /** `values.AddRange(other)`: adds the pairs in order and throws
      `ArgumentException` at the first key that is already present; the pairs
      added before that point stay added. */
  function AddRange<K(!new), V>(values: map<K, V>, other: seq<(K, V)>): (r: Mutated<K, V>)
    ensures r.outcome.Ok? <==> CanAddAll(values, other)
    ensures r.outcome.Ok? ==> r.target == values + ToMap(other)
    ensures r.outcome.Throws? ==> r.outcome.error == ArgumentException(DuplicateKeyMessage)
    ensures forall k :: k in values ==> k in r.target && r.target[k] == values[k]
    decreases |other|
  {
    if |other| == 0 then Mutated(values, Ok(()))
    else if other[0].0 in values then
      CanAddAllStep(values, other);
      Mutated(values, Throws(ArgumentException(DuplicateKeyMessage)))
    else
      var r := AddRange(values[other[0].0 := other[0].1], other[1..]);
      CanAddAllStep(values, other);
      if r.outcome.Ok? then
        UnionStep(values, other);
        r
      else
        r
  }

  /** Into an empty dictionary, `AddRange` of distinct keys builds their map. */
  lemma AddRangeToEmpty<K(!new), V>(other: seq<(K, V)>)
    requires IsDictionary(other)
    ensures AddRange(map[], other) == Mutated(ToMap(other), Ok(()))
  {
    var empty: map<K, V> := map[];
    assert CanAddAll(empty, other);
    var r := AddRange(empty, other);
    assert r.outcome.value == ();
    assert r.target == empty + ToMap(other) == ToMap(other);
  }

  /** A successful `AddRange` grows the target by exactly `|other|` entries. */
  lemma AddRangeSize<K(!new), V>(values: map<K, V>, other: seq<(K, V)>)
    requires CanAddAll(values, other)
    ensures |AddRange(values, other).target| == |values| + |other|
  {
    var m := ToMap(other);
    assert values.Keys !! m.Keys;
    assert (values + m).Keys == values.Keys + m.Keys;
  }

  /** The first `n` pairs of `other` go in without a clash and pair `n`
      repeats a key of what they left. */
  predicate ClashesAt<K(!new), V>(values: map<K, V>, other: seq<(K, V)>, n: nat) {
    && n < |other|
    && AddRange(values, other[..n]).outcome.Ok?
    && other[n].0 in AddRange(values, other[..n]).target
  }

  lemma AddRangeOfPrefix<K(!new), V>(values: map<K, V>, other: seq<(K, V)>, n: nat)
    requires n < |other| && other[0].0 !in values
    ensures AddRange(values, other[..n + 1]) == AddRange(values[other[0].0 := other[0].1], other[1..][..n])
  {
    var p := other[..n + 1];
    assert p[0] == other[0] && p[1..] == other[1..][..n];
  }

  /** When `AddRange` throws, it stopped at a clashing pair and the target is
      what adding the pairs before it left. */
  lemma {:induction false} AddRangeKeepsProcessedPairs<K(!new), V>(values: map<K, V>, other: seq<(K, V)>)
    requires AddRange(values, other).outcome.Throws?
    ensures exists n: nat :: ClashesAt(values, other, n)
                             && AddRange(values, other).target == AddRange(values, other[..n]).target
    decreases |other|
  {
    if other[0].0 in values {
      assert other[..0] == [];
      assert AddRange(values, other[..0]) == Mutated(values, Ok(()));
      assert ClashesAt(values, other, 0);
    } else {
      var added := values[other[0].0 := other[0].1];
      var rest := other[1..];
      assert AddRange(values, other) == AddRange(added, rest);
      AddRangeKeepsProcessedPairs(added, rest);
      var n: nat :| ClashesAt(added, rest, n)
                    && AddRange(added, rest).target == AddRange(added, rest[..n]).target;
      AddRangeOfPrefix(values, other, n);
      assert other[n + 1] == rest[n];
      assert ClashesAt(values, other, n + 1);
    }
  }

  /** `instance.Merge(key, value, replaceExisting)`. */
  function MergeKey<K(!new), V>(instance: map<K, V>, key: K, value: V, replaceExisting: bool): (r: map<K, V>)
    ensures r.Keys == instance.Keys + {key}
    ensures replaceExisting ==> r[key] == value
    ensures key !in instance ==> r[key] == value
    ensures !replaceExisting && key in instance ==> r == instance
    ensures forall k :: k in instance && k != key ==> r[k] == instance[k]
  {
    if replaceExisting || key !in instance then instance[key := value] else instance
  }

  /** `instance.Merge(from, replaceExisting)`: `MergeKey` for each pair of
      `from`, in enumeration order. */
  function MergeFrom<K(!new), V>(instance: map<K, V>, from: seq<(K, V)>, replaceExisting: bool): (r: map<K, V>)
    decreases |from|
  {
    if |from| == 0 then instance
    else MergeFrom(MergeKey(instance, from[0].0, from[0].1, replaceExisting), from[1..], replaceExisting)
  }

  /** Merging a dictionary is a map union: `from` wins when replacing, the
      instance wins otherwise. */
  lemma {:induction false} MergeFromIsUnion<K(!new), V>(instance: map<K, V>, from: seq<(K, V)>, replaceExisting: bool)
    requires IsDictionary(from)
    ensures MergeFrom(instance, from, replaceExisting)
            == if replaceExisting then instance + ToMap(from) else ToMap(from) + instance
    decreases |from|
  {
    if |from| > 0 {
      var k, v := from[0].0, from[0].1;
      DictionaryTail(from);
      var m := ToMap(from[1..]);
      assert ToMap(from) == m[k := v];
      assert k !in m;
      MergeFromIsUnion(MergeKey(instance, k, v, replaceExisting), from[1..], replaceExisting);
      if replaceExisting {
        UpdateThenUnion(instance, m, k, v);
      } else {
        UnionThenKeep(instance, m, k, v);
      }
    }
  }

  lemma UpdateThenUnion<K, V>(instance: map<K, V>, m: map<K, V>, k: K, v: V)
    requires k !in m
    ensures instance[k := v] + m == instance + m[k := v]
  {
  }

  lemma UnionThenKeep<K, V>(instance: map<K, V>, m: map<K, V>, k: K, v: V)
    requires k !in m
    ensures m + (if k in instance then instance else instance[k := v]) == m[k := v] + instance
  {
  }

  /** Keys outside `from` keep their entries; a key of `from` takes its new
      value iff `replaceExisting` holds or the key was absent. */
  lemma MergeFromPointwise<K(!new), V>(instance: map<K, V>, from: seq<(K, V)>, replaceExisting: bool)
    requires IsDictionary(from)
    ensures forall k :: k in MergeFrom(instance, from, replaceExisting) <==> k in instance || k in KeysOf(from)
    ensures forall k :: k in instance && k !in ToMap(from) ==>
              MergeFrom(instance, from, replaceExisting)[k] == instance[k]
    ensures forall i :: 0 <= i < |from| && (replaceExisting || from[i].0 !in instance) ==>
              MergeFrom(instance, from, replaceExisting)[from[i].0] == from[i].1
    ensures forall i :: 0 <= i < |from| && !replaceExisting && from[i].0 in instance ==>
              MergeFrom(instance, from, replaceExisting)[from[i].0] == instance[from[i].0]
  {
    MergeFromIsUnion(instance, from, replaceExisting);
    var added := ToMap(from);
    var r := MergeFrom(instance, from, replaceExisting);
    forall i | 0 <= i < |from|
      ensures r[from[i].0] == if replaceExisting || from[i].0 !in instance then from[i].1 else instance[from[i].0]
    {
      assert added[from[i].0] == from[i].1;
    }
  }

  /** The tokens of a stored value: trimmed, split on `separator`, empty
      tokens dropped. */
  function Tokens(s: string, separator: string): (r: seq<string>)
    ensures forall i :: 0 <= i < |r| ==> r[i] != ""
  {
    Split(Trim(s), separator)
  }

  /** With an empty separator nothing is split: the trimmed value is the
      only token, unless it is empty. */
  lemma EmptySeparatorTokens(s: string)
    ensures Tokens(s, "") == if Trim(s) == "" then [] else [Trim(s)]
  {
    assert Split(Trim(s), "") == RemoveEmpty([Trim(s)]);
    assert [Trim(s)][1..] == [];
  }

  /** The union of the existing tokens and the new ones; the new ones come
      first when prepending. */
  function MergeTokens(existing: string, value: string, separator: string, prepend: bool): (r: seq<string>)
    ensures NoDuplicates(r)
    ensures forall i :: 0 <= i < |r| ==> r[i] != ""
    ensures forall i :: 0 <= i < |r| ==> r[i] in Tokens(existing, separator) || r[i] in Tokens(value, separator)
    ensures forall t :: t in Tokens(existing, separator) ==> t in r
    ensures forall t :: t in Tokens(value, separator) ==> t in r
    ensures Distinct(if prepend then Tokens(value, separator) else Tokens(existing, separator)) <= r
  {
    var old_ := Tokens(existing, separator);
    var new_ := Tokens(value, separator);
    var first := if prepend then new_ else old_;
    var second := if prepend then old_ else new_;
    UnionCovers(first, second);
    var r := Union(first, second);
    assert forall t :: t in r <==> t in old_ || t in new_;
    r
  }

  lemma UpdateWithSameValue<K, V>(m: map<K, V>, k: K)
    requires k in m
    ensures m[k := m[k]] == m
  {
  }

  lemma MergeTokensAppend(existing: string, value: string, separator: string)
    ensures MergeTokens(existing, value, separator, false)
            == Union(Tokens(existing, separator), Tokens(value, separator))
  {
  }

  /** `AddInValue(instance, key, separator, value, prepend)` with `value`
      already turned into its string form: an absent key gets the string
      verbatim; a present key gets the separator-join of the merged tokens. */
  function AddInValue(instance: map<string, string>, key: string, separator: string,
                      value: string, prepend: bool): (r: map<string, string>)
    ensures r.Keys == instance.Keys + {key}
    ensures forall k :: k in instance && k != key ==> r[k] == instance[k]
    ensures key !in instance ==> r[key] == value
    ensures key in instance ==>
              r[key] == Join(separator, MergeTokens(instance[key], value, separator, prepend))
  {
    if key !in instance then instance[key := value]
    else instance[key := Join(separator, MergeTokens(instance[key], value, separator, prepend))]
  }

  /** `instance.AppendInValue(key, separator, value)`. */
  function AppendInValue(instance: map<string, string>, key: string, separator: string,
                         value: string): (r: map<string, string>)
    ensures key !in instance ==> r == instance[key := value]
    ensures key in instance ==>
              r == instance[key := Join(separator, Union(Tokens(instance[key], separator), Tokens(value, separator)))]
  {
    AddInValue(instance, key, separator, value, false)
  }
  /** `AppendInValue` with an empty separator concatenates the trimmed
      stored value and the trimmed new one, each kept whole. */
  lemma AppendWithEmptySeparator(instance: map<string, string>, key: string, value: string)
    requires key in instance
    requires Trim(instance[key]) != "" && Trim(value) != "" && Trim(instance[key]) != Trim(value)
    ensures AppendInValue(instance, key, "", value)[key] == Trim(instance[key]) + Trim(value)
  {
    var a := Trim(instance[key]);
    var b := Trim(value);
    EmptySeparatorTokens(instance[key]);
    EmptySeparatorTokens(value);
    UnionOfTwo(a, b);
    var merged := Union(Tokens(instance[key], ""), Tokens(value, ""));
    assert merged == [a, b];
    JoinOfTwo("", a, b);
    assert a + "" == a;
  }

  lemma JoinOfTwo(sep: string, a: string, b: string)
    ensures Join(sep, [a, b]) == a + sep + b
  {
    assert [a, b][1..] == [b];
  }

  lemma UnionOfTwo(a: string, b: string)
    requires a != b
    ensures Union([a], [b]) == [a, b]
  {
    DistinctOfDistinct([a, b]);
  }


  /** `instance.PrependInValue(key, separator, value)`. */
  function PrependInValue(instance: map<string, string>, key: string, separator: string,
                          value: string): (r: map<string, string>)
    ensures key !in instance ==> r == instance[key := value]
    ensures key in instance ==>
              r == instance[key := Join(separator, Union(Tokens(value, separator), Tokens(instance[key], separator)))]
  {
    AddInValue(instance, key, separator, value, true)
  }

  /** Every token of `s` is free of surrounding white space. */
  predicate TokensTrimmed(s: string, separator: string) {
    forall i :: 0 <= i < |Tokens(s, separator)| ==> IsTrimmed(Tokens(s, separator)[i])
  }

  /** Reading back an appended value with a one-character separator gives the
      merged tokens, provided every token is free of surrounding white space. */
  lemma TokensOfMerged(existing: string, value: string, c: char, prepend: bool)
    requires !IsWhiteSpace(c)
    requires TokensTrimmed(existing, [c]) && TokensTrimmed(value, [c])
    ensures Tokens(Join([c], MergeTokens(existing, value, [c], prepend)), [c])
            == MergeTokens(existing, value, [c], prepend)
  {
    var u := MergeTokens(existing, value, [c], prepend);
    SplitAvoidsSeparator(Trim(existing), c);
    SplitAvoidsSeparator(Trim(value), c);
    forall i | 0 <= i < |u|
      ensures u[i] != "" && IsTrimmed(u[i]) && c !in u[i]
    {
      assert u[i] in Tokens(existing, [c]) || u[i] in Tokens(value, [c]);
    }
    JoinTrimmed([c], u);
    SplitJoin(u, c);
  }

  /** With a one-character, non-white-space separator and tokens free of
      surrounding white space, appending the same value a second time to a
      present key leaves the dictionary as the first append left it. */
  lemma AppendInValueIdempotent(instance: map<string, string>, key: string, c: char, value: string)
    requires key in instance
    requires !IsWhiteSpace(c)
    requires TokensTrimmed(instance[key], [c]) && TokensTrimmed(value, [c])
    ensures AppendInValue(AppendInValue(instance, key, [c], value), key, [c], value)
            == AppendInValue(instance, key, [c], value)
  {
    var a, b := Tokens(instance[key], [c]), Tokens(value, [c]);
    var u := MergeTokens(instance[key], value, [c], false);
    MergeTokensAppend(instance[key], value, [c]);
    var once := AppendInValue(instance, key, [c], value);
    assert once == instance[key := Join([c], u)];
    TokensOfMerged(instance[key], value, c, false);
    UnionIdempotent(a, b);
    MergeTokensAppend(once[key], value, [c]);
    var again := MergeTokens(once[key], value, [c], false);
    assert Tokens(once[key], [c]) == u;
    assert again == Union(u, b);
    assert Union(u, b) == u;
    assert AppendInValue(once, key, [c], value) == once[key := Join([c], again)];
    UpdateWithSameValue(once, key);
  }

}
