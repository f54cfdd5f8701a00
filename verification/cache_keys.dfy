/** Key namespacing shared by every cache (`CacheBase.GetLocalizedKey`). */
module CacheKeys {
  import opened Text

  /** `GetLocalizedKey(key)`: `$"{Name}:{key}"`. */
  function LocalizedKey(name: string, key: string): (r: string)
    ensures |r| == |name| + 1 + |key|
    ensures name + ":" <= r
    ensures r[|name| + 1..] == key
  {
    name + ":" + key
  }

  /** Within one cache, localization never merges two keys. */
  lemma LocalizedKeyInjective(name: string, k1: string, k2: string)
    requires LocalizedKey(name, k1) == LocalizedKey(name, k2)
    ensures k1 == k2
  {
    assert k1 == LocalizedKey(name, k1)[|name| + 1..];
  }

  /** Localizing every key of a list, in order (`keys.Select(GetLocalizedKey)`). */
  function LocalizeAll(name: string, keys: seq<string>): (r: seq<string>)
    ensures |r| == |keys|
    ensures forall i :: 0 <= i < |keys| ==> r[i] == LocalizedKey(name, keys[i])
  {
    seq(|keys|, i requires 0 <= i < |keys| => LocalizedKey(name, keys[i]))
  }

  /** Localized keys repeat exactly when the keys do. */
  lemma LocalizeAllNoDuplicates(name: string, keys: seq<string>)
    ensures NoDuplicates(LocalizeAll(name, keys)) <==> NoDuplicates(keys)
  {
    var lks := LocalizeAll(name, keys);
    if !NoDuplicates(lks) {
      var i, j :| 0 <= i < j < |lks| && lks[i] == lks[j];
      LocalizedKeyInjective(name, keys[i], keys[j]);
    }
  }

  /** Across caches it can: a name containing `:` shares keys with a
      shorter one, so cache `a` and cache `a:b` meet in the shared store. */
  lemma LocalizedKeysCollideAcrossNames()
    ensures "a" != "a:b" && LocalizedKey("a", "b:c") == LocalizedKey("a:b", "c")
  {
    assert LocalizedKey("a", "b:c") == "a:b:c";
    assert LocalizedKey("a:b", "c") == "a:b:c";
  }
}
