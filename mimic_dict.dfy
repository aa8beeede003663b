/**
 * The `MimicDict` mixin: a HAR entry or page wrapper answers dictionary
 * queries by delegating them to its `raw_entry` map, given here as the
 * parameter `raw`.
 */
module MimicDict {
  import opened Wrappers

  /** `wrapper[item]`: the value stored under a key that `raw_entry` holds. */
  function GetItem<V>(raw: map<string, V>, item: string): (r: V)
    requires item in raw
    ensures Get(raw, item) == Some(r)
  {
    raw[item]
  }

  /** `len(wrapper)`: the number of keys of `raw_entry`. */
  function Len<V>(raw: map<string, V>): (n: nat)
    ensures n == |raw.Keys|
    ensures n == 0 <==> raw == map[]
  {
    |raw|
  }

  /**
   * `wrapper.get(item, default=None)`: the stored value when `item` is a key,
   * otherwise `default`; Python's `None` is `None` and a present value `v`
   * is `Some(v)`.
   */
  function Get<V>(raw: map<string, V>, item: string, default: Option<V> := None): (r: Option<V>)
    ensures item in raw ==> r == Some(raw[item])
    ensures item !in raw ==> r == default
  {
    if item in raw then Some(raw[item]) else default
  }

  /** `wrapper.keys()`: a snapshot of the key set of `raw_entry`. */
  function Keys<V>(raw: map<string, V>): (ks: set<string>)
    ensures forall k :: k in ks <==> k in raw
    ensures |ks| == Len(raw)
  {
    raw.Keys
  }

  /** `wrapper.items()`: a snapshot of the key/value pairs of `raw_entry`. */
  function Items<V(==)>(raw: map<string, V>): (ps: set<(string, V)>)
    ensures forall p | p in ps :: p.0 in raw && raw[p.0] == p.1
    ensures forall k | k in raw :: (k, raw[k]) in ps
  {
    set k | k in raw :: (k, raw[k])
  }

  /** Indexing a present key agrees with `get` for every default. */
  lemma GetItemAgreesWithGet<V>(raw: map<string, V>, item: string, default: Option<V>)
    requires item in raw
    ensures Get(raw, item, default) == Some(GetItem(raw, item))
  {
  }

  /** `get` with the default `None` answers `None` exactly for keys that are absent. */
  lemma GetNoneIffAbsent<V>(raw: map<string, V>, item: string)
    ensures Get(raw, item) == None <==> item !in Keys(raw)
  {
  }

  /** `items()` has one pair per key, so it has `len()` elements. */
  lemma {:induction false} ItemsCount<V>(raw: map<string, V>)
    ensures |Items(raw)| == Len(raw)
    decreases |raw|
  {
    if raw != map[] {
      var k :| k in raw;
      var rest := raw - {k};
      assert |rest| == |raw| - 1;
      forall p | p in Items(raw) ensures p in Items(rest) + {(k, raw[k])} {
        if p.0 != k {
          assert p.0 in rest && rest[p.0] == p.1;
        }
      }
      assert Items(raw) == Items(rest) + {(k, raw[k])};
      assert (k, raw[k]) !in Items(rest);
      ItemsCount(rest);
    }
  }
}
