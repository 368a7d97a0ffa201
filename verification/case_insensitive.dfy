/** A dictionary whose keys compare case-insensitively, as the .NET
    containers built with `StringComparer.InvariantCultureIgnoreCase` do.
    The map is indexed by the folded key, and each entry remembers the
    spelling the key was first stored under, because enumerating such a
    container yields that stored spelling (`pair.Key`). */
module CaseInsensitive {
  import opened Wrappers
  import opened Text

  datatype Entry<V> = Entry(key: string, value: V)

  type Dict<V> = map<string, Entry<V>>

  /** Every entry sits under the fold of its own stored key. */
  ghost predicate Valid<V>(d: Dict<V>) {
    forall k :: k in d ==> Fold(d[k].key) == k
  }

  function Empty<V>(): (d: Dict<V>)
    ensures Valid(d)
  {
    map[]
  }

  predicate Has<V>(d: Dict<V>, name: string) {
    Fold(name) in d
  }

  /** `GetOrDefault(name)`: the value stored under any spelling of `name`. */
  function Get<V>(d: Dict<V>, name: string): (r: Option<V>)
    ensures r.Some? <==> Has(d, name)
  {
    var k := Fold(name);
    if k in d then Some(d[k].value) else None
  }

  /** `Set(name, v)`: store `v`; an existing entry keeps its stored spelling. */
  function Set<V>(d: Dict<V>, name: string, v: V): (r: Dict<V>)
    ensures Valid(d) ==> Valid(r)
    ensures Get(r, name) == Some(v)
    ensures forall n :: !EqualsIgnoreCase(n, name) ==> Get(r, n) == Get(d, n)
    ensures r.Keys == d.Keys + {Fold(name)}
  {
    var k := Fold(name);
    d[k := Entry(if k in d then d[k].key else name, v)]
  }

  /** `Remove(name)`: drop the entry stored under any spelling of `name`. */
  function Remove<V>(d: Dict<V>, name: string): (r: Dict<V>)
    ensures Valid(d) ==> Valid(r)
    ensures Get(r, name) == None
    ensures forall n :: !EqualsIgnoreCase(n, name) ==> Get(r, n) == Get(d, n)
  {
    d - {Fold(name)}
  }

  /** `GetOrAdd(name)` with a default factory: the existing value, or the
      factory's value, which is then stored. */
  function GetOrAdd<V>(d: Dict<V>, name: string, initial: V): (r: (V, Dict<V>))
    ensures Has(d, name) ==> r.0 == d[Fold(name)].value && r.1 == d
    ensures !Has(d, name) ==> r.0 == initial && r.1 == Set(d, name, initial)
    ensures Get(r.1, name) == Some(r.0)
  {
    var k := Fold(name);
    if k in d then (d[k].value, d) else (initial, Set(d, name, initial))
  }

  /** The spellings the keys are stored under. */
  function StoredKeys<V>(d: Dict<V>): set<string> {
    set k | k in d :: d[k].key
  }

  /** `d.Any(pair => pair.Key == name)`: an ordinal, case-sensitive test
      against the stored spelling. */
  predicate HasExactKey<V>(d: Dict<V>, name: string) {
    Fold(name) in d && d[Fold(name)].key == name
  }

  /** In a well-formed dictionary the exact-key test is a scan of the
      stored spellings. */
  lemma HasExactKeyIsScan<V>(d: Dict<V>, name: string)
    ensures Valid(d) ==> (HasExactKey(d, name) <==> name in StoredKeys(d))
  {
    if Valid(d) && name in StoredKeys(d) {
      var k :| k in d && d[k].key == name;
      assert Fold(name) == k;
    }
  }

  /** A value stored under one spelling is found under every other spelling. */
  lemma {:induction false} LookupIgnoresCase<V>(d: Dict<V>, stored: string, asked: string, v: V)
    requires EqualsIgnoreCase(stored, asked)
    ensures Get(Set(d, stored, v), asked) == Some(v)
  {
    assert Fold(stored) == Fold(asked);
  }

  /** The exact-key test fails for a differently spelled name even though
      the entry is present. */
  lemma ExactKeyIsCaseSensitive<V>(d: Dict<V>, name: string, other: string)
    requires HasExactKey(d, name) && other != name && EqualsIgnoreCase(name, other)
    ensures Has(d, other) && !HasExactKey(d, other)
  {
  }
}
