/**
 * The multi-key registrar of whois2/decorators.py: a dictionary from key to
 * the list of objects registered under it, lists that are only ever appended
 * to.  Lookups return the entries of the wildcard key "__all__" followed by
 * the key's own entries.  The dictionary is a `defaultdict`, so reading a
 * missing key inserts it with an empty list.
 */
module Registry {

  /** The key whose entries every lookup returns first. */
  const Wildcard: string := "__all__"

  type Table<T> = map<string, seq<T>>

  /** `registry[key]` as a value: the stored list, or [] for a key the dictionary lacks. */
  function Stored<T>(table: Table<T>, key: string): seq<T> {
    if key in table then table[key] else []
  }

  /** `n` copies of `obj`. */
  function Copies<T>(obj: T, n: nat): (r: seq<T>)
    ensures |r| == n
    ensures forall i :: 0 <= i < n ==> r[i] == obj
  {
    if n == 0 then [] else Copies(obj, n - 1) + [obj]
  }

  /** The table after `reg(*keys)(obj)`: `obj` appended to the list of each key, key by key. */
  function Registered<T>(table: Table<T>, keys: seq<string>, obj: T): Table<T>
    decreases |keys|
  {
    if keys == [] then table
    else
      var before := Registered(table, keys[..|keys| - 1], obj);
      var key := keys[|keys| - 1];
      before[key := Stored(before, key) + [obj]]
  }

  /**
   * A registration appends `obj` under every listed key once per time the
   * key is listed (duplicates are kept) and leaves the list of every other
   * key as it was.
   */
  lemma {:induction false} RegisteredStored<T>(table: Table<T>, keys: seq<string>, obj: T, key: string)
    ensures Stored(Registered(table, keys, obj), key) == Stored(table, key) + Copies(obj, multiset(keys)[key])
    decreases |keys|
  {
    if keys != [] {
      var init, last := keys[..|keys| - 1], keys[|keys| - 1];
      assert keys == init + [last];
      assert multiset(keys) == multiset(init) + multiset{last};
      RegisteredStored(table, init, obj, key);
      var before := Registered(table, init, obj);
      if last == key {
        assert multiset(keys)[key] == multiset(init)[key] + 1;
        assert Stored(Registered(table, keys, obj), key) == Stored(before, key) + [obj];
      } else {
        assert multiset(keys)[key] == multiset(init)[key];
        assert Stored(Registered(table, keys, obj), key) == Stored(before, key);
      }
    }
  }

  /** A registration adds exactly the listed keys to the dictionary. */
  lemma {:induction false} RegisteredKeys<T>(table: Table<T>, keys: seq<string>, obj: T)
    ensures Registered(table, keys, obj).Keys == table.Keys + set k | k in keys
    decreases |keys|
  {
    if keys != [] {
      var init, last := keys[..|keys| - 1], keys[|keys| - 1];
      assert keys == init + [last];
      RegisteredKeys(table, init, obj);
      assert (set k | k in keys) == (set k | k in init) + {last};
    }
  }

  /** A key absent from the registration keeps its list. */
  lemma {:induction false} RegisteredElsewhere<T>(table: Table<T>, keys: seq<string>, obj: T, key: string)
    requires key !in keys
    ensures Stored(Registered(table, keys, obj), key) == Stored(table, key)
  {
    RegisteredStored(table, keys, obj, key);
    assert multiset(keys)[key] == 0;
  }

  /** Registering the same object under the same key twice leaves both entries. */
  lemma {:induction false} RegisteredTwiceKeepsBoth<T>(table: Table<T>, key: string, obj: T)
    ensures Stored(Registered(Registered(table, [key], obj), [key], obj), key) == Stored(table, key) + [obj, obj]
  {
    RegisteredStored(table, [key], obj, key);
    RegisteredStored(Registered(table, [key], obj), [key], obj, key);
    assert Copies(obj, 1) == [obj];
  }

  /** `get(key)` as a value: the wildcard entries, then the key's own, each in registration order. */
  function Lookup<T>(table: Table<T>, key: string): seq<T> {
    Stored(table, Wildcard) + Stored(table, key)
  }

  /** For a key nothing was registered under, a lookup yields exactly the wildcard entries. */
  lemma {:induction false} LookupUnregistered<T>(table: Table<T>, key: string)
    requires key !in table
    ensures Lookup(table, key) == Stored(table, Wildcard)
  {
  }

  /** Looking up the wildcard key itself yields the wildcard entries twice over. */
  lemma {:induction false} LookupWildcard<T>(table: Table<T>)
    ensures Lookup(table, Wildcard) == Stored(table, Wildcard) + Stored(table, Wildcard)
  {
  }

  /**
   * The dictionary after `get(key)`: reading `registry['__all__']` and
   * `registry[key]` inserts whichever of the two was missing, with an empty
   * list, and changes no stored list.
   */
  function Touched<T>(table: Table<T>, key: string): (r: Table<T>)
    ensures r.Keys == table.Keys + {Wildcard, key}
    ensures forall k :: Stored(r, k) == Stored(table, k)
  {
    var withWildcard := if Wildcard in table then table else table[Wildcard := []];
    if key in withWildcard then withWildcard else withWildcard[key := []]
  }

  class Registrar<T> {
    var registry: Table<T>

    constructor ()
      ensures registry == map[]
    {
      registry := map[];
    }

    /** `reg(*keys)(obj)`: the decorator registers `obj` under every key and hands it back unchanged. */
    method Register(keys: seq<string>, obj: T) returns (r: T)
      modifies this
      ensures r == obj
      ensures registry == Registered(old(registry), keys, obj)
      ensures forall k :: Stored(registry, k) == Stored(old(registry), k) + Copies(obj, multiset(keys)[k])
      ensures registry.Keys == old(registry.Keys) + set k | k in keys
    {
      ghost var table := registry;
      for i := 0 to |keys|
        invariant registry == Registered(table, keys[..i], obj)
      {
        assert keys[..i + 1][..i] == keys[..i];
        var key := keys[i];
        registry := registry[key := Stored(registry, key) + [obj]];
      }
      assert keys[..|keys|] == keys;
      forall k {
        RegisteredStored(table, keys, obj, k);
      }
      RegisteredKeys(table, keys, obj);
      r := obj;
    }

    /** `get(key)`: a new list, the wildcard entries first; the two keys read become present. */
    method Get(key: string) returns (r: seq<T>)
      modifies this
      ensures r == Lookup(old(registry), key)
      ensures registry == Touched(old(registry), key)
    {
      if Wildcard !in registry {
        registry := registry[Wildcard := []];
      }
      var all := registry[Wildcard];
      if key !in registry {
        registry := registry[key := []];
      }
      r := all + registry[key];
    }

    /** `get_keys()`: every key in the dictionary except the wildcard (Python gives them in no set order). */
    method GetKeys() returns (keys: set<string>)
      ensures keys == registry.Keys - {Wildcard}
    {
      keys := registry.Keys - {Wildcard};
    }
  }
}
