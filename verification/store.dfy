/** A state cache class in the chat service's sources, unused by the route
    in src/app.py: an in-memory dictionary from keys to saved states, with
    `save` (insert or overwrite) and `read` (look up, or fail with
    `ValueError("Not found.")`).

    A Python state may itself be `None`. The dictionary keeps such an entry,
    but `read` tests `store.get(key) is None`, so a saved `None` cannot be
    told apart from a key that was never saved. The model keeps both facts
    visible: `Store.entries` is the dictionary as stored, `View` is what
    `Read` can observe. */
module StoreModel {
  import opened Wrappers

  /** A Python value as the dictionary holds it: `None`, or any other object.
      `read` compares by identity with `None`, so falsy objects such as `0`
      or `""` are ordinary `Object`s. */
  datatype Stored<V> = PyNone | Object(obj: V)

  /** The exception `read` raises. */
  datatype ReadError = ValueError(message: string)

  /** The one error `read` ever raises. */
  const NotFound: ReadError := ValueError("Not found.")

  /** The dictionary `self.store`, keys mapped to the states saved under them. */
  datatype Store<K, V> = Store(entries: map<K, Stored<V>>)

  /** `dict.get(key)`: the stored value, or `None` when the key is absent. */
  function Get<K(!new), V>(s: Store<K, V>, key: K): (v: Stored<V>)
  {
    if key in s.entries then s.entries[key] else PyNone
  }

  /** `StateStore()`: a store with no entries, in which every read fails. */
  function Empty<K(!new), V>(): (s: Store<K, V>)
    ensures forall k :: k !in s.entries
    ensures forall k :: Read(s, k) == Failure(NotFound)
  {
    Store(map[])
  }

  /** `read(key)`: succeeds exactly when the key holds a non-`None` state,
      and then returns that state; otherwise raises "Not found.". */
  function Read<K(!new), V>(s: Store<K, V>, key: K): (r: Result<V, ReadError>)
    ensures r.Success? <==> key in s.entries && s.entries[key].Object?
    ensures r.Success? ==> s.entries[key] == Object(r.value)
    ensures r.Failure? ==> r.error == NotFound
  {
    match Get(s, key)
    case PyNone => Failure(NotFound)
    case Object(v) => Success(v)
  }

  /** `save(key, state)`: never fails; afterwards `key` is a key of the
      dictionary holding `state` (even when `state` is `None`), reading it
      gives `state` back unless `state` is `None`, and every other key reads
      and stores exactly what it did before. */
  function Save<K(!new), V>(s: Store<K, V>, key: K, state: Stored<V>): (s': Store<K, V>)
    ensures key in s'.entries && s'.entries[key] == state
    ensures s'.entries.Keys == s.entries.Keys + {key}
    ensures forall k :: k != key && k in s.entries ==> s'.entries[k] == s.entries[k]
    ensures state.Object? ==> Read(s', key) == Success(state.obj)
    ensures state.PyNone? ==> Read(s', key) == Failure(NotFound)
    ensures forall k :: k != key ==> Read(s', k) == Read(s, k)
  {
    Store(s.entries[key := state])
  }

  /** What reads can observe of a store: the keys that read successfully,
      each with the state it reads as. Entries holding `None` are invisible. */
  function View<K(!new), V>(s: Store<K, V>): (m: map<K, V>)
    ensures forall k :: k in m <==> Read(s, k).Success?
    ensures forall k :: k in m ==> Read(s, k) == Success(m[k])
    ensures m.Keys <= s.entries.Keys
  {
    map k | k in s.entries && s.entries[k].Object? :: s.entries[k].obj
  }

  /** Saving a non-`None` state is a plain update of the observable map. */
  lemma SaveObjectUpdatesView<K(!new), V>(s: Store<K, V>, key: K, v: V)
    ensures View(Save(s, key, Object(v))) == View(s)[key := v]
  {
  }

  /** Saving `None` under a key is observably the same as deleting the key,
      although the dictionary still holds the key afterwards. */
  lemma SaveNoneRemovesFromView<K(!new), V>(s: Store<K, V>, key: K)
    ensures View(Save(s, key, PyNone)) == View(s) - {key}
    ensures key in Save(s, key, PyNone).entries
  {
  }

  /** A key saved with `None` reads exactly like a key that was never saved:
      in a store and its copy without that key, every read agrees. */
  lemma SavedNoneReadsAsAbsent<K(!new), V>(s: Store<K, V>, key: K, k: K)
    ensures Read(Save(s, key, PyNone), k) == Read(Store(s.entries - {key}), k)
  {
  }

  /** Reading a key that was never saved raises "Not found.". */
  lemma ReadNeverSavedFails<K(!new), V>(s: Store<K, V>, key: K)
    requires key !in s.entries
    ensures Read(s, key) == Failure(NotFound)
  {
  }

  /** The last write wins: a second save under the same key erases every
      trace of the first. */
  lemma SaveOverwrites<K(!new), V>(s: Store<K, V>, key: K, first: Stored<V>, second: Stored<V>)
    ensures Save(Save(s, key, first), key, second) == Save(s, key, second)
    ensures second.Object? ==> Read(Save(Save(s, key, first), key, second), key) == Success(second.obj)
  {
  }

  /** Saves under different keys do not interfere, so their order is
      irrelevant. */
  lemma SavesCommute<K(!new), V>(s: Store<K, V>, k1: K, v1: Stored<V>, k2: K, v2: Stored<V>)
    requires k1 != k2
    ensures Save(Save(s, k1, v1), k2, v2) == Save(Save(s, k2, v2), k1, v1)
  {
  }
}
