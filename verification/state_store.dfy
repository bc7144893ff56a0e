/** The Python class `StateStore` itself: one mutable object owning the
    dictionary, with `read` and `save` as methods. */
module StateStoreObject {
  import opened Wrappers
  import opened StoreModel

  class StateStore<K(==, !new), V> {
    /** The dictionary `self.store`. */
    var contents: Store<K, V>

    /** `StateStore()` starts with an empty dictionary. */
    constructor()
      ensures contents == Empty()
    {
      contents := Empty();
    }

    /** `read(key)`. It has no `modifies` clause: reading never changes the
        store, whether it returns a state or raises. */
    method Read(key: K) returns (r: Result<V, ReadError>)
      ensures r.Success? <==> key in View(contents)
      ensures r.Success? ==> r.value == View(contents)[key]
      ensures r.Failure? ==> r.error == NotFound
    {
      r := StoreModel.Read(contents, key);
    }

    /** `save(key, state)`: never fails, replaces the dictionary by its
        update at `key`. */
    method Save(key: K, state: Stored<V>)
      modifies this
      ensures contents == StoreModel.Save(old(contents), key, state)
    {
      contents := StoreModel.Save(contents, key, state);
    }
  }
}
