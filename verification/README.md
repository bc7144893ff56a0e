# StateStore model

A Dafny model of `StateStore` in `src/stateStore.py`, an in-memory state
cache class in the chat service's sources, unused by the route in
`src/app.py`. The store is a dictionary from keys to saved
states with two operations:

- `save(key, state)` inserts or overwrites the entry for `key`; it never fails.
- `read(key)` returns the state saved under `key`, or raises
  `ValueError("Not found.")`.

`read` decides "not found" by testing `self.store.get(key) is None`. A state
saved as `None` is therefore kept in the dictionary but reads exactly like a
key that was never saved. The model keeps the two levels apart:

- `StoreModel.Store.entries` is the dictionary as stored. A saved `None` is a
  real key there, written `PyNone`.
- `StoreModel.View` is what reads can observe. It is a plain `map<K, V>` in
  which saving a non-`None` state is an update and saving `None` is a
  deletion.

Files:

- `wrappers.dfy` (`Wrappers`): the `Result` and `Option` types. A raised
  `ValueError` becomes a `Failure` value.
- `store.dfy` (`StoreModel`): the dictionary, `Empty`, `Read`, `Save`, the
  observable `View`, and lemmas about single saves: overwrite, frame,
  commutation, and `None` read as absent.
- `history.dfy` (`History`): a whole sequence of `save` calls replayed in
  order. It is compared with an independent reference definition, "the state
  of the last save under each key", found by searching from the end.
- `state_store.dfy` (`StateStoreObject`): the Python class as a Dafny class.
  Its constructor starts from the empty store, as `__init__` does.
  `Read` has no `modifies` clause, so Dafny checks that reading never changes
  the store. `Save` delegates to `StoreModel.Save`, so its callers get that
  function's whole contract.

## Model

| member | source | states |
|---|---|---|
| StoreModel.Empty | src/stateStore.py:2-8 | a new store holds no key, and reading any key from it fails with the "Not found." error |
| StoreModel.Read | src/stateStore.py:5-9 | read succeeds exactly when the key is present and holds a non-`None` state, returns that very state, and otherwise fails with `ValueError("Not found.")` and no other error |
| StoreModel.Save | src/stateStore.py:11-12 | save always succeeds and leaves `key` in the dictionary holding `state`, even when `state` is `None`; the key set grows by exactly `key`; every other key keeps its entry and reads as before; reading `key` afterwards returns `state`, or fails when `state` is `None` |
| StoreModel.View | src/stateStore.py:5-9 | the observable map holds exactly the keys that read successfully, each mapped to the state read returns, and is drawn from the dictionary's keys |
| StoreModel.SaveObjectUpdatesView | src/stateStore.py:11-12 | saving a non-`None` state is a plain map update of what reads observe |
| StoreModel.SaveNoneRemovesFromView | src/stateStore.py:6-12 | saving `None` removes the key from what reads observe, although the key stays in the dictionary |
| StoreModel.SavedNoneReadsAsAbsent | src/stateStore.py:6-12 | after saving `None` under a key, every read agrees with the same store with that key deleted |
| StoreModel.ReadNeverSavedFails | src/stateStore.py:6-8 | reading a key that is not in the dictionary fails with the "Not found." error |
| StoreModel.SaveOverwrites | src/stateStore.py:12 | the last write wins: saving twice under one key equals saving only the second state, which is what read then returns |
| StoreModel.SavesCommute | src/stateStore.py:12 | saves under two different keys give the same store in either order |
| History.ReplayEntries | src/stateStore.py:11-12 | after a sequence of saves, each key holds the state of its last save, and a key no save names keeps its previous entry or stays absent |
| History.LastSavedIsLast | src/stateStore.py:12 | the reference answer for a key is the state of a save call naming that key which no later call under that key follows |
| History.ReadAfterHistory | src/stateStore.py:2-12 | reading a new store after a sequence of saves returns the state of the key's last save; it fails with "Not found." when the key was never saved or its last save stored `None` |
| StateStoreObject.StateStore.constructor | src/stateStore.py:2-3 | a new object's dictionary is the empty store, so every read of it fails with "Not found." |
| StateStoreObject.StateStore.Read | src/stateStore.py:5-9 | the method reads without modifying the object; it succeeds exactly on observable keys, returns their state, and otherwise fails with "Not found." |
| StateStoreObject.StateStore.Save | src/stateStore.py:11-12 | the method replaces the object's dictionary by its update at `key`; it has no precondition and no failure outcome |

## Left out

- `src/app.py`: the HTTP route forwards a message to a hosted language-model client and reads environment variables. It is network and environment I/O with no logic of its own, and it does not call `StateStore`.
- `src/config.py`: reads environment variables and exposes getters. It is environment I/O; its only constant is the default system prompt.
- `.github/validator/validator.py`: the repository-compliance validator. It checks for files and folders at fixed paths, reads them, and runs external tools; it shares no code with `StateStore`.
- Hashability: Python raises `TypeError` for an unhashable key, and that error path is not modelled. Keys here are Dafny types with equality that hold no object references (`K(!new)`), so keys that are class instances, which Python hashes by identity, are not modelled either.
- Mutation of the dictionary in place: `self.store` is a public Python dict that `save` mutates, so every holder of a reference to it sees the save. Here the field holds an immutable map value, so a copy of it taken before a save does not see the save. States themselves are unconstrained: when `V` is a class type, a state mutated after `save` reads back mutated, as in Python.
- Concurrency: the store is plain sequential code with no locking. Interleaved access from concurrent requests is not modelled.
