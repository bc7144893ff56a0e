/** A store as the result of a whole sequence of `save` calls, compared with
    an independent description of what such a sequence leaves behind: for
    each key, the state of the LAST save under that key. */
module History {
  import opened Wrappers
  import opened StoreModel

  /** One call `save(key, state)`. */
  datatype SaveCall<K, V> = SaveCall(key: K, state: Stored<V>)

  /** Performs the calls in order, first to last, starting from `s`. */
  function Replay<K(!new), V>(s: Store<K, V>, calls: seq<SaveCall<K, V>>): (s': Store<K, V>)
    decreases |calls|
  {
    if |calls| == 0 then s
    else Replay(Save(s, calls[0].key, calls[0].state), calls[1..])
  }

  /** The state of the last call under `key`, searching from the end;
      `None` when no call names `key`. */
  function LastSaved<K(==, !new), V>(calls: seq<SaveCall<K, V>>, key: K): (r: Option<Stored<V>>)
    ensures r.None? <==> forall i :: 0 <= i < |calls| ==> calls[i].key != key
    decreases |calls|
  {
    if |calls| == 0 then None
    else if calls[|calls| - 1].key == key then Some(calls[|calls| - 1].state)
    else LastSaved(calls[..|calls| - 1], key)
  }

  /** A state LastSaved finds is the state of a call naming `key` that no
      later call under `key` follows. */
  lemma {:induction false} LastSavedIsLast<K(!new), V>(calls: seq<SaveCall<K, V>>, key: K, st: Stored<V>)
    requires LastSaved(calls, key) == Some(st)
    ensures exists i :: 0 <= i < |calls| && calls[i] == SaveCall(key, st) &&
                        (forall j :: i < j < |calls| ==> calls[j].key != key)
    decreases |calls|
  {
    var n := |calls|;
    if calls[n - 1].key == key {
      assert calls[n - 1] == SaveCall(key, st);
    } else {
      var front := calls[..n - 1];
      LastSavedIsLast(front, key, st);
      var i :| 0 <= i < |front| && front[i] == SaveCall(key, st) &&
               (forall j :: i < j < |front| ==> front[j].key != key);
      assert calls[i] == front[i];
      assert forall j :: i < j < n ==> calls[j].key != key by {
        forall j | i < j < n
          ensures calls[j].key != key
        {
          if j < n - 1 {
            assert calls[j] == front[j];
          }
        }
      }
    }
  }

  /** LastSaved of a sequence, split at its first call. */
  lemma {:induction false} LastSavedFront<K(!new), V>(calls: seq<SaveCall<K, V>>, key: K)
    requires |calls| > 0
    ensures LastSaved(calls, key) ==
      (if LastSaved(calls[1..], key).Some? then LastSaved(calls[1..], key)
       else if calls[0].key == key then Some(calls[0].state)
       else None)
    decreases |calls|
  {
    if |calls| > 1 {
      var n := |calls|;
      assert calls[1..][..n - 2] == calls[..n - 1][1..];
      LastSavedFront(calls[..n - 1], key);
    }
  }

  /** Replaying calls leaves under each key the state of its last save, and
      leaves keys no call names as they were. */
  lemma {:induction false} ReplayEntries<K(!new), V>(s: Store<K, V>, calls: seq<SaveCall<K, V>>, key: K)
    ensures LastSaved(calls, key).Some? ==>
      key in Replay(s, calls).entries && Replay(s, calls).entries[key] == LastSaved(calls, key).value
    ensures LastSaved(calls, key).None? ==>
      (key in Replay(s, calls).entries <==> key in s.entries) &&
      (key in s.entries ==> Replay(s, calls).entries[key] == s.entries[key])
    decreases |calls|
  {
    if |calls| > 0 {
      ReplayEntries(Save(s, calls[0].key, calls[0].state), calls[1..], key);
      LastSavedFront(calls, key);
    }
  }

  /** Reading a fresh store after a sequence of saves: the key reads as the
      state of its last save, and fails with "Not found." when it was never
      saved or its last save stored `None`. */
  lemma ReadAfterHistory<K(!new), V>(calls: seq<SaveCall<K, V>>, key: K)
    ensures Read(Replay(Empty(), calls), key) ==
      (match LastSaved(calls, key)
       case Some(Object(v)) => Success(v)
       case _ => Failure(NotFound))
  {
    ReplayEntries(Empty(), calls, key);
  }
}
