/** Result types shared by every module. */
module Common {
  datatype Option<+T> = None | Some(value: T)

  datatype Result<+T, +E> = Ok(value: T) | Err(error: E)

  function Lookup<K, V>(m: map<K, V>, k: K): Option<V> {
    if k in m then Some(m[k]) else None
  }

  /**
   What became of a transaction that its client tried to commit: committed; rolled back or never
   begun; or committed by the server although the client saw an error.
   */
  datatype TxOutcome = Committed | RolledBack | CommitLost

  predicate TakesEffect(o: TxOutcome) { o != RolledBack }

  /** Maps that look the same at every key are equal. */
  lemma SameMap<K(!new), V>(a: map<K, V>, b: map<K, V>)
    requires forall k :: Lookup(a, k) == Lookup(b, k)
    ensures a == b
  {
    forall k ensures (k in a <==> k in b) && (k in a ==> a[k] == b[k]) {
      assert Lookup(a, k) == Lookup(b, k);
    }
  }
}
