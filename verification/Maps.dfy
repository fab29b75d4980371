/** Maps less one key. */
module Maps {
  function Without<K(==, !new), V>(m: map<K, V>, k: K): (rest: map<K, V>)
    ensures forall q :: q in rest <==> q in m && q != k
    ensures forall q | q in rest :: rest[q] == m[q]
  {
    map q | q in m && q != k :: m[q]
  }
}
