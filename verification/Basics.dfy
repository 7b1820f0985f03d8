/** Types that several modules share. */
module Basics {

  type byte = x: nat | x < 256

  datatype Option<T> = None | Some(value: T)

  /** Removing a key takes at most one entry out of a map. */
  lemma RemoveShrinks<K, V>(m: map<K, V>, k: K)
    ensures |m - {k}| == if k in m then |m| - 1 else |m|
  {
    assert (m - {k}).Keys == m.Keys - {k};
    assert |(m - {k}).Keys| == if k in m then |m.Keys| - 1 else |m.Keys|;
  }
}
