/** Shared vocabulary: bytes, keys and optional values. */
module Base {
  newtype byte = x: int | 0 <= x < 256

  type Bytes = seq<byte>

  /** A trimmed cache key; the empty key stands for a blank model or session name. */
  type Key = string

  datatype Option<+T> = None | Some(value: T)

  /** All timestamps and durations are counted in nanoseconds. */
  const HOUR: int := 3_600_000_000_000

  lemma TakeAll<T>(s: seq<T>)
    ensures s[..|s|] == s
  {
  }

  lemma MoveOne<T>(a: seq<T>, x: T, b: seq<T>)
    ensures a + ([x] + b) == (a + [x]) + b
  {
  }

  lemma DropTwice<K, V>(m: map<K, V>, a: set<K>, b: set<K>)
    ensures m - a - b == m - (a + b)
  {
  }

  /** A sub-map is its super-map with the other keys dropped. */
  lemma SubmapIsDrop<K, V>(m: map<K, V>, sub: map<K, V>)
    requires forall k | k in sub :: k in m && sub[k] == m[k]
    ensures sub == m - (m.Keys - sub.Keys)
  {
  }

  lemma PutForgets<K, V>(m: map<K, V>, k: K, v: V)
    ensures m[k := v] == (m - {k})[k := v]
  {
  }

  /** One step of a sweep that removes the doomed keys while walking over all keys. */
  lemma SweepStep<K, V>(m: map<K, V>, doomed: set<K>, rest: set<K>, k: K)
    requires k in rest && rest <= m.Keys
    ensures k in m - (doomed - rest)
    ensures m - (doomed - (rest - {k})) ==
            if k in doomed then m - (doomed - rest) - {k} else m - (doomed - rest)
    ensures |doomed - (rest - {k})| == |doomed - rest| + if k in doomed then 1 else 0
  {
    if k in doomed {
      assert doomed - (rest - {k}) == doomed - rest + {k};
      DropOneMore(m, doomed - rest, k);
    } else {
      assert doomed - (rest - {k}) == doomed - rest;
    }
  }

  lemma SweepEnds<K, V>(m: map<K, V>, doomed: set<K>)
    requires doomed <= m.Keys
    ensures m == m - (doomed - m.Keys) && |doomed - m.Keys| == 0
    ensures doomed - {} == doomed
  {
    assert doomed - m.Keys == {};
  }

  lemma DropOneMore<K, V>(m: map<K, V>, gone: set<K>, k: K)
    ensures m - gone - {k} == m - (gone + {k})
  {
  }

  lemma PrefixTransitive<T>(a: seq<T>, b: seq<T>, c: seq<T>)
    requires a <= b && b <= c
    ensures a <= c
  {
  }
}
