/** Small facts about Python lists modelled as sequences. */
module Lists {

  /** The set of entries of a list, as Python's `set(xs)`. */
  function Elems<T>(s: seq<T>): set<T>
  {
    set x | x in s
  }

  lemma ElemsAppend<T>(s: seq<T>, x: T)
    ensures Elems(s + [x]) == Elems(s) + {x}
  {
  }

  /** One more entry of a prefix adds that entry to its elements. */
  lemma ElemsPrefix<T>(s: seq<T>, t: nat)
    requires t < |s|
    ensures Elems(s[..t + 1]) == Elems(s[..t]) + {s[t]}
  {
    assert s[..t + 1] == s[..t] + [s[t]];
    ElemsAppend(s[..t], s[t]);
  }

  /** No entry occurs twice. */
  predicate Distinct<T(==)>(s: seq<T>)
  {
    forall p, q | 0 <= p < q < |s| :: s[p] != s[q]
  }

  lemma DistinctPrefix<T>(s: seq<T>, n: nat)
    requires Distinct(s) && n <= |s|
    ensures Distinct(s[..n])
  {
  }

  /** In a list without repetitions the last entry is not among the others. */
  lemma DistinctLast<T>(s: seq<T>)
    requires Distinct(s) && s != []
    ensures s[|s| - 1] !in s[..|s| - 1]
  {
  }

  lemma AppendAssoc<T>(a: seq<T>, b: seq<T>, c: seq<T>)
    ensures a + b + c == a + (b + c)
  {
  }

  /** Appending a new element keeps a list free of repetitions. */
  lemma DistinctSnoc<T>(s: seq<T>, x: T)
    requires Distinct(s) && x !in s
    ensures Distinct(s + [x])
  {
  }

  /** Some element of a non-empty set. */
  lemma AnyOf<K>(S: set<K>) returns (x: K)
    requires S != {}
    ensures x in S
  {
    x :| x in S;
  }

  /** One step of a loop that takes the elements of `S` out of `rest` one
      at a time: the element joins those done, and `rest` shrinks. */
  lemma TakeOne<K>(S: set<K>, rest: set<K>, done: set<K>, b: K)
    requires rest <= S && S - rest <= done && b in rest
    ensures S - (rest - {b}) <= done + {b} && |rest - {b}| < |rest|
  {
  }

  /** The list of `(key, value)` pairs of `m`, keys in the order `ks`:
      `[(k, m[k]) for k in ks]`. */
  function PairsOf<K, V>(m: map<K, V>, ks: seq<K>): (ps: seq<(K, V)>)
    requires forall k | k in ks :: k in m
    ensures |ps| == |ks| && forall p | 0 <= p < |ks| :: ps[p] == (ks[p], m[ks[p]])
  {
    if ks == [] then [] else PairsOf(m, ks[..|ks| - 1]) + [(ks[|ks| - 1], m[ks[|ks| - 1]])]
  }

  /** The dictionary `{p[0]: p[1] for p in ps}`: a later pair with the
      same key replaces an earlier one. */
  function MapOfPairs<K, V>(ps: seq<(K, V)>): (m: map<K, V>)
  {
    if ps == [] then map[]
    else MapOfPairs(ps[..|ps| - 1])[ps[|ps| - 1].0 := ps[|ps| - 1].1]
  }

  /** Listing the pairs under the keys and reading them back gives the
      dictionary restricted to the listed keys. */
  lemma {:induction false} MapOfPairsOfPrefix<K, V>(m: map<K, V>, ks: seq<K>)
    requires forall k | k in ks :: k in m
    ensures MapOfPairs(PairsOf(m, ks)) == map k | k in Elems(ks) :: m[k]
  {
    if ks != [] {
      var pre, last := ks[..|ks| - 1], ks[|ks| - 1];
      var ps := PairsOf(m, ks);
      MapOfPairsOfPrefix(m, pre);
      assert ps[..|ps| - 1] == PairsOf(m, pre);
      assert ps[|ps| - 1] == (last, m[last]);
      assert ks == pre + [last];
      ElemsAppend(pre, last);
      RestrictPut(m, Elems(pre), last);
    }
  }

  /** Adding one more key to a restriction of `m`. */
  lemma RestrictPut<K, V>(m: map<K, V>, A: set<K>, x: K)
    requires x in m && A <= m.Keys
    ensures (map k | k in A :: m[k])[x := m[x]] == map k | k in A + {x} :: m[k]
  {
  }

  /** A dictionary survives the round trip through its list of pairs
      whenever the key list names exactly its keys. */
  lemma MapOfPairsOf<K, V>(m: map<K, V>, ks: seq<K>)
    requires Elems(ks) == m.Keys
    ensures MapOfPairs(PairsOf(m, ks)) == m
  {
    MapOfPairsOfPrefix(m, ks);
  }

  /** Updating one key leaves the value under every other key. */
  lemma UpdateElsewhere<K, V>(m: map<K, V>, k: K, v: V, t: K)
    requires t in m && t != k
    ensures t in m[k := v] && m[k := v][t] == m[t]
  {
  }

  /** `after` keeps every entry of `before`. */
  predicate Extends<K, V(==)>(before: map<K, V>, after: map<K, V>)
  {
    forall k | k in before :: k in after && after[k] == before[k]
  }

  /** Storing under a new key extends a dictionary by that key. */
  lemma ExtendsPut<K, V>(m: map<K, V>, k: K, v: V)
    requires k !in m
    ensures Extends(m, m[k := v]) && m[k := v].Keys == m.Keys + {k}
  {
  }

  /** Looking up a present key extends a dictionary by nothing. */
  lemma ExtendsRefl<K, V>(m: map<K, V>)
    ensures Extends(m, m) && m.Keys == m.Keys + {}
  {
  }

  lemma ExtendsPresent<K, V>(m: map<K, V>, k: K)
    requires k in m
    ensures Extends(m, m) && m.Keys == m.Keys + {k}
  {
  }

  /** A dictionary extended without new keys is unchanged. */
  lemma ExtendsSameKeys<K, V>(before: map<K, V>, after: map<K, V>)
    requires Extends(before, after) && after.Keys <= before.Keys
    ensures after == before
  {
  }

  lemma ExtendsTrans<K, V>(m0: map<K, V>, m1: map<K, V>, m2: map<K, V>, A: set<K>, B: set<K>)
    requires Extends(m0, m1) && m1.Keys == m0.Keys + A
    requires Extends(m1, m2) && m2.Keys == m1.Keys + B
    ensures Extends(m0, m2) && m2.Keys == m0.Keys + (A + B)
  {
  }
}
