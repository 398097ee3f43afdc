/**
 * The "first occurrence wins" rule both upload services apply to a batch:
 * walking the rows in order, a row is kept unless an earlier kept row has the
 * same key. Stated once here, over any key function.
 */
module FirstWins {

  ghost function KeysOf<T, K>(s: seq<T>, key: T -> K): set<K> {
    set x | x in s :: key(x)
  }

  /** A non-empty sequence has at least one key, that of its first element. */
  lemma KeysOfNonEmpty<T, K>(s: seq<T>, key: T -> K)
    requires s != []
    ensures key(s[0]) in KeysOf(s, key) && |KeysOf(s, key)| > 0
  {
    assert s[0] in s;
  }

  ghost predicate KeysDistinct<T, K>(s: seq<T>, key: T -> K) {
    forall i, j | 0 <= i < j < |s| :: key(s[i]) != key(s[j])
  }

  lemma KeysOfAppend<T, K>(s: seq<T>, x: T, key: T -> K)
    ensures KeysOf(s + [x], key) == KeysOf(s, key) + {key(x)}
  {
    assert forall y | y in s + [x] :: y in s || y == x;
  }

  /** The position of the first row of `s` whose key is `k`. */
  ghost function FirstIndex<T, K>(s: seq<T>, key: T -> K, k: K): (i: nat)
    requires k in KeysOf(s, key)
    ensures i < |s| && key(s[i]) == k
    ensures forall j | 0 <= j < i :: key(s[j]) != k
    decreases |s|
  {
    var init := s[..|s| - 1];
    assert s == init + [s[|s| - 1]];
    KeysOfAppend(init, s[|s| - 1], key);
    if k in KeysOf(init, key) then FirstIndex(init, key, k) else |s| - 1
  }

  /** The rows kept by the first-wins rule, in input order. */
  ghost function FirstOccurrences<T, K>(s: seq<T>, key: T -> K): (kept: seq<T>)
    ensures KeysOf(kept, key) == KeysOf(s, key)
    ensures KeysDistinct(kept, key)
    ensures forall x | x in kept :: x in s
    decreases |s|
  {
    if s == [] then []
    else
      var init := s[..|s| - 1];
      var last := s[|s| - 1];
      assert s == init + [last];
      KeysOfAppend(init, last, key);
      var prefix := FirstOccurrences(init, key);
      if key(last) in KeysOf(prefix, key) then prefix
      else
        KeysOfAppend(prefix, last, key);
        prefix + [last]
  }

  /** A key already present before the last row keeps its first position. */
  lemma FirstIndexOfInit<T, K>(s: seq<T>, key: T -> K, k: K)
    requires s != [] && k in KeysOf(s[..|s| - 1], key)
    ensures k in KeysOf(s, key)
    ensures FirstIndex(s, key, k) == FirstIndex(s[..|s| - 1], key, k)
  {
    assert s == s[..|s| - 1] + [s[|s| - 1]];
    KeysOfAppend(s[..|s| - 1], s[|s| - 1], key);
  }

  /** Each kept row is the first row of the input with its key. */
  lemma {:induction false} KeptIsFirst<T, K>(s: seq<T>, key: T -> K, m: nat)
    requires m < |FirstOccurrences(s, key)|
    ensures key(FirstOccurrences(s, key)[m]) in KeysOf(s, key)
    ensures FirstOccurrences(s, key)[m] == s[FirstIndex(s, key, key(FirstOccurrences(s, key)[m]))]
    decreases |s|
  {
    var kept := FirstOccurrences(s, key);
    var init := s[..|s| - 1];
    var last := s[|s| - 1];
    assert s == init + [last];
    KeysOfAppend(init, last, key);
    var prefix := FirstOccurrences(init, key);
    if m < |prefix| {
      KeptIsFirst(init, key, m);
      assert kept[m] == prefix[m];
      assert prefix[m] in prefix;
      FirstIndexOfInit(s, key, key(prefix[m]));
      var i := FirstIndex(init, key, key(prefix[m]));
      assert prefix[m] == init[i] == s[i];
    } else {
      assert kept == prefix + [last] && kept[m] == last;
      assert key(last) !in KeysOf(init, key);
      assert FirstIndex(s, key, key(last)) == |s| - 1;
    }
  }

  /** Consecutive kept rows are ordered by where their keys first occur in the input. */
  lemma {:induction false} KeptInFirstOrder<T, K>(s: seq<T>, key: T -> K, m: nat)
    requires m + 1 < |FirstOccurrences(s, key)|
    ensures key(FirstOccurrences(s, key)[m]) in KeysOf(s, key)
    ensures key(FirstOccurrences(s, key)[m + 1]) in KeysOf(s, key)
    ensures FirstIndex(s, key, key(FirstOccurrences(s, key)[m])) < FirstIndex(s, key, key(FirstOccurrences(s, key)[m + 1]))
    decreases |s|
  {
    var kept := FirstOccurrences(s, key);
    var init := s[..|s| - 1];
    var last := s[|s| - 1];
    assert s == init + [last];
    KeysOfAppend(init, last, key);
    var prefix := FirstOccurrences(init, key);
    assert kept[m] == prefix[m];
    assert prefix[m] in prefix;
    FirstIndexOfInit(s, key, key(prefix[m]));
    if m + 1 < |prefix| {
      KeptInFirstOrder(init, key, m);
      assert kept[m + 1] == prefix[m + 1];
      assert prefix[m + 1] in prefix;
      FirstIndexOfInit(s, key, key(prefix[m + 1]));
    } else {
      assert kept == prefix + [last] && kept[m + 1] == last;
      assert key(last) !in KeysOf(init, key);
      assert FirstIndex(s, key, key(last)) == |s| - 1;
    }
  }

  /** Distinct keys: as many kept rows as distinct keys in the input. */
  lemma {:induction false} DistinctKeysCount<T, K>(s: seq<T>, key: T -> K)
    requires KeysDistinct(s, key)
    ensures |KeysOf(s, key)| == |s|
    decreases |s|
  {
    if s != [] {
      var init := s[..|s| - 1];
      var last := s[|s| - 1];
      assert s == init + [last];
      KeysOfAppend(init, last, key);
      DistinctKeysCount(init, key);
      assert key(last) !in KeysOf(init, key);
    }
  }

  /** The number of kept rows is the number of distinct keys of the input. */
  lemma FirstOccurrencesCount<T, K>(s: seq<T>, key: T -> K)
    ensures |FirstOccurrences(s, key)| == |KeysOf(s, key)|
  {
    DistinctKeysCount(FirstOccurrences(s, key), key);
  }

  /** A non-empty batch whose rows all share one key keeps exactly its first row. */
  lemma SameKeyKeepsFirst<T, K>(s: seq<T>, key: T -> K)
    requires |s| >= 1
    requires forall i | 0 <= i < |s| :: key(s[i]) == key(s[0])
    ensures FirstOccurrences(s, key) == [s[0]]
  {
    assert KeysOf(s, key) == {key(s[0])};
    FirstOccurrencesCount(s, key);
    var kept := FirstOccurrences(s, key);
    assert |kept| == 1;
    KeptIsFirst(s, key, 0);
    assert kept[0] == s[FirstIndex(s, key, key(kept[0]))];
  }

  /** The kept rows converted one by one, in order: what the loops push. */
  function Converted<T, U>(s: seq<T>, f: T -> U): (out: seq<U>)
    ensures |out| == |s|
    ensures forall j | 0 <= j < |s| :: out[j] == f(s[j])
  {
    seq(|s|, j requires 0 <= j < |s| => f(s[j]))
  }

  lemma ConvertedSnoc<T, U>(s: seq<T>, x: T, f: T -> U)
    ensures Converted(s + [x], f) == Converted(s, f) + [f(x)]
  {
    assert forall j | 0 <= j < |s| :: (s + [x])[j] == s[j];
  }

  /** The first-wins rule on two rows: the second survives exactly when its key differs. */
  lemma TwoRows<T, K>(a: T, b: T, key: T -> K)
    ensures FirstOccurrences([a, b], key) == if key(a) == key(b) then [a] else [a, b]
  {
    assert [a][..0] == [];
    assert FirstOccurrences([a], key) == [a];
    assert [a, b][..1] == [a];
    assert KeysOf([a], key) == {key(a)};
  }

  /** One more row: it is kept exactly when no kept row has its key yet. */
  lemma FirstOccurrencesSnoc<T, K>(s: seq<T>, x: T, key: T -> K)
    ensures key(x) in KeysOf(FirstOccurrences(s, key), key) ==>
      FirstOccurrences(s + [x], key) == FirstOccurrences(s, key)
    ensures key(x) !in KeysOf(FirstOccurrences(s, key), key) ==>
      && FirstOccurrences(s + [x], key) == FirstOccurrences(s, key) + [x]
      && KeysOf(FirstOccurrences(s, key) + [x], key) == KeysOf(FirstOccurrences(s, key), key) + {key(x)}
  {
    assert (s + [x])[..|s|] == s;
    KeysOfAppend(FirstOccurrences(s, key), x, key);
  }

  /** Each kept row's converted value is stored under the row's key. */
  ghost predicate PushedUnder<T, K, U>(kept: seq<T>, m: map<K, U>, key: T -> K, f: T -> U) {
    forall j | 0 <= j < |kept| :: key(kept[j]) in m && m[key(kept[j])] == f(kept[j])
  }

  /** Storing a row with a new key keeps every earlier entry. */
  lemma PushedUnderStep<T, K, U>(kept: seq<T>, m: map<K, U>, key: T -> K, f: T -> U, x: T)
    requires PushedUnder(kept, m, key, f) && key(x) !in m
    ensures PushedUnder(kept + [x], m[key(x) := f(x)], key, f)
  {
    var after := kept + [x];
    var m' := m[key(x) := f(x)];
    forall j | 0 <= j < |after|
      ensures key(after[j]) in m' && m'[key(after[j])] == f(after[j])
    {
      if j < |kept| {
        assert after[j] == kept[j];
      }
    }
  }

  /** A key of some rows is the key of one of them. */
  lemma KeyPosition<T, K>(s: seq<T>, key: T -> K, k: K) returns (j: nat)
    requires k in KeysOf(s, key)
    ensures j < |s| && key(s[j]) == k
  {
    var x :| x in s && key(x) == k;
    var m :| 0 <= m < |s| && s[m] == x;
    j := m;
  }

  /**
   * A map holding every kept row under its key, and nothing else, has one
   * entry per kept row, and each entry comes from the first row with that key.
   */
  lemma PushedUnderFirst<T, K, U>(s: seq<T>, m: map<K, U>, key: T -> K, f: T -> U)
    requires m.Keys == KeysOf(s, key)
    requires PushedUnder(FirstOccurrences(s, key), m, key, f)
    ensures |m| == |FirstOccurrences(s, key)|
    ensures forall k | k in m :: m[k] == f(s[FirstIndex(s, key, k)])
  {
    MapOfDistinctKeys(m, FirstOccurrences(s, key), key);
    PushedUnderEntries(s, m, key, f);
  }

  /** A map whose keys are those of rows with distinct keys has one entry per row. */
  lemma MapOfDistinctKeys<T, K, U>(m: map<K, U>, kept: seq<T>, key: T -> K)
    requires m.Keys == KeysOf(kept, key) && KeysDistinct(kept, key)
    ensures |m| == |kept|
  {
    DistinctKeysCount(kept, key);
    assert |m| == |m.Keys|;
  }

  /** The entry under each key is the converted first row with that key. */
  lemma PushedUnderEntries<T, K, U>(s: seq<T>, m: map<K, U>, key: T -> K, f: T -> U)
    requires m.Keys == KeysOf(s, key)
    requires PushedUnder(FirstOccurrences(s, key), m, key, f)
    ensures forall k | k in m :: m[k] == f(s[FirstIndex(s, key, k)])
  {
    var kept := FirstOccurrences(s, key);
    forall k | k in m
      ensures m[k] == f(s[FirstIndex(s, key, k)])
    {
      var j := KeyPosition(kept, key, k);
      KeptIsFirst(s, key, j);
    }
  }
}
