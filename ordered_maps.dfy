/**
 * `BTreeMap<String, V>` as an association list kept in strictly ascending
 * key order. Rust orders `String`s by their UTF-8 bytes, which is the
 * lexicographic order of their code points, the order used here.
 */
module OrderedMaps {
  import opened Wrappers

  // ----- the order on strings ---------------------------------------------

  /** Lexicographic strict order on strings: a proper prefix comes first. */
  predicate Less(a: string, b: string)
    decreases |a|
  {
    if b == [] then false
    else if a == [] then true
    else if a[0] != b[0] then a[0] < b[0]
    else Less(a[1..], b[1..])
  }

  lemma {:induction false} LessIrreflexive(a: string)
    ensures !Less(a, a)
    decreases |a|
  {
    if a != [] {
      LessIrreflexive(a[1..]);
    }
  }

  lemma {:induction false} LessTransitive(a: string, b: string, c: string)
    requires Less(a, b) && Less(b, c)
    ensures Less(a, c)
    decreases |a|
  {
    if a != [] && a[0] == b[0] && b[0] == c[0] {
      LessTransitive(a[1..], b[1..], c[1..]);
    }
  }

  /** Any two different strings are ordered one way or the other. */
  lemma {:induction false} LessTotal(a: string, b: string)
    requires a != b
    ensures Less(a, b) || Less(b, a)
    decreases |a|
  {
    if a != [] && b != [] && a[0] == b[0] {
      assert a == [a[0]] + a[1..] && b == [b[0]] + b[1..];
      LessTotal(a[1..], b[1..]);
    }
  }

  lemma {:induction false} LessAsymmetric(a: string, b: string)
    requires Less(a, b)
    ensures !Less(b, a)
    decreases |a|
  {
    if a != [] && a[0] == b[0] {
      LessAsymmetric(a[1..], b[1..]);
    }
  }

  // ----- sorted association lists -----------------------------------------

  /** Keys strictly ascending, hence each key at most once. */
  predicate Sorted<V>(a: seq<(string, V)>) {
    forall i, j :: 0 <= i < j < |a| ==> Less(a[i].0, a[j].0)
  }

  /** Every key is below `k`. */
  predicate AllBelow<V>(a: seq<(string, V)>, k: string) {
    forall i :: 0 <= i < |a| ==> Less(a[i].0, k)
  }

  predicate HasKey<V>(a: seq<(string, V)>, k: string) {
    exists i :: 0 <= i < |a| && a[i].0 == k
  }

  /** `get`: the value stored under `k`. */
  function Find<V>(a: seq<(string, V)>, k: string): Option<V> {
    if a == [] then None
    else if a[0].0 == k then Some(a[0].1)
    else Find(a[1..], k)
  }

  /** `entry(k).or_default()`: the value stored under `k`, or `d` when there is none. */
  function FindOr<V>(a: seq<(string, V)>, k: string, d: V): V {
    match Find(a, k)
    case Some(v) => v
    case None => d
  }

  /** `insert(k, v)`: replaces the value under `k`, or adds `k` at its place in the order. */
  function Put<V>(a: seq<(string, V)>, k: string, v: V): seq<(string, V)>
    decreases |a|
  {
    if a == [] then [(k, v)]
    else if a[0].0 == k then [(k, v)] + a[1..]
    else if Less(k, a[0].0) then [(k, v)] + a
    else [a[0]] + Put(a[1..], k, v)
  }

  /** The keys of `Put` are the old keys and `k`. */
  lemma {:induction false} PutKeys<V>(a: seq<(string, V)>, k: string, v: V)
    ensures forall i :: 0 <= i < |Put(a, k, v)| ==> Put(a, k, v)[i].0 == k || HasKey(a, Put(a, k, v)[i].0)
    ensures HasKey(Put(a, k, v), k)
    decreases |a|
  {
    var r := Put(a, k, v);
    assert r[0].0 == k || r[0] == a[0];
    if a != [] && a[0].0 != k && !Less(k, a[0].0) {
      PutKeys(a[1..], k, v);
      var r' := Put(a[1..], k, v);
      assert r == [a[0]] + r';
      forall i | 0 < i < |r| ensures r[i].0 == k || HasKey(a, r[i].0) {
        assert r[i] == r'[i - 1];
        if r'[i - 1].0 != k {
          var j :| 0 <= j < |a[1..]| && a[1..][j].0 == r'[i - 1].0;
          assert a[j + 1].0 == r[i].0;
        }
      }
      var j :| 0 <= j < |r'| && r'[j].0 == k;
      assert r[j + 1].0 == k;
    } else if a != [] {
      forall i | 0 < i < |r| ensures r[i].0 == k || HasKey(a, r[i].0) {
        if a[0].0 == k {
          assert r[i] == a[i];
        } else {
          assert r[i] == a[i - 1];
        }
      }
    }
  }

  /** A key below the first key of a sorted list is below all of its keys. */
  lemma AllAboveSorted<V>(a: seq<(string, V)>, x: string)
    requires Sorted(a) && a != [] && Less(x, a[0].0)
    ensures forall i :: 0 <= i < |a| ==> Less(x, a[i].0)
  {
    forall i | 0 < i < |a| ensures Less(x, a[i].0) {
      LessTransitive(x, a[0].0, a[i].0);
    }
  }

  /** Putting keeps the list sorted. */
  lemma {:induction false} PutSorted<V>(a: seq<(string, V)>, k: string, v: V)
    requires Sorted(a)
    ensures Sorted(Put(a, k, v))
    decreases |a|
  {
    var r := Put(a, k, v);
    if a == [] {
    } else if a[0].0 == k {
      assert forall i :: 0 < i < |r| ==> r[i] == a[i];
    } else if Less(k, a[0].0) {
      AllAboveSorted(a, k);
      assert forall i :: 0 < i < |r| ==> r[i] == a[i - 1];
    } else {
      LessTotal(k, a[0].0);
      PutSorted(a[1..], k, v);
      PutKeys(a[1..], k, v);
      var r' := Put(a[1..], k, v);
      assert r == [a[0]] + r';
      forall i | 0 < i < |r| ensures Less(a[0].0, r[i].0) {
        assert r[i] == r'[i - 1];
        if r'[i - 1].0 != k {
          var j :| 0 <= j < |a[1..]| && a[1..][j].0 == r'[i - 1].0;
          assert a[j + 1].0 == r[i].0;
        }
      }
      forall i, j | 0 <= i < j < |r| ensures Less(r[i].0, r[j].0) {
        if i > 0 {
          assert r[i] == r'[i - 1] && r[j] == r'[j - 1];
        }
      }
    }
  }

  /** After putting, `k` holds `v` and every other key holds what it held before. */
  lemma {:induction false} FindPut<V>(a: seq<(string, V)>, k: string, v: V, k': string)
    ensures Find(Put(a, k, v), k') == if k' == k then Some(v) else Find(a, k')
    decreases |a|
  {
    if a != [] && a[0].0 != k && !Less(k, a[0].0) {
      FindPut(a[1..], k, v, k');
      assert Put(a, k, v)[1..] == Put(a[1..], k, v);
    } else if a != [] && a[0].0 == k {
      assert Put(a, k, v)[1..] == a[1..];
    } else if a != [] {
      assert Put(a, k, v)[1..] == a;
    }
  }

  /** A key above all keys is added at the end. */
  lemma {:induction false} PutAbove<V>(a: seq<(string, V)>, k: string, v: V)
    requires AllBelow(a, k)
    ensures Put(a, k, v) == a + [(k, v)]
    decreases |a|
  {
    if a != [] {
      LessIrreflexive(k);
      LessAsymmetric(a[0].0, k);
      PutAbove(a[1..], k, v);
      assert a == [a[0]] + a[1..];
    }
  }

  /** Putting the last key of a sorted list replaces its value in place. */
  lemma {:induction false} PutOnLast<V>(a: seq<(string, V)>, k: string, x: V, v: V)
    requires AllBelow(a, k)
    ensures Put(a + [(k, x)], k, v) == a + [(k, v)]
    decreases |a|
  {
    if a != [] {
      LessIrreflexive(k);
      LessAsymmetric(a[0].0, k);
      assert (a + [(k, x)])[1..] == a[1..] + [(k, x)];
      PutOnLast(a[1..], k, x, v);
      assert a == [a[0]] + a[1..];
    } else {
      assert [(k, x)][1..] == [];
    }
  }

  /** In a sorted list, looking up the key of the last pair gives its value. */
  lemma {:induction false} FindLast<V>(a: seq<(string, V)>, k: string, x: V)
    requires AllBelow(a, k)
    ensures Find(a + [(k, x)], k) == Some(x)
    decreases |a|
  {
    if a != [] {
      LessIrreflexive(k);
      assert (a + [(k, x)])[1..] == a[1..] + [(k, x)];
      FindLast(a[1..], k, x);
    }
  }

  /** A key above every key of the list is not in it. */
  lemma {:induction false} FindAbsent<V>(a: seq<(string, V)>, k: string)
    requires AllBelow(a, k)
    ensures Find(a, k) == None
    decreases |a|
  {
    if a != [] {
      LessIrreflexive(k);
      FindAbsent(a[1..], k);
    }
  }

  /** What `Find` returns is stored in the list under that key. */
  lemma {:induction false} FindMember<V>(a: seq<(string, V)>, k: string)
    ensures Find(a, k).Some? ==> (k, Find(a, k).value) in a
    decreases |a|
  {
    if a != [] && a[0].0 != k {
      FindMember(a[1..], k);
    }
  }

  /** Every pair of `Put(a, k, v)` is `(k, v)` or a pair of `a`. */
  lemma {:induction false} PutPairs<V>(a: seq<(string, V)>, k: string, v: V)
    ensures forall p :: p in Put(a, k, v) ==> p == (k, v) || p in a
    decreases |a|
  {
    if a != [] && a[0].0 != k && !Less(k, a[0].0) {
      PutPairs(a[1..], k, v);
      assert Put(a, k, v) == [a[0]] + Put(a[1..], k, v);
      assert forall p :: p in a[1..] ==> p in a;
    } else if a != [] && a[0].0 == k {
      assert forall p :: p in a[1..] ==> p in a;
    }
  }
}
