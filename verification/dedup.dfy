/** `DataFrame.drop_duplicates(subset=…)` with the default `keep='first'`: a
    row is dropped when an earlier row has the same key. Keys are compared
    structurally, so two missing values count as equal, as pandas does. */
module Dedup {
  import opened Seqs

  /** The keys occurring in `s`. */
  function Keys<T, K>(s: seq<T>, key: T -> K): set<K>
    decreases |s|
  {
    if |s| == 0 then {} else Keys(s[..|s| - 1], key) + {key(s[|s| - 1])}
  }

  predicate KeysDistinct<T, K(==)>(s: seq<T>, key: T -> K) {
    forall i, j :: 0 <= i < j < |s| ==> key(s[i]) != key(s[j])
  }

  /** Row `i` of `s` is the first row with its key. */
  predicate IsFirst<T, K(==)>(s: seq<T>, i: int, key: T -> K)
    requires 0 <= i < |s|
  {
    forall j :: 0 <= j < i ==> key(s[j]) != key(s[i])
  }

  lemma {:induction false} KeyOfRow<T, K>(s: seq<T>, key: T -> K, i: nat)
    requires i < |s|
    ensures key(s[i]) in Keys(s, key)
    decreases |s|
  {
    if i < |s| - 1 {
      assert s[..|s| - 1][i] == s[i];
      KeyOfRow(s[..|s| - 1], key, i);
    }
  }

  lemma {:induction false} RowOfKey<T, K>(s: seq<T>, key: T -> K, k: K)
    requires k in Keys(s, key)
    ensures exists i :: 0 <= i < |s| && key(s[i]) == k
    decreases |s|
  {
    if key(s[|s| - 1]) != k {
      RowOfKey(s[..|s| - 1], key, k);
      var i :| 0 <= i < |s| - 1 && key(s[..|s| - 1][i]) == k;
      assert s[..|s| - 1][i] == s[i];
    }
  }

  /** Keep a row exactly when no earlier row has its key. */
  function DropDuplicates<T(==), K(==)>(s: seq<T>, key: T -> K): seq<T>
    decreases |s|
  {
    if |s| == 0 then []
    else
      var kept := DropDuplicates(s[..|s| - 1], key);
      if key(s[|s| - 1]) in Keys(s[..|s| - 1], key) then kept else kept + [s[|s| - 1]]
  }

  /** The result is an order-preserving subsequence with pairwise distinct
      keys and the same key set as the input, and it holds the first row of
      every key as a value. Which positions are kept, when two rows are equal,
      is pinned by `FirstRowsIsDedup`. */
  lemma {:induction false} DropDuplicatesSpec<T, K>(s: seq<T>, key: T -> K)
    ensures IsSubseq(DropDuplicates(s, key), s)
    ensures KeysDistinct(DropDuplicates(s, key), key)
    ensures Keys(DropDuplicates(s, key), key) == Keys(s, key)
    ensures forall i :: 0 <= i < |s| && IsFirst(s, i, key) ==> s[i] in DropDuplicates(s, key)
    decreases |s|
  {
    if |s| > 0 {
      var init := s[..|s| - 1];
      var x := s[|s| - 1];
      var kept := DropDuplicates(init, key);
      DropDuplicatesSpec(init, key);
      assert s == init + [x];
      if key(x) in Keys(init, key) {
        SubseqAppend(kept, init, x);
      } else {
        SubseqSnoc(kept, init, x);
        var r := kept + [x];
        assert r[..|kept|] == kept;
        forall i | 0 <= i < |kept| ensures key(kept[i]) != key(x) {
          KeyOfRow(kept, key, i);
        }
      }
    }
    KeepsFirst(s, key);
  }

  /** The value of the first row of every key is in the result. */
  lemma {:induction false} KeepsFirst<T, K>(s: seq<T>, key: T -> K)
    ensures forall i :: 0 <= i < |s| && IsFirst(s, i, key) ==> s[i] in DropDuplicates(s, key)
    decreases |s|
  {
    if |s| > 0 {
      KeepsFirst(s[..|s| - 1], key);
      forall i | 0 <= i < |s| && IsFirst(s, i, key) ensures s[i] in DropDuplicates(s, key) {
        KeepsFirstStep(s, key, i);
      }
    }
  }

  lemma KeepsFirstStep<T, K>(s: seq<T>, key: T -> K, i: nat)
    requires i < |s| && IsFirst(s, i, key)
    requires forall k :: 0 <= k < |s| - 1 && IsFirst(s[..|s| - 1], k, key) ==> s[k] in DropDuplicates(s[..|s| - 1], key)
    ensures s[i] in DropDuplicates(s, key)
  {
    var n := |s|;
    var init := s[..n - 1];
    assert forall j :: 0 <= j < n - 1 ==> init[j] == s[j];
    if i < n - 1 {
      assert IsFirst(init, i, key);
    } else {
      NotInKeys(init, key, key(s[n - 1]));
    }
  }

  /** A key that no row has is not among the keys. */
  lemma {:induction false} NotInKeys<T, K>(s: seq<T>, key: T -> K, k: K)
    requires forall j :: 0 <= j < |s| ==> key(s[j]) != k
    ensures k !in Keys(s, key)
    decreases |s|
  {
    if |s| > 0 {
      var init := s[..|s| - 1];
      assert forall j :: 0 <= j < |init| ==> init[j] == s[j];
      NotInKeys(init, key, k);
    }
  }

  /** Reference reading of `keep='first'` by position: row `i` is in the result
      exactly when it is the first row with its key, and the kept rows are in
      input order. */
  function FirstRows<T, K(==)>(s: seq<T>, key: T -> K): seq<T>
    decreases |s|
  {
    if |s| == 0 then []
    else FirstRows(s[..|s| - 1], key) + (if IsFirst(s, |s| - 1, key) then [s[|s| - 1]] else [])
  }

  /** The key-set scan keeps exactly the rows that are first with their key, in
      order: the positional reading above. Exactly equal rows are therefore
      told apart by position, not by value. */
  lemma {:induction false} FirstRowsIsDedup<T, K>(s: seq<T>, key: T -> K)
    ensures DropDuplicates(s, key) == FirstRows(s, key)
    decreases |s|
  {
    if |s| > 0 {
      var n := |s|;
      var init := s[..n - 1];
      var x := s[n - 1];
      FirstRowsIsDedup(init, key);
      assert forall j :: 0 <= j < n - 1 ==> init[j] == s[j];
      if key(x) in Keys(init, key) {
        RowOfKey(init, key, key(x));
        var j :| 0 <= j < |init| && key(init[j]) == key(x);
        assert !IsFirst(s, n - 1, key);
        assert FirstRows(init, key) + [] == FirstRows(init, key);
      } else {
        forall j | 0 <= j < n - 1 ensures key(s[j]) != key(x) {
          KeyOfRow(init, key, j);
        }
        assert IsFirst(s, n - 1, key);
      }
    }
  }

  /** One step of the scan: the new row is kept exactly when its key is new. */
  lemma DropDuplicatesSnoc<T, K>(s: seq<T>, x: T, key: T -> K)
    ensures Keys(s + [x], key) == Keys(s, key) + {key(x)}
    ensures DropDuplicates(s + [x], key)
         == if key(x) in Keys(s, key) then DropDuplicates(s, key) else DropDuplicates(s, key) + [x]
  {
    assert (s + [x])[..|s|] == s;
  }

  /** A sequence whose keys are already distinct is left as it is. */
  lemma {:induction false} DistinctFixed<T, K>(s: seq<T>, key: T -> K)
    requires KeysDistinct(s, key)
    ensures DropDuplicates(s, key) == s
    decreases |s|
  {
    if |s| > 0 {
      var init := s[..|s| - 1];
      var x := s[|s| - 1];
      assert KeysDistinct(init, key) by {
        forall i, j | 0 <= i < j < |init| ensures key(init[i]) != key(init[j]) {
          assert init[i] == s[i] && init[j] == s[j];
        }
      }
      DistinctFixed(init, key);
      if key(x) in Keys(init, key) {
        RowOfKey(init, key, key(x));
        assert false;
      }
      assert s == init + [x];
    }
  }

  /** Deduplicating twice is deduplicating once. */
  lemma DropDuplicatesIdempotent<T, K>(s: seq<T>, key: T -> K)
    ensures DropDuplicates(DropDuplicates(s, key), key) == DropDuplicates(s, key)
  {
    DropDuplicatesSpec(s, key);
    DistinctFixed(DropDuplicates(s, key), key);
  }

  /** The pandas scan: walk the rows once, remembering the keys seen so far. */
  method DropDuplicatesScan<T(==), K(==)>(s: seq<T>, key: T -> K) returns (r: seq<T>)
    ensures r == DropDuplicates(s, key)
  {
    var seen: set<K> := {};
    r := [];
    var i := 0;
    while i < |s|
      invariant 0 <= i <= |s|
      invariant r == DropDuplicates(s[..i], key)
      invariant seen == Keys(s[..i], key)
    {
      var x := s[i];
      assert s[..i + 1] == s[..i] + [x];
      DropDuplicatesSnoc(s[..i], x, key);
      if key(x) !in seen {
        r := r + [x];
        seen := seen + {key(x)};
      }
      i := i + 1;
    }
    assert s[..|s|] == s;
  }
}
