/** `merge_listings_demographics`: `listings.merge(demographics,
    on="zip_prefix", how="left")`. Every listing contributes one row per
    demographic row with its prefix, in demographic order, or a single row
    with null demographic columns when there is none; listings keep their
    order. */
module Merging {
  import opened Seqs
  import opened Records

  predicate SamePrefix(l: CleanListing, d: CleanDemographic) {
    d.zipPrefix == l.zipPrefix
  }

  /** The demographic rows that join with `l`, in their original order. */
  function Matches(l: CleanListing, ds: seq<CleanDemographic>): seq<CleanDemographic> {
    Filter(ds, d => SamePrefix(l, d))
  }

  /** The output rows contributed by one listing. */
  function Block(l: CleanListing, ds: seq<CleanDemographic>): seq<MergedRow> {
    var ms := Matches(l, ds);
    if |ms| == 0 then [MergedRow(l, NullDemo)]
    else seq(|ms|, k requires 0 <= k < |ms| => MergedRow(l, ColumnsOf(ms[k])))
  }

  /** The left outer join, one block per listing in listing order. */
  function LeftJoin(ls: seq<CleanListing>, ds: seq<CleanDemographic>): seq<MergedRow> {
    FlatMap(ls, l => Block(l, ds))
  }

  /** How many demographic rows share the prefix of `l`. */
  function MatchCount(l: CleanListing, ds: seq<CleanDemographic>): nat {
    Count(ds, d => SamePrefix(l, d))
  }

  /** The number of rows a listing contributes: max(1, matches). */
  function FanOut(l: CleanListing, ds: seq<CleanDemographic>): nat {
    if MatchCount(l, ds) == 0 then 1 else MatchCount(l, ds)
  }

  function TotalFanOut(ls: seq<CleanListing>, ds: seq<CleanDemographic>): nat
    decreases |ls|
  {
    if |ls| == 0 then 0 else TotalFanOut(ls[..|ls| - 1], ds) + FanOut(ls[|ls| - 1], ds)
  }

  /** A listing without a match gives exactly one row, with every demographic
      column null. */
  lemma BlockUnmatched(l: CleanListing, ds: seq<CleanDemographic>)
    requires forall i :: 0 <= i < |ds| ==> !SamePrefix(l, ds[i])
    ensures Block(l, ds) == [MergedRow(l, NullDemo)]
  {
    CountZero(ds, d => SamePrefix(l, d));
  }

  /** A listing with matches gives one row per matching demographic row, all
      carrying the listing, each demographic row of its prefix appearing. */
  lemma BlockMatched(l: CleanListing, ds: seq<CleanDemographic>)
    requires MatchCount(l, ds) > 0
    ensures |Block(l, ds)| == MatchCount(l, ds)
    ensures forall r :: r in Block(l, ds) ==> r.listing == l
    ensures forall i :: 0 <= i < |ds| && SamePrefix(l, ds[i]) ==> MergedRow(l, ColumnsOf(ds[i])) in Block(l, ds)
    ensures forall r :: r in Block(l, ds) ==> exists i :: 0 <= i < |ds| && SamePrefix(l, ds[i]) && r.demo == ColumnsOf(ds[i])
  {
    var ms := Matches(l, ds);
    var b := Block(l, ds);
    SubseqMembers(ms, ds);
    forall i | 0 <= i < |ds| && SamePrefix(l, ds[i]) ensures MergedRow(l, ColumnsOf(ds[i])) in b {
      var k :| 0 <= k < |ms| && ms[k] == ds[i];
      assert b[k] == MergedRow(l, ColumnsOf(ds[i]));
    }
    forall r | r in b ensures exists i :: 0 <= i < |ds| && SamePrefix(l, ds[i]) && r.demo == ColumnsOf(ds[i]) {
      var k :| 0 <= k < |b| && b[k] == r;
      assert ms[k] in ds;
      var i :| 0 <= i < |ds| && ds[i] == ms[k];
    }
  }

  lemma BlockLength(l: CleanListing, ds: seq<CleanDemographic>)
    ensures |Block(l, ds)| == FanOut(l, ds)
  {
  }

  /** The output length is the sum over listings of max(1, matches). */
  lemma {:induction false} LeftJoinLength(ls: seq<CleanListing>, ds: seq<CleanDemographic>)
    ensures |LeftJoin(ls, ds)| == TotalFanOut(ls, ds)
    decreases |ls|
  {
    if |ls| > 0 {
      LeftJoinLength(ls[..|ls| - 1], ds);
      BlockLength(ls[|ls| - 1], ds);
    }
  }

  /** Listing order is kept: joining a concatenation is concatenating joins. */
  lemma LeftJoinAppend(a: seq<CleanListing>, b: seq<CleanListing>, ds: seq<CleanDemographic>)
    ensures LeftJoin(a + b, ds) == LeftJoin(a, ds) + LeftJoin(b, ds)
  {
    FlatMapAppend(a, b, l => Block(l, ds));
  }

  /** Every output row carries an input listing unchanged, and its demographic
      columns are either all null or those of a demographic row with the same
      prefix. */
  lemma {:induction false} LeftJoinProvenance(ls: seq<CleanListing>, ds: seq<CleanDemographic>)
    ensures forall r :: r in LeftJoin(ls, ds) ==>
      && r.listing in ls
      && (|| r.demo == NullDemo
          || exists i :: 0 <= i < |ds| && SamePrefix(r.listing, ds[i]) && r.demo == ColumnsOf(ds[i]))
    decreases |ls|
  {
    if |ls| > 0 {
      var init := ls[..|ls| - 1];
      var l := ls[|ls| - 1];
      LeftJoinProvenance(init, ds);
      if MatchCount(l, ds) > 0 {
        BlockMatched(l, ds);
      }
      forall r | r in LeftJoin(ls, ds) ensures r.listing in ls {
        if r in LeftJoin(init, ds) {
          assert r.listing in init;
        }
      }
    }
  }

  /** Every demographic row of a listing's prefix is joined to it. */
  lemma {:induction false} LeftJoinComplete(ls: seq<CleanListing>, ds: seq<CleanDemographic>)
    ensures forall j, i :: 0 <= j < |ls| && 0 <= i < |ds| && SamePrefix(ls[j], ds[i]) ==>
      MergedRow(ls[j], ColumnsOf(ds[i])) in LeftJoin(ls, ds)
    ensures forall j :: 0 <= j < |ls| && MatchCount(ls[j], ds) == 0 ==> MergedRow(ls[j], NullDemo) in LeftJoin(ls, ds)
    decreases |ls|
  {
    if |ls| > 0 {
      var init := ls[..|ls| - 1];
      var l := ls[|ls| - 1];
      LeftJoinComplete(init, ds);
      var out := LeftJoin(ls, ds);
      assert out == LeftJoin(init, ds) + Block(l, ds);
      forall j, i | 0 <= j < |ls| && 0 <= i < |ds| && SamePrefix(ls[j], ds[i])
        ensures MergedRow(ls[j], ColumnsOf(ds[i])) in out
      {
        if j < |init| {
          assert ls[j] == init[j];
        } else {
          CountPositive(ds, d => SamePrefix(l, d), i);
          BlockMatched(l, ds);
        }
      }
      forall j | 0 <= j < |ls| && MatchCount(ls[j], ds) == 0 ensures MergedRow(ls[j], NullDemo) in out {
        if j < |init| {
          assert ls[j] == init[j];
        } else {
          forall i | 0 <= i < |ds| ensures !SamePrefix(l, ds[i]) {
            if SamePrefix(l, ds[i]) {
              CountPositive(ds, d => SamePrefix(l, d), i);
            }
          }
          BlockUnmatched(l, ds);
        }
      }
    }
  }

  /** The join as a nested loop: for each listing, scan the demographics. */
  method LeftJoinLoop(ls: seq<CleanListing>, ds: seq<CleanDemographic>) returns (out: seq<MergedRow>)
    ensures out == LeftJoin(ls, ds)
  {
    out := [];
    var j := 0;
    while j < |ls|
      invariant 0 <= j <= |ls|
      invariant out == LeftJoin(ls[..j], ds)
    {
      var l := ls[j];
      var block := MatchRows(l, ds);
      if |block| == 0 {
        block := [MergedRow(l, NullDemo)];
      }
      assert ls[..j + 1][..j] == ls[..j];
      out := out + block;
      j := j + 1;
    }
    assert ls[..|ls|] == ls;
  }

  /** The rows one listing forms with its matching demographic rows. */
  method MatchRows(l: CleanListing, ds: seq<CleanDemographic>) returns (rows: seq<MergedRow>)
    ensures |Matches(l, ds)| == 0 ==> rows == []
    ensures |Matches(l, ds)| > 0 ==> rows == Block(l, ds)
  {
    rows := [];
    var i := 0;
    while i < |ds|
      invariant 0 <= i <= |ds|
      invariant |rows| == |Matches(l, ds[..i])|
      invariant forall k :: 0 <= k < |rows| ==> rows[k] == MergedRow(l, ColumnsOf(Matches(l, ds[..i])[k]))
    {
      assert ds[..i + 1][..i] == ds[..i];
      if ds[i].zipPrefix == l.zipPrefix {
        rows := rows + [MergedRow(l, ColumnsOf(ds[i]))];
      }
      i := i + 1;
    }
    assert ds[..|ds|] == ds;
  }

  /** A listing's rows follow the demographic order: row k of its block
      carries the k-th matching demographic row, and the matching rows are an
      order-preserving subsequence of the demographics. */
  lemma BlockOrder(l: CleanListing, ds: seq<CleanDemographic>)
    requires MatchCount(l, ds) > 0
    ensures IsSubseq(Matches(l, ds), ds)
    ensures forall k :: 0 <= k < |Matches(l, ds)| ==> SamePrefix(l, Matches(l, ds)[k])
    ensures |Block(l, ds)| == |Matches(l, ds)|
    ensures forall k :: 0 <= k < |Block(l, ds)| ==> Block(l, ds)[k] == MergedRow(l, ColumnsOf(Matches(l, ds)[k]))
  {
    BlockLength(l, ds);
  }

  lemma LeftJoinSingle(l: CleanListing, ds: seq<CleanDemographic>)
    ensures LeftJoin([l], ds) == Block(l, ds)
  {
    FlatMapAppend([], [l], x => Block(x, ds));
    assert [l][..0] == [];
  }

  /** One listing with prefix `p` and two demographic rows with prefix `p`
      give exactly two rows, differing only in their demographic columns. */
  lemma FanOutExample(l: CleanListing, d1: CleanDemographic, d2: CleanDemographic)
    requires d1.zipPrefix == l.zipPrefix && d2.zipPrefix == l.zipPrefix
    ensures LeftJoin([l], [d1, d2]) == [MergedRow(l, ColumnsOf(d1)), MergedRow(l, ColumnsOf(d2))]
  {
    var p := (d: CleanDemographic) => SamePrefix(l, d);
    assert [d1, d2][..1] == [d1];
    assert [d1][..0] == [];
    assert Filter([d1], p) == [d1];
    assert Matches(l, [d1, d2]) == [d1, d2];
    LeftJoinSingle(l, [d1, d2]);
  }

  /** A listing whose prefix no demographic row has appears once, with null
      demographic columns. */
  lemma NoMatchExample(l: CleanListing, d: CleanDemographic)
    requires d.zipPrefix != l.zipPrefix
    ensures LeftJoin([l], [d]) == [MergedRow(l, NullDemo)]
  {
    BlockUnmatched(l, [d]);
    LeftJoinSingle(l, [d]);
  }
}
