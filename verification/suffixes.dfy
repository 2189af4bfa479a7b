/** `remove_duplicate_suffixes`: split the street into tokens, scan them left to
    right and drop a token that equals the last kept token when that token is a
    street-type suffix; join the kept tokens with single spaces.

    The scan is defined for any suffix list `sfx` and proved about it once; the
    cleaning code uses it with `StreetSuffixes`. */
module Suffixes {
  import opened Text
  import opened Seqs

  const StreetSuffixes: seq<string> :=
    ["street", "avenue", "boulevard", "road", "drive", "lane", "place", "center", "highway"]

  /** No two neighbouring tokens are the same suffix from `sfx`. */
  predicate NoRepeatedSuffix(ts: seq<string>, sfx: seq<string>) {
    forall i :: 0 < i < |ts| ==> !(ts[i] == ts[i - 1] && ts[i] in sfx)
  }

  /** The scan's test: `t` is dropped when it equals the last kept token and is
      one of the suffixes. */
  predicate Repeats(kept: seq<string>, t: string, sfx: seq<string>) {
    |kept| > 0 && t == kept[|kept| - 1] && t in sfx
  }

  /** The kept tokens after scanning `ts`; one step of the scan per token, so
      the prefix of length k is the `cleaned` list after k iterations. */
  function Collapse(ts: seq<string>, sfx: seq<string>): seq<string>
    decreases |ts|
  {
    if |ts| == 0 then []
    else
      var kept := Collapse(ts[..|ts| - 1], sfx);
      var t := ts[|ts| - 1];
      if Repeats(kept, t, sfx) then kept else kept + [t]
  }

  function CollapseSuffixes(ts: seq<string>): seq<string> {
    Collapse(ts, StreetSuffixes)
  }

  /** The kept tokens are a subsequence of the input, the last token is always
      kept, and no suffix is left doubled. */
  lemma {:induction false} CollapseSpec(ts: seq<string>, sfx: seq<string>)
    ensures IsSubseq(Collapse(ts, sfx), ts)
    ensures |ts| > 0 ==>
      |Collapse(ts, sfx)| > 0 && Collapse(ts, sfx)[|Collapse(ts, sfx)| - 1] == ts[|ts| - 1]
    ensures NoRepeatedSuffix(Collapse(ts, sfx), sfx)
    decreases |ts|
  {
    if |ts| > 0 {
      var init := ts[..|ts| - 1];
      var t := ts[|ts| - 1];
      var kept := Collapse(init, sfx);
      CollapseSpec(init, sfx);
      assert ts == init + [t];
      if Repeats(kept, t, sfx) {
        SubseqAppend(kept, init, t);
      } else {
        SubseqSnoc(kept, init, t);
        NoRepeatedSnoc(kept, t, sfx);
      }
    }
  }

  lemma NoRepeatedSnoc(kept: seq<string>, t: string, sfx: seq<string>)
    requires NoRepeatedSuffix(kept, sfx) && !Repeats(kept, t, sfx)
    ensures NoRepeatedSuffix(kept + [t], sfx)
  {
    var r := kept + [t];
    forall i | 0 < i < |r| ensures !(r[i] == r[i - 1] && r[i] in sfx) {
      if i < |kept| {
        assert r[i] == kept[i] && r[i - 1] == kept[i - 1];
      } else {
        assert r[i] == t && r[i - 1] == kept[|kept| - 1];
      }
    }
  }

  /** `clean_suffix` on one cell. */
  function RemoveDuplicateSuffixes(text: string): (r: string)
    ensures Split(r) == CollapseSuffixes(Split(text))
  {
    var kept := CollapseSuffixes(Split(text));
    CollapseSpec(Split(text), StreetSuffixes);
    SubseqMembers(kept, Split(text));
    assert forall i :: 0 <= i < |kept| ==> kept[i] in Split(text);
    SplitJoin(kept);
    Join(kept)
  }

  /** On a normalised street the result is normalised again. */
  lemma RemoveDuplicateSuffixesNormalized(text: string)
    requires Normalized(text)
    ensures Normalized(RemoveDuplicateSuffixes(text))
  {
    var ts := Split(text);
    var kept := CollapseSuffixes(ts);
    JoinSplit(text);
    CollapseSpec(ts, StreetSuffixes);
    SubseqMembers(kept, ts);
    assert AllTokens(kept) by {
      forall i | 0 <= i < |kept| ensures IsToken(kept[i]) {
        assert kept[i] in ts;
      }
    }
    JoinNormalized(kept);
  }

  /** Reference reading: a token is dropped exactly when it repeats the token
      just before it in the INPUT and is a suffix. */
  function DropRepeated(ts: seq<string>, sfx: seq<string>): seq<string>
    decreases |ts|
  {
    if |ts| == 0 then []
    else
      var n := |ts|;
      DropRepeated(ts[..n - 1], sfx)
        + (if n >= 2 && ts[n - 1] == ts[n - 2] && ts[n - 1] in sfx then [] else [ts[n - 1]])
  }

  /** The scan against the last KEPT token equals the reference reading against
      the previous INPUT token. */
  lemma {:induction false} CollapseIsReference(ts: seq<string>, sfx: seq<string>)
    ensures Collapse(ts, sfx) == DropRepeated(ts, sfx)
    decreases |ts|
  {
    if |ts| > 0 {
      CollapseIsReference(ts[..|ts| - 1], sfx);
      ReferenceStep(ts, sfx);
    }
  }

  lemma ReferenceStep(ts: seq<string>, sfx: seq<string>)
    requires |ts| > 0
    requires Collapse(ts[..|ts| - 1], sfx) == DropRepeated(ts[..|ts| - 1], sfx)
    ensures Collapse(ts, sfx) == DropRepeated(ts, sfx)
  {
    var n := |ts|;
    var init := ts[..n - 1];
    var kept := Collapse(init, sfx);
    var t := ts[n - 1];
    CollapseSpec(init, sfx);
    var drop := n >= 2 && t == ts[n - 2] && t in sfx;
    assert Repeats(kept, t, sfx) == drop by {
      if n >= 2 {
        assert init[n - 2] == ts[n - 2];
      }
    }
    assert kept + [] == kept;
  }

  /** A sequence with no repeated suffix is left as it is. */
  lemma {:induction false} CollapseFixes(ts: seq<string>, sfx: seq<string>)
    requires NoRepeatedSuffix(ts, sfx)
    ensures Collapse(ts, sfx) == ts
    decreases |ts|
  {
    if |ts| > 0 {
      var n := |ts|;
      var init := ts[..n - 1];
      assert NoRepeatedSuffix(init, sfx) by {
        forall i | 0 < i < |init| ensures !(init[i] == init[i - 1] && init[i] in sfx) {
          assert init[i] == ts[i] && init[i - 1] == ts[i - 1];
        }
      }
      CollapseFixes(init, sfx);
      assert ts == ts[..n - 1] + [ts[n - 1]];
    }
  }

  /** The token-level collapse is idempotent. */
  lemma CollapseIdempotent(ts: seq<string>, sfx: seq<string>)
    ensures Collapse(Collapse(ts, sfx), sfx) == Collapse(ts, sfx)
  {
    CollapseSpec(ts, sfx);
    CollapseFixes(Collapse(ts, sfx), sfx);
  }

  /** `remove_duplicate_suffixes` is idempotent. */
  lemma RemoveDuplicateSuffixesIdempotent(text: string)
    ensures RemoveDuplicateSuffixes(RemoveDuplicateSuffixes(text)) == RemoveDuplicateSuffixes(text)
  {
    var r := RemoveDuplicateSuffixes(text);
    var kept := CollapseSuffixes(Split(text));
    CollapseIdempotent(Split(text), StreetSuffixes);
    assert CollapseSuffixes(Split(r)) == kept;
  }

  /** The tokens that are not suffixes. */
  function NonSuffixes(ts: seq<string>, sfx: seq<string>): seq<string>
    decreases |ts|
  {
    if |ts| == 0 then []
    else NonSuffixes(ts[..|ts| - 1], sfx) + (if ts[|ts| - 1] in sfx then [] else [ts[|ts| - 1]])
  }

  /** Only suffix tokens are ever dropped: every other token, repeated or not,
      is kept in order. */
  lemma {:induction false} NonSuffixesKept(ts: seq<string>, sfx: seq<string>)
    ensures NonSuffixes(Collapse(ts, sfx), sfx) == NonSuffixes(ts, sfx)
    decreases |ts|
  {
    if |ts| > 0 {
      var n := |ts|;
      var kept := Collapse(ts[..n - 1], sfx);
      NonSuffixesKept(ts[..n - 1], sfx);
      var t := ts[n - 1];
      if !Repeats(kept, t, sfx) {
        assert (kept + [t])[..|kept|] == kept;
      }
    }
  }

  /** A run of one suffix token collapses to a single occurrence. */
  lemma {:induction false} RunCollapses(prefix: seq<string>, t: string, n: nat, sfx: seq<string>)
    requires t in sfx && n >= 1
    ensures Collapse(prefix + seq(n, _ => t), sfx) == Collapse(prefix + [t], sfx)
    decreases n
  {
    if n > 1 {
      var run := prefix + seq(n, _ => t);
      var shorter := prefix + seq(n - 1, _ => t);
      assert run[..|run| - 1] == shorter;
      assert run[|run| - 1] == t;
      CollapseSpec(shorter, sfx);
      RunCollapses(prefix, t, n - 1, sfx);
    } else {
      assert seq(n, _ => t) == [t];
    }
  }

  lemma ExampleStreetRun()
    ensures RemoveDuplicateSuffixes("street street street") == "street"
  {
    ExampleRunTokens();
    assert "street" in StreetSuffixes;
    RunCollapses([], "street", 3, StreetSuffixes);
    assert [] + seq(3, _ => "street") == ["street", "street", "street"];
    assert CollapseSuffixes(["street"]) == ["street"] by {
      assert ["street"][..0] == [];
    }
  }

  lemma ExampleRunTokens()
    ensures Split("street street street") == ["street", "street", "street"]
  {
    assert Join(["street", "street", "street"]) == "street street street";
    SplitJoin(["street", "street", "street"]);
  }
}
