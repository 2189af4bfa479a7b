/** `normalize_series`: lower-case, turn every non-word character into a space,
    collapse whitespace runs to one space, strip both ends. */
module Normalize {
  import opened Text

  /** `str.replace(r"[^\w]", " ")`: every non-word character becomes a space. */
  function ReplaceNonWord(s: string): (r: string)
    ensures |r| == |s|
    ensures forall i :: 0 <= i < |s| ==> r[i] == (if IsWordChar(s[i]) then s[i] else ' ')
  {
    seq(|s|, i requires 0 <= i < |s| => if IsWordChar(s[i]) then s[i] else ' ')
  }

  /** The substitution as `re.sub` performs it: scan left to right; a
      character matching `[^\w]` is replaced by one space, any other is copied. */
  function SubNonWord(s: string): string
    decreases |s|
  {
    if |s| == 0 then []
    else (if IsWordChar(s[0]) then [s[0]] else " ") + SubNonWord(s[1..])
  }

  /** The scan equals the per-character map. */
  lemma {:induction false} SubNonWordIsPointwise(s: string)
    ensures SubNonWord(s) == ReplaceNonWord(s)
    decreases |s|
  {
    if |s| > 0 {
      SubNonWordIsPointwise(s[1..]);
    }
  }

  /** `str.replace(r"\s+", " ")`: each maximal whitespace run becomes one space. */
  function CollapseWs(s: string): (r: string)
    ensures |s| > 0 && !IsSpace(s[0]) ==> |r| > 0 && r[0] == s[0]
    decreases |s|
  {
    if |s| == 0 then []
    else if IsSpace(s[0]) then " " + CollapseWs(TrimLeft(s))
    else [s[0]] + CollapseWs(s[1..])
  }

  /** The full street normalisation of one cell. */
  function NormalizeStreet(s: string): (r: string)
    ensures Normalized(r)
    ensures r == Join(Split(ReplaceNonWord(Lower(s))))
  {
    var x := ReplaceNonWord(Lower(s));
    StripCollapse(x);
    SplitCanonTokens(x);
    JoinNormalized(Split(x));
    Strip(CollapseWs(x))
  }

  /** A normalised string is left unchanged by normalisation. */
  lemma NormalizeFixes(t: string)
    requires Normalized(t)
    ensures NormalizeStreet(t) == t
  {
    var x := ReplaceNonWord(Lower(t));
    assert x == t by {
      forall i | 0 <= i < |t| ensures x[i] == t[i] {
        assert IsCanonChar(t[i]) || t[i] == ' ';
      }
    }
    JoinSplit(t);
  }

  /** `normalize_series` is idempotent. */
  lemma NormalizeIdempotent(s: string)
    ensures NormalizeStreet(NormalizeStreet(s)) == NormalizeStreet(s)
  {
    NormalizeFixes(NormalizeStreet(s));
  }

  /** Normalisation ignores case: lower-casing first changes nothing. */
  lemma NormalizeIgnoresCase(s: string)
    ensures NormalizeStreet(Lower(s)) == NormalizeStreet(s)
  {
    assert Lower(Lower(s)) == Lower(s);
  }

  // ---- helper facts about whitespace handling ----

  lemma {:induction false} SplitTrimLeft(s: string)
    ensures Split(TrimLeft(s)) == Split(s)
    decreases |s|
  {
    if |s| > 0 && IsSpace(s[0]) {
      SplitTrimLeft(s[1..]);
    }
  }

  lemma {:induction false} SplitEmptyIffAllSpace(s: string)
    ensures Split(s) == [] <==> AllSpace(s)
    decreases |s|
  {
    if |s| > 0 {
      SplitEmptyIffAllSpace(s[1..]);
      if IsSpace(s[0]) {
        assert AllSpace(s) <==> AllSpace(s[1..]);
      }
    }
  }

  lemma {:induction false} CollapseWord(w: string, t: string)
    requires NoSpace(w)
    ensures CollapseWs(w + t) == w + CollapseWs(t)
    decreases |w|
  {
    if |w| > 0 {
      assert (w + t)[0] == w[0] && !IsSpace(w[0]);
      assert (w + t)[1..] == w[1..] + t;
      CollapseWord(w[1..], t);
      assert w == [w[0]] + w[1..];
    } else {
      assert w + t == t;
    }
  }

  lemma CollapseAllSpace(s: string)
    requires AllSpace(s)
    ensures CollapseWs(s) == [] || CollapseWs(s) == " "
  {
  }

  lemma {:induction false} TrimRightAppend(a: string, z: string)
    requires |TrimRight(z)| > 0
    ensures TrimRight(a + z) == a + TrimRight(z)
    decreases |z|
  {
    assert |z| > 0;
    assert (a + z)[|a + z| - 1] == z[|z| - 1];
    if IsSpace(z[|z| - 1]) {
      assert (a + z)[..|a + z| - 1] == a + z[..|z| - 1];
      TrimRightAppend(a, z[..|z| - 1]);
    }
  }

  lemma TrimRightKeepsStart(z: string)
    requires |z| > 0 && !IsSpace(z[0])
    ensures |TrimRight(z)| > 0
  {
  }

  lemma TrimLeftNoop(z: string)
    requires |z| == 0 || !IsSpace(z[0])
    ensures TrimLeft(z) == z
  {
  }

  /** Collapsing and stripping whitespace is the same as splitting into words
      and joining them with single spaces. */
  lemma {:induction false} StripCollapse(x: string)
    ensures Strip(CollapseWs(x)) == Join(Split(x))
    decreases |x|
  {
    if |x| == 0 {
    } else if IsSpace(x[0]) {
      var y := TrimLeft(x);
      assert |y| < |x|;
      StripCollapse(y);
      StripLeadingSpace(y);
      SplitTrimLeft(x);
    } else {
      var n := WordLen(x);
      var w := x[..n];
      var rest := x[n..];
      assert x == w + rest;
      assert Split(x) == [w] + Split(rest);
      CollapseWord(w, rest);
      SplitEmptyIffAllSpace(rest);
      if AllSpace(rest) {
        StripWordThenSpaces(w, rest);
      } else {
        var y := TrimLeft(rest);
        SplitTrimLeft(rest);
        SplitEmptyIffAllSpace(y);
        assert |y| < |x|;
        StripCollapse(y);
        StripWordThenRest(w, rest);
        assert |Split(rest)| > 0;
        assert Join([w] + Split(rest)) == w + " " + Join(Split(rest));
      }
    }
  }

  lemma StripLeadingSpace(y: string)
    requires |y| == 0 || !IsSpace(y[0])
    ensures Strip(" " + CollapseWs(y)) == Strip(CollapseWs(y))
  {
    var z := CollapseWs(y);
    assert (" " + z)[1..] == z;
    assert TrimLeft(" " + z) == TrimLeft(z);
  }

  lemma StripWordThenSpaces(w: string, rest: string)
    requires |w| > 0 && NoSpace(w) && AllSpace(rest)
    ensures Strip(w + CollapseWs(rest)) == w
  {
    CollapseAllSpace(rest);
    var c := CollapseWs(rest);
    TrimLeftNoop(w + c);
    if c == " " {
      assert (w + c)[..|w + c| - 1] == w;
    } else {
      assert w + c == w;
    }
  }

  lemma StripWordThenRest(w: string, rest: string)
    requires |w| > 0 && NoSpace(w)
    requires |rest| > 0 && IsSpace(rest[0]) && !AllSpace(rest)
    ensures Strip(w + CollapseWs(rest)) == w + " " + Strip(CollapseWs(TrimLeft(rest)))
  {
    var y := TrimLeft(rest);
    assert |y| > 0 by {
      assert rest[..|rest|] == rest;
    }
    var z := CollapseWs(y);
    assert |z| > 0 && !IsSpace(z[0]);
    assert CollapseWs(rest) == " " + z;
    assert w + CollapseWs(rest) == (w + " ") + z;
    StripKeepsPrefix(w + " ", z);
  }

  /** Stripping after a prefix that starts with a non-space leaves the prefix alone. */
  lemma StripKeepsPrefix(a: string, z: string)
    requires |a| > 0 && !IsSpace(a[0])
    requires |z| > 0 && !IsSpace(z[0])
    ensures Strip(a + z) == a + Strip(z)
  {
    assert (a + z)[0] == a[0];
    TrimLeftNoop(a + z);
    TrimLeftNoop(z);
    TrimRightKeepsStart(z);
    TrimRightAppend(a, z);
  }

  /** Splitting a string of lower-case word characters and spaces gives canonical tokens. */
  lemma {:induction false} SplitCanonTokens(x: string)
    requires forall i :: 0 <= i < |x| ==> IsCanonChar(x[i]) || IsSpace(x[i])
    ensures AllTokens(Split(x))
    decreases |x|
  {
    if |x| > 0 {
      if IsSpace(x[0]) {
        SplitCanonTokens(x[1..]);
      } else {
        var n := WordLen(x);
        SplitCanonTokens(x[n..]);
        assert IsToken(x[..n]) by {
          forall i | 0 <= i < n ensures IsCanonChar(x[..n][i]) {
            assert x[..n][i] == x[i] && !IsSpace(x[i]);
          }
        }
      }
    }
  }
}
