/** Character classes and the Python `str` primitives the cleaning code relies on
    (`lower`, `strip`, `split`, `" ".join`), restricted to ASCII. */
module Text {

  /** Python `str.isspace` (and regex `\s`) on ASCII: space, TAB..CR and the
      four separator controls 0x1C..0x1F. */
  predicate IsSpace(c: char) {
    c == ' ' || (9 <= c as int <= 13) || (28 <= c as int <= 31)
  }

  /** Regex `\d` on ASCII. */
  predicate IsDigit(c: char) {
    '0' <= c <= '9'
  }

  /** Regex `\w` on ASCII: letters, digits and underscore. */
  predicate IsWordChar(c: char) {
    ('a' <= c <= 'z') || ('A' <= c <= 'Z') || IsDigit(c) || c == '_'
  }

  /** A word character that `lower()` leaves unchanged. */
  predicate IsCanonChar(c: char) {
    ('a' <= c <= 'z') || IsDigit(c) || c == '_'
  }

  function ToLower(c: char): (d: char)
    ensures IsWordChar(c) <==> IsWordChar(d)
    ensures IsCanonChar(c) ==> d == c
    ensures IsWordChar(c) ==> IsCanonChar(d)
  {
    if 'A' <= c <= 'Z' then (c as int + 32) as char else c
  }

  /** Python `str.lower()` on ASCII. */
  function Lower(s: string): (r: string)
    ensures |r| == |s|
    ensures forall i :: 0 <= i < |s| ==> r[i] == ToLower(s[i])
  {
    seq(|s|, i requires 0 <= i < |s| => ToLower(s[i]))
  }

  predicate NoSpace(s: string) {
    forall i :: 0 <= i < |s| ==> !IsSpace(s[i])
  }

  predicate AllSpace(s: string) {
    forall i :: 0 <= i < |s| ==> IsSpace(s[i])
  }

  /** Length of the leading run of whitespace. */
  function SpaceLen(s: string): (n: nat)
    ensures n <= |s|
    ensures forall k :: 0 <= k < n ==> IsSpace(s[k])
    ensures n < |s| ==> !IsSpace(s[n])
    decreases |s|
  {
    if |s| > 0 && IsSpace(s[0]) then 1 + SpaceLen(s[1..]) else 0
  }

  /** Length of the trailing run of whitespace. */
  function TrailLen(s: string): (n: nat)
    ensures n <= |s|
    ensures forall k :: |s| - n <= k < |s| ==> IsSpace(s[k])
    ensures n < |s| ==> !IsSpace(s[|s| - n - 1])
    decreases |s|
  {
    if |s| > 0 && IsSpace(s[|s| - 1]) then 1 + TrailLen(s[..|s| - 1]) else 0
  }

  /** Python `str.lstrip()`: drops the leading run of whitespace. */
  function TrimLeft(s: string): (r: string)
    ensures |r| <= |s|
    ensures |r| > 0 ==> !IsSpace(r[0])
  {
    s[SpaceLen(s)..]
  }

  /** Python `str.rstrip()`: drops the trailing run of whitespace. */
  function TrimRight(s: string): (r: string)
    ensures |r| <= |s|
    ensures |r| > 0 ==> !IsSpace(r[|r| - 1])
  {
    s[..|s| - TrailLen(s)]
  }

  /** Python `str.strip()`. */
  function Strip(s: string): (r: string)
    ensures |r| <= |s|
    ensures |r| > 0 ==> !IsSpace(r[0]) && !IsSpace(r[|r| - 1])
  {
    TrimRight(TrimLeft(s))
  }

  /** `strip()` keeps exactly the slice between the leading whitespace run and
      a trailing whitespace run. */
  lemma StripSpec(s: string)
    ensures SpaceLen(s) + |Strip(s)| <= |s|
    ensures Strip(s) == s[SpaceLen(s)..SpaceLen(s) + |Strip(s)|]
    ensures AllSpace(s[..SpaceLen(s)])
    ensures AllSpace(s[SpaceLen(s) + |Strip(s)|..])
  {
    StripIsSlice(s);
    StripTail(s);
    var head := s[..SpaceLen(s)];
    forall k | 0 <= k < |head| ensures IsSpace(head[k]) {
      assert head[k] == s[k];
    }
  }

  lemma StripIsSlice(s: string)
    ensures SpaceLen(s) + |Strip(s)| <= |s|
    ensures Strip(s) == s[SpaceLen(s)..SpaceLen(s) + |Strip(s)|]
  {
    var i := SpaceLen(s);
    var l := TrimLeft(s);
    assert l == s[i..];
    var k := |l| - TrailLen(l);
    assert Strip(s) == l[..k];
    SliceOfSuffix(s, i, k);
  }

  lemma StripTail(s: string)
    ensures SpaceLen(s) + |Strip(s)| <= |s|
    ensures AllSpace(s[SpaceLen(s) + |Strip(s)|..])
  {
    var i := SpaceLen(s);
    var l := s[i..];
    var n := TrailLen(l);
    assert |Strip(s)| == |l| - n;
    var tail := s[i + |l| - n..];
    forall k | 0 <= k < |tail| ensures IsSpace(tail[k]) {
      assert tail[k] == l[|l| - n + k];
    }
  }

  lemma SliceOfSuffix(s: string, i: nat, k: nat)
    requires i + k <= |s|
    ensures s[i..][..k] == s[i..i + k]
  {
  }

  /** One step of `lstrip()`, as the character-by-character scan. */
  lemma TrimLeftStep(s: string)
    ensures TrimLeft(s) == if |s| > 0 && IsSpace(s[0]) then TrimLeft(s[1..]) else s
  {
    if |s| > 0 && IsSpace(s[0]) {
      assert s[SpaceLen(s)..] == s[1..][SpaceLen(s[1..])..];
    }
  }

  /** One step of `rstrip()`, as the scan from the right. */
  lemma TrimRightStep(s: string)
    ensures TrimRight(s) == if |s| > 0 && IsSpace(s[|s| - 1]) then TrimRight(s[..|s| - 1]) else s
  {
    if |s| > 0 && IsSpace(s[|s| - 1]) {
      var t := s[..|s| - 1];
      assert s[..|s| - TrailLen(s)] == t[..|t| - TrailLen(t)];
    }
  }

  /** Length of the leading run of non-whitespace characters. */
  function WordLen(s: string): (n: nat)
    ensures n <= |s|
    ensures NoSpace(s[..n])
    ensures n < |s| ==> IsSpace(s[n])
    ensures |s| > 0 && !IsSpace(s[0]) ==> n > 0
    decreases |s|
  {
    if |s| == 0 || IsSpace(s[0]) then 0 else 1 + WordLen(s[1..])
  }

  /** Python `str.split()` without arguments: the maximal runs of non-whitespace. */
  function Split(s: string): (ts: seq<string>)
    ensures forall i :: 0 <= i < |ts| ==> |ts[i]| > 0 && NoSpace(ts[i])
    decreases |s|
  {
    if |s| == 0 then []
    else if IsSpace(s[0]) then Split(s[1..])
    else
      var n := WordLen(s);
      [s[..n]] + Split(s[n..])
  }

  /** Python `" ".join(ts)`. */
  function Join(ts: seq<string>): string
    decreases |ts|
  {
    if |ts| == 0 then []
    else if |ts| == 1 then ts[0]
    else ts[0] + " " + Join(ts[1..])
  }

  /** A canonical token: a non-empty run of lower-case word characters. */
  predicate IsToken(w: string) {
    |w| > 0 && forall i :: 0 <= i < |w| ==> IsCanonChar(w[i])
  }

  predicate AllTokens(ts: seq<string>) {
    forall i :: 0 <= i < |ts| ==> IsToken(ts[i])
  }

  /** The shape produced by street normalisation: lower-case word characters
      and single spaces, with no space at either end. */
  predicate Normalized(s: string) {
    && (forall i :: 0 <= i < |s| ==> IsCanonChar(s[i]) || s[i] == ' ')
    && (|s| > 0 ==> s[0] != ' ' && s[|s| - 1] != ' ')
    && (forall i :: 0 < i < |s| ==> SingleSpaceAt(s, i))
  }

  /** The space at position `i`, if there is one, does not follow another space. */
  predicate SingleSpaceAt(s: string, i: int)
    requires 0 < i < |s|
  {
    s[i] == ' ' ==> s[i - 1] != ' '
  }

  lemma AllTokensAppend(a: seq<string>, b: seq<string>)
    requires AllTokens(a) && AllTokens(b)
    ensures AllTokens(a + b)
  {
    forall i | 0 <= i < |a + b| ensures IsToken((a + b)[i]) {
      if i < |a| { assert (a + b)[i] == a[i]; } else { assert (a + b)[i] == b[i - |a|]; }
    }
  }

  lemma JoinAppend(a: seq<string>, b: seq<string>)
    requires |a| > 0 && |b| > 0
    ensures Join(a + b) == Join(a) + " " + Join(b)
    decreases |a|
  {
    var ab := a + b;
    assert ab[0] == a[0];
    if |a| > 1 {
      assert ab[1..] == a[1..] + b;
      JoinAppend(a[1..], b);
      var x, y := Join(a[1..]), Join(b);
      assert Join(ab) == a[0] + " " + (x + " " + y);
      assert Join(a) == a[0] + " " + x;
      assert a[0] + " " + (x + " " + y) == (a[0] + " " + x) + " " + y;
    } else {
      assert ab[1..] == b;
    }
  }

  /** Splitting a word followed by whitespace (or nothing) yields that word first. */
  lemma SplitWordThen(w: string, tail: string)
    requires |w| > 0 && NoSpace(w)
    requires |tail| == 0 || IsSpace(tail[0])
    ensures Split(w + tail) == [w] + Split(tail)
  {
    var s := w + tail;
    WordLenOf(w, tail);
    assert s[..|w|] == w;
    assert s[|w|..] == tail;
  }

  lemma {:induction false} WordLenOf(w: string, tail: string)
    requires NoSpace(w)
    requires |tail| == 0 || IsSpace(tail[0])
    ensures WordLen(w + tail) == |w|
    decreases |w|
  {
    if |w| > 0 {
      assert (w + tail)[1..] == w[1..] + tail;
      WordLenOf(w[1..], tail);
    } else {
      assert w + tail == tail;
    }
  }

  /** `split` undoes `join` on whitespace-free, non-empty words. */
  lemma {:induction false} SplitJoin(ts: seq<string>)
    requires forall i :: 0 <= i < |ts| ==> |ts[i]| > 0 && NoSpace(ts[i])
    ensures Split(Join(ts)) == ts
    decreases |ts|
  {
    if |ts| == 1 {
      SplitWordThen(ts[0], []);
      assert ts[0] + [] == ts[0];
    } else if |ts| > 1 {
      SplitJoin(ts[1..]);
      SplitJoinStep(ts);
    }
  }

  /** The same for canonical tokens. */
  lemma TokensSplitJoin(us: seq<string>)
    requires AllTokens(us)
    ensures Split(Join(us)) == us
  {
    forall i | 0 <= i < |us| ensures |us[i]| > 0 && NoSpace(us[i]) {
      assert IsToken(us[i]);
    }
    SplitJoin(us);
  }

  lemma SplitJoinStep(ts: seq<string>)
    requires |ts| > 1 && |ts[0]| > 0 && NoSpace(ts[0])
    requires Split(Join(ts[1..])) == ts[1..]
    ensures Split(Join(ts)) == ts
  {
    var rest := Join(ts[1..]);
    JoinCons(ts);
    SplitWordThen(ts[0], " " + rest);
    SplitLeadingSpace(' ', rest);
    assert [ts[0]] + ts[1..] == ts;
  }

  /** `join` of two or more words: the first word, a space, and the join of the rest. */
  lemma JoinCons(ts: seq<string>)
    requires |ts| > 1
    ensures Join(ts) == ts[0] + (" " + Join(ts[1..]))
  {
    assert ts[0] + " " + Join(ts[1..]) == ts[0] + (" " + Join(ts[1..]));
  }

  /** Leading whitespace does not change `split`. */
  lemma SplitLeadingSpace(c: char, x: string)
    requires IsSpace(c)
    ensures Split([c] + x) == Split(x)
  {
    assert ([c] + x)[1..] == x;
  }

  /** Joining canonical tokens gives a normalised string. */
  lemma {:induction false} JoinNormalized(ts: seq<string>)
    requires AllTokens(ts)
    ensures Normalized(Join(ts))
    decreases |ts|
  {
    if |ts| > 1 {
      JoinNormalized(ts[1..]);
      var w := ts[0];
      var rest := Join(ts[1..]);
      var s := w + " " + rest;
      assert |rest| > 0 && rest[0] != ' ' by {
        assert IsToken(ts[1]);
        JoinFirst(ts[1..]);
      }
      forall i | 0 < i < |s|
        ensures SingleSpaceAt(s, i)
      {
        if i > |w| + 1 {
          assert SingleSpaceAt(rest, i - |w| - 1);
          assert s[i] == rest[i - |w| - 1] && s[i - 1] == rest[i - |w| - 2];
        } else if i == |w| + 1 {
          assert s[i] == rest[0];
        } else if i < |w| {
          assert s[i] == w[i];
        }
      }
    }
  }

  /** The first character of a join is the first character of its first token. */
  lemma JoinFirst(ts: seq<string>)
    requires |ts| > 0 && |ts[0]| > 0
    ensures |Join(ts)| > 0 && Join(ts)[0] == ts[0][0]
  {
  }

  /** The part of a normalised string after one of its spaces is normalised. */
  lemma NormalizedAfterSpace(s: string, n: nat)
    requires Normalized(s) && n < |s| && s[n] == ' '
    ensures Normalized(s[n + 1..])
  {
    var rest := s[n + 1..];
    assert n + 1 < |s|;
    assert SingleSpaceAt(s, n + 1);
    assert rest[0] == s[n + 1];
    assert rest[|rest| - 1] == s[|s| - 1];
    forall i | 0 <= i < |rest| ensures IsCanonChar(rest[i]) || rest[i] == ' ' {
      assert rest[i] == s[n + 1 + i];
    }
    forall i | 0 < i < |rest|
      ensures SingleSpaceAt(rest, i)
    {
      assert SingleSpaceAt(s, n + 1 + i);
      assert rest[i] == s[n + 1 + i] && rest[i - 1] == s[n + i];
    }
  }

  /** The leading word of a non-empty normalised string is a canonical token,
      ended by the end of the string or by a space. */
  lemma NormalizedHead(s: string)
    requires Normalized(s) && |s| > 0
    ensures IsToken(s[..WordLen(s)])
    ensures WordLen(s) < |s| ==> s[WordLen(s)] == ' '
  {
    var n := WordLen(s);
    var w := s[..n];
    assert !IsSpace(s[0]) by {
      assert IsCanonChar(s[0]);
    }
    forall i | 0 <= i < |w| ensures IsCanonChar(w[i]) {
      assert w[i] == s[i] && !IsSpace(s[i]);
    }
  }

  /** Splitting a word followed by a space: the word, then the pieces after the space. */
  lemma SplitWordSpace(s: string, n: nat)
    requires |s| > 0 && !IsSpace(s[0])
    requires n == WordLen(s) && n < |s| && s[n] == ' '
    ensures Split(s) == [s[..n]] + Split(s[n + 1..])
  {
    var t := s[n..];
    assert Split(s) == [s[..n]] + Split(t);
    assert t[1..] == s[n + 1..];
    assert IsSpace(t[0]);
  }

  /** On a normalised string, `join` undoes `split`, and the pieces are canonical tokens. */
  lemma {:induction false} JoinSplit(s: string)
    requires Normalized(s)
    ensures AllTokens(Split(s))
    ensures Join(Split(s)) == s
    decreases |s|
  {
    if |s| > 0 {
      var n := WordLen(s);
      NormalizedHead(s);
      if n == |s| {
        JoinSplitLast(s);
      } else {
        NormalizedAfterSpace(s, n);
        JoinSplit(s[n + 1..]);
        JoinSplitStep(s, n);
      }
    }
  }

  lemma JoinSplitLast(s: string)
    requires |s| > 0 && WordLen(s) == |s| && IsToken(s)
    ensures AllTokens(Split(s)) && Join(Split(s)) == s
  {
    assert s[..|s|] == s;
    assert s[|s|..] == [];
    assert Split(s) == [s];
  }

  lemma JoinSplitStep(s: string, n: nat)
    requires |s| > 0 && n == WordLen(s) && n < |s| && s[n] == ' '
    requires IsToken(s[..n])
    requires |s[n + 1..]| > 0 && !IsSpace(s[n + 1])
    requires AllTokens(Split(s[n + 1..])) && Join(Split(s[n + 1..])) == s[n + 1..]
    ensures AllTokens(Split(s)) && Join(Split(s)) == s
  {
    var w, rest := s[..n], s[n + 1..];
    var ts := Split(rest);
    assert !IsSpace(s[0]) by {
      assert IsCanonChar(w[0]);
    }
    SplitWordSpace(s, n);
    AllTokensAppend([w], ts);
    assert |ts| > 0 by {
      assert rest[0] == s[n + 1];
    }
    JoinPrepend(w, ts);
    SliceAroundSpace(s, n);
  }

  lemma JoinPrepend(w: string, ts: seq<string>)
    requires |ts| > 0
    ensures Join([w] + ts) == w + " " + Join(ts)
  {
    assert ([w] + ts)[1..] == ts;
  }

  lemma SliceAroundSpace(s: string, n: nat)
    requires n < |s| && s[n] == ' '
    ensures s == s[..n] + " " + s[n + 1..]
  {
  }
}
