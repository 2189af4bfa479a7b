/** `expand_abbreviations`: a fixed, ordered table of whole-word regex
    substitutions `\bKEY\b -> EXPANSION`, applied one entry after the other. */
module Abbreviations {
  import opened Text
  import Seqs

  /** One table entry. The replacement text is kept as its words; the text
      `str.replace` substitutes is those words joined by single spaces. */
  datatype Abbreviation = Abbreviation(key: string, words: seq<string>) {
    function Replacement(): string {
      Join(words)
    }
  }

  /** `abbreviation_map`, in the insertion order `expand_abbreviations`
      iterates it (street types, then the domain-specific entry). */
  const Table: seq<Abbreviation> := [
    Abbreviation("st", ["street"]),
    Abbreviation("ave", ["avenue"]),
    Abbreviation("av", ["avenue"]),
    Abbreviation("blvd", ["boulevard"]),
    Abbreviation("rd", ["road"]),
    Abbreviation("dr", ["drive"]),
    Abbreviation("ln", ["lane"]),
    Abbreviation("pl", ["place"]),
    Abbreviation("ctr", ["center"]),
    Abbreviation("hwy", ["highway"]),
    Abbreviation("mg", ["mahatma", "gandhi"])
  ]

  /** `re.sub(r"\bKEY\b", rep, s)` for a non-empty literal KEY. The scan goes left
      to right over `s`; `prevWord` says whether the character before the
      current position is a word character (false at the start). A match
      resumes the scan right after the matched text. */
  function ReplaceWord(s: string, key: string, rep: string, prevWord: bool): string
    requires |key| > 0
    decreases |s|
  {
    if |s| == 0 then []
    else if && key <= s
            && prevWord != IsWordChar(s[0])
            && IsWordChar(key[|key| - 1]) != (|s| > |key| && IsWordChar(s[|key|]))
    then rep + ReplaceWord(s[|key|..], key, rep, IsWordChar(key[|key| - 1]))
    else [s[0]] + ReplaceWord(s[1..], key, rep, IsWordChar(s[0]))
  }

  /** Substituting every entry of `tbl` in order, each over the whole string. */
  function ApplyTable(s: string, tbl: seq<Abbreviation>): string
    requires forall a :: a in tbl ==> |a.key| > 0
    decreases |tbl|
  {
    if |tbl| == 0 then s
    else ApplyTable(ReplaceWord(s, tbl[0].key, tbl[0].Replacement(), false), tbl[1..])
  }

  // ---- the table's shape ----

  /** Every key is a canonical token and every replacement a non-empty list of them. */
  predicate EntriesWellFormed(tbl: seq<Abbreviation>) {
    forall a :: a in tbl ==> IsToken(a.key) && |a.words| > 0 && AllTokens(a.words)
  }

  /** Two entries with the same key are the same entry. */
  predicate KeysFunctional(tbl: seq<Abbreviation>) {
    forall a, b :: a in tbl && b in tbl && a.key == b.key ==> a == b
  }

  /** No word of any replacement is itself a key. */
  predicate ExpansionsFree(tbl: seq<Abbreviation>) {
    forall a, b :: a in tbl && b in tbl ==> b.key !in a.words
  }

  predicate WellFormedTable(tbl: seq<Abbreviation>) {
    EntriesWellFormed(tbl) && KeysFunctional(tbl) && ExpansionsFree(tbl)
  }

  // ---- the token-level reading ----

  /** One entry applied to a token list: a token equal to the key becomes the
      words of the expansion, every other token stays. */
  function ExpandTokens(ts: seq<string>, a: Abbreviation): seq<string>
    decreases |ts|
  {
    if |ts| == 0 then []
    else (if ts[0] == a.key then a.words else [ts[0]]) + ExpandTokens(ts[1..], a)
  }

  function ApplyTableTokens(ts: seq<string>, tbl: seq<Abbreviation>): seq<string>
    decreases |tbl|
  {
    if |tbl| == 0 then ts else ApplyTableTokens(ExpandTokens(ts, tbl[0]), tbl[1..])
  }

  /** The words a single token stands for: the expansion of the first entry
      whose key it equals, or the token itself. */
  function Lookup(t: string, tbl: seq<Abbreviation>): (r: seq<string>)
    ensures || (exists a :: a in tbl && a.key == t && r == a.words)
            || ((forall a :: a in tbl ==> a.key != t) && r == [t])
    decreases |tbl|
  {
    if |tbl| == 0 then [t]
    else if tbl[0].key == t then tbl[0].words
    else Lookup(t, tbl[1..])
  }

  /** Every token replaced by its `Lookup`, all at once. */
  function TokenMap(ts: seq<string>, tbl: seq<Abbreviation>): seq<string>
    decreases |ts|
  {
    if |ts| == 0 then [] else Lookup(ts[0], tbl) + TokenMap(ts[1..], tbl)
  }

  /** `expand_abbreviations` on one cell. */
  function ExpandAbbreviations(s: string): string
  {
    ApplyTable(s, Table)
  }

  // ---- the scan over one token ----

  /** Inside a word no match can start: a match needs a boundary before it. */
  lemma {:induction false} ScanInsideWord(w: string, tail: string, key: string, rep: string)
    requires |key| > 0
    requires forall i :: 0 <= i < |w| ==> IsWordChar(w[i])
    ensures ReplaceWord(w + tail, key, rep, true) == w + ReplaceWord(tail, key, rep, true)
    decreases |w|
  {
    if |w| > 0 {
      assert (w + tail)[0] == w[0];
      assert (w + tail)[1..] == w[1..] + tail;
      ScanInsideWord(w[1..], tail, key, rep);
      assert w == [w[0]] + w[1..];
    } else {
      assert w + tail == tail;
    }
  }

  /** A token followed by a non-word character (or by nothing) and preceded by a
      boundary is replaced exactly when it equals the key. */
  lemma TokenStep(w: string, tail: string, key: string, rep: string)
    requires IsToken(w) && IsToken(key)
    requires |tail| == 0 || !IsWordChar(tail[0])
    ensures ReplaceWord(w + tail, key, rep, false)
         == (if w == key then rep else w) + ReplaceWord(tail, key, rep, true)
  {
    if w == key {
      TokenHit(w, tail, rep);
    } else {
      TokenMiss(w, tail, key, rep);
    }
  }

  lemma TokenHit(w: string, tail: string, rep: string)
    requires IsToken(w)
    requires |tail| == 0 || !IsWordChar(tail[0])
    ensures ReplaceWord(w + tail, w, rep, false) == rep + ReplaceWord(tail, w, rep, true)
  {
    var s := w + tail;
    assert s[..|w|] == w;
    assert s[|w|..] == tail;
    assert s[0] == w[0] && IsWordChar(w[0]);
    assert IsWordChar(w[|w| - 1]);
    assert |s| > |w| ==> s[|w|] == tail[0];
  }

  /** A different token is copied: no match of `key` starts at its first character. */
  lemma TokenMiss(w: string, tail: string, key: string, rep: string)
    requires IsToken(w) && IsToken(key) && w != key
    requires |tail| == 0 || !IsWordChar(tail[0])
    ensures ReplaceWord(w + tail, key, rep, false) == w + ReplaceWord(tail, key, rep, true)
  {
    var s := w + tail;
    NoMatchAtToken(w, tail, key);
    assert s[0] == w[0] && IsWordChar(w[0]);
    assert ReplaceWord(s, key, rep, false) == [w[0]] + ReplaceWord(s[1..], key, rep, true);
    assert s[1..] == w[1..] + tail;
    ScanInsideWord(w[1..], tail, key, rep);
    ConsAssoc(w, ReplaceWord(tail, key, rep, true));
  }

  lemma NoMatchAtToken(w: string, tail: string, key: string)
    requires IsToken(w) && IsToken(key) && w != key
    requires |tail| == 0 || !IsWordChar(tail[0])
    ensures var s := w + tail;
            !(key <= s && IsWordChar(key[|key| - 1]) != (|s| > |key| && IsWordChar(s[|key|])))
  {
    var s := w + tail;
    assert IsWordChar(key[|key| - 1]);
    assert s[..|w|] == w;
    assert |s| > |w| ==> s[|w|] == tail[0];
    if key <= s {
      assert key == s[..|key|];
      assert forall i :: 0 <= i < |key| ==> IsWordChar(s[i]) by {
        forall i | 0 <= i < |key| ensures IsWordChar(s[i]) {
          assert s[i] == key[i] && IsCanonChar(key[i]);
        }
      }
      assert |key| < |w|;
      assert s[|key|] == w[|key|];
    }
  }

  lemma ConsAssoc(w: string, x: string)
    requires |w| > 0
    ensures [w[0]] + (w[1..] + x) == w + x
  {
    assert [w[0]] + w[1..] == w;
  }

  lemma SpaceStep(r: string, key: string, rep: string)
    requires IsToken(key)
    ensures ReplaceWord(" " + r, key, rep, true) == " " + ReplaceWord(r, key, rep, false)
  {
    assert IsCanonChar(key[0]);
    assert (" " + r)[1..] == r;
  }

  /** On joined canonical tokens one substitution is the token-level `ExpandTokens`. */
  lemma {:induction false} ReplaceWordJoin(ts: seq<string>, a: Abbreviation)
    requires AllTokens(ts) && IsToken(a.key)
    requires |a.words| > 0 && AllTokens(a.words)
    ensures ReplaceWord(Join(ts), a.key, a.Replacement(), false) == Join(ExpandTokens(ts, a))
    ensures AllTokens(ExpandTokens(ts, a))
    ensures |ExpandTokens(ts, a)| > 0 <==> |ts| > 0
    decreases |ts|
  {
    if |ts| > 0 {
      assert AllTokens(ts[1..]) by {
        forall i | 0 <= i < |ts[1..]| ensures IsToken(ts[1..][i]) { assert ts[1..][i] == ts[i + 1]; }
      }
      ReplaceWordJoin(ts[1..], a);
      ReplaceWordJoinStep(ts, a);
    }
  }

  lemma ReplaceWordJoinStep(ts: seq<string>, a: Abbreviation)
    requires |ts| > 0 && AllTokens(ts) && IsToken(a.key)
    requires |a.words| > 0 && AllTokens(a.words)
    requires ReplaceWord(Join(ts[1..]), a.key, a.Replacement(), false) == Join(ExpandTokens(ts[1..], a))
    requires AllTokens(ExpandTokens(ts[1..], a))
    requires |ExpandTokens(ts[1..], a)| > 0 <==> |ts| > 1
    ensures ReplaceWord(Join(ts), a.key, a.Replacement(), false) == Join(ExpandTokens(ts, a))
    ensures AllTokens(ExpandTokens(ts, a))
    ensures |ExpandTokens(ts, a)| > 0
  {
    var x := TokenWords(ts[0], a);
    var rest := ExpandTokens(ts[1..], a);
    assert ExpandTokens(ts, a) == x + rest;
    AllTokensAppend(x, rest);
    if |ts| == 1 {
      ReplaceWordJoinLast(ts, a);
    } else {
      JoinCons(ts);
      ReplaceWordJoinCons(ts[0], Join(ts[1..]), rest, a);
    }
  }

  /** The words one token becomes under one entry. */
  function TokenWords(t: string, a: Abbreviation): (x: seq<string>)
    ensures t == a.key ==> x == a.words
    ensures Join(x) == (if t == a.key then a.Replacement() else t)
    ensures IsToken(t) && AllTokens(a.words) ==> AllTokens(x)
  {
    if t == a.key then a.words else [t]
  }

  lemma ReplaceWordJoinLast(ts: seq<string>, a: Abbreviation)
    requires |ts| == 1 && IsToken(ts[0]) && IsToken(a.key)
    requires |a.words| > 0
    ensures ReplaceWord(Join(ts), a.key, a.Replacement(), false) == Join(ExpandTokens(ts, a))
  {
    var t := ts[0];
    var x := TokenWords(t, a);
    TokenStep(t, [], a.key, a.Replacement());
    assert t + [] == t;
    assert ExpandTokens(ts, a) == x + [];
    assert x + [] == x;
    assert ReplaceWord([], a.key, a.Replacement(), true) == [];
    assert Join(x) + [] == Join(x);
  }

  lemma ReplaceWordJoinCons(t: string, r: string, rest: seq<string>, a: Abbreviation)
    requires IsToken(t) && IsToken(a.key) && |a.words| > 0 && |rest| > 0
    requires ReplaceWord(r, a.key, a.Replacement(), false) == Join(rest)
    ensures ReplaceWord(t + (" " + r), a.key, a.Replacement(), false) == Join(TokenWords(t, a) + rest)
  {
    var x := TokenWords(t, a);
    assert |x| > 0;
    ReplaceWordCons(t, r, a);
    JoinAppend(x, rest);
    Seqs.AppendAssoc(Join(x), " ", Join(rest));
  }

  /** A token, a space and more text: the token is handled, the scan resumes
      after the space at a boundary. */
  lemma ReplaceWordCons(t: string, r: string, a: Abbreviation)
    requires IsToken(t) && IsToken(a.key)
    ensures ReplaceWord(t + (" " + r), a.key, a.Replacement(), false)
         == (if t == a.key then a.Replacement() else t) + (" " + ReplaceWord(r, a.key, a.Replacement(), false))
  {
    assert (" " + r)[0] == ' ';
    TokenStep(t, " " + r, a.key, a.Replacement());
    SpaceStep(r, a.key, a.Replacement());
  }

  /** On joined canonical tokens the whole ordered table is the token-level fold. */
  lemma {:induction false} ApplyTableJoin(ts: seq<string>, tbl: seq<Abbreviation>)
    requires AllTokens(ts) && EntriesWellFormed(tbl)
    ensures ApplyTable(Join(ts), tbl) == Join(ApplyTableTokens(ts, tbl))
    ensures AllTokens(ApplyTableTokens(ts, tbl))
    decreases |tbl|
  {
    if |tbl| > 0 {
      assert tbl[0] in tbl;
      ReplaceWordJoin(ts, tbl[0]);
      assert EntriesWellFormed(tbl[1..]) by {
        forall a | a in tbl[1..] ensures a in tbl { }
      }
      ApplyTableJoin(ExpandTokens(ts, tbl[0]), tbl[1..]);
    }
  }

  // ---- from the ordered fold to a single token map ----

  lemma {:induction false} TokenMapAppend(x: seq<string>, y: seq<string>, tbl: seq<Abbreviation>)
    ensures TokenMap(x + y, tbl) == TokenMap(x, tbl) + TokenMap(y, tbl)
    decreases |x|
  {
    if |x| > 0 {
      assert (x + y)[1..] == x[1..] + y;
      TokenMapAppend(x[1..], y, tbl);
    } else {
      assert x + y == y;
    }
  }

  lemma {:induction false} LookupMiss(t: string, tbl: seq<Abbreviation>)
    requires forall a :: a in tbl ==> a.key != t
    ensures Lookup(t, tbl) == [t]
    decreases |tbl|
  {
    if |tbl| > 0 {
      assert tbl[0] in tbl;
      LookupMiss(t, tbl[1..]);
    }
  }

  lemma {:induction false} LookupHit(t: string, tbl: seq<Abbreviation>, a: Abbreviation)
    requires KeysFunctional(tbl) && a in tbl && a.key == t
    ensures Lookup(t, tbl) == a.words
    decreases |tbl|
  {
    assert tbl[0] in tbl;
    if tbl[0].key != t {
      assert a in tbl[1..];
      assert KeysFunctional(tbl[1..]) by {
        forall b | b in tbl[1..] ensures b in tbl { }
      }
      LookupHit(t, tbl[1..], a);
    }
  }

  /** Tokens that are no key are left alone by the token map. */
  lemma {:induction false} TokenMapFree(ts: seq<string>, tbl: seq<Abbreviation>)
    requires forall i, a :: 0 <= i < |ts| && a in tbl ==> ts[i] != a.key
    ensures TokenMap(ts, tbl) == ts
    decreases |ts|
  {
    if |ts| > 0 {
      LookupMiss(ts[0], tbl);
      TokenMapFree(ts[1..], tbl);
      assert ts == [ts[0]] + ts[1..];
    }
  }

  /** Applying entry `e` and then mapping with the rest is mapping with `e` first. */
  lemma {:induction false} ExpandThenMap(ts: seq<string>, e: Abbreviation, tl: seq<Abbreviation>)
    requires forall b :: b in tl ==> b.key !in e.words
    ensures TokenMap(ExpandTokens(ts, e), tl) == TokenMap(ts, [e] + tl)
    decreases |ts|
  {
    if |ts| > 0 {
      var t := ts[0];
      var x := if t == e.key then e.words else [t];
      TokenMapAppend(x, ExpandTokens(ts[1..], e), tl);
      ExpandThenMap(ts[1..], e, tl);
      assert ([e] + tl)[1..] == tl;
      if t == e.key {
        TokenMapFree(x, tl);
      } else {
        assert TokenMap([t], tl) == Lookup(t, tl);
      }
    }
  }

  /** With no expansion word being a key, the ordered fold is a single token map. */
  lemma {:induction false} FoldIsTokenMap(ts: seq<string>, tbl: seq<Abbreviation>)
    requires ExpansionsFree(tbl)
    ensures ApplyTableTokens(ts, tbl) == TokenMap(ts, tbl)
    decreases |tbl|
  {
    if |tbl| == 0 {
      TokenMapFree(ts, tbl);
    } else {
      var e := tbl[0];
      var tl := tbl[1..];
      assert e in tbl;
      assert tbl == [e] + tl;
      assert ExpansionsFree(tl) by {
        forall b | b in tl ensures b in tbl { }
      }
      FoldIsTokenMap(ExpandTokens(ts, e), tl);
      assert forall b :: b in tl ==> b in tbl;
      ExpandThenMap(ts, e, tl);
    }
  }

  /** Two tables with the same entries and functional keys map tokens alike. */
  lemma {:induction false} TokenMapSameEntries(ts: seq<string>, t1: seq<Abbreviation>, t2: seq<Abbreviation>)
    requires KeysFunctional(t1)
    requires forall a :: a in t1 <==> a in t2
    ensures TokenMap(ts, t1) == TokenMap(ts, t2)
    decreases |ts|
  {
    if |ts| > 0 {
      var t := ts[0];
      if a :| a in t1 && a.key == t {
        LookupHit(t, t1, a);
        LookupHit(t, t2, a);
      } else {
        LookupMiss(t, t1);
        LookupMiss(t, t2);
      }
      TokenMapSameEntries(ts[1..], t1, t2);
    }
  }

  // ---- properties of expand_abbreviations ----

  lemma TableEntriesAreTokens()
    ensures forall i :: 0 <= i < |Table| ==>
      IsToken(Table[i].key) && |Table[i].words| > 0 && AllTokens(Table[i].words)
  {
  }

  lemma TableKeysDistinct()
    ensures forall i, j :: 0 <= i < j < |Table| ==> Table[i].key != Table[j].key
  {
  }

  lemma TableWordsAreNoKeys()
    ensures forall i, j :: 0 <= i < |Table| && 0 <= j < |Table| ==> Table[j].key !in Table[i].words
  {
  }

  /** `abbreviation_map` is well formed: keys are canonical tokens with one
      replacement each, and no replacement word is a key. */
  lemma TableWellFormed()
    ensures WellFormedTable(Table)
  {
    TableEntriesAreTokens();
    TableKeysDistinct();
    TableWordsAreNoKeys();
    forall a | a in Table ensures IsToken(a.key) && |a.words| > 0 && AllTokens(a.words) {
      var i :| 0 <= i < |Table| && Table[i] == a;
    }
    forall a, b | a in Table && b in Table && a.key == b.key ensures a == b {
      var i :| 0 <= i < |Table| && Table[i] == a;
      var j :| 0 <= j < |Table| && Table[j] == b;
    }
    forall a, b | a in Table && b in Table ensures b.key !in a.words {
      var i :| 0 <= i < |Table| && Table[i] == a;
      var j :| 0 <= j < |Table| && Table[j] == b;
    }
  }

  /** On a normalised street, `expand_abbreviations` replaces each token by
      its `Lookup` in the table, all at once; the result is again normalised. */
  lemma ExpandIsTokenMap(s: string)
    requires Normalized(s)
    ensures ExpandAbbreviations(s) == Join(TokenMap(Split(s), Table))
    ensures Split(ExpandAbbreviations(s)) == TokenMap(Split(s), Table)
    ensures Normalized(ExpandAbbreviations(s))
  {
    var ts := Split(s);
    JoinSplit(s);
    TableWellFormed();
    ApplyTableJoin(ts, Table);
    FoldIsTokenMap(ts, Table);
    var us := TokenMap(ts, Table);
    JoinNormalized(us);
    TokensSplitJoin(us);
  }

  /** A token equal to a key of a functional table becomes that entry's words. */
  lemma LookupReplacesKey(t: string, a: Abbreviation)
    requires a in Table && a.key == t
    ensures Lookup(t, Table) == a.words
  {
    TableWellFormed();
    LookupHit(t, Table, a);
  }

  /** A token that is no key is kept as it is. */
  lemma LookupKeepsOthers(t: string)
    requires forall a :: a in Table ==> a.key != t
    ensures Lookup(t, Table) == [t]
  {
    LookupMiss(t, Table);
  }

  /** No token produced by the map is a key of the table. */
  lemma {:induction false} TokenMapOutputFree(ts: seq<string>, tbl: seq<Abbreviation>)
    requires ExpansionsFree(tbl)
    ensures forall i, a :: 0 <= i < |TokenMap(ts, tbl)| && a in tbl ==> TokenMap(ts, tbl)[i] != a.key
    decreases |ts|
  {
    if |ts| > 0 {
      TokenMapOutputFree(ts[1..], tbl);
      var x := Lookup(ts[0], tbl);
      var y := TokenMap(ts[1..], tbl);
      forall i, a | 0 <= i < |x + y| && a in tbl ensures (x + y)[i] != a.key {
        if i < |x| {
          assert (x + y)[i] == x[i];
        } else {
          assert (x + y)[i] == y[i - |x|];
        }
      }
    }
  }

  /** `expand_abbreviations` is idempotent on normalised streets. */
  lemma ExpandIdempotent(s: string)
    requires Normalized(s)
    ensures ExpandAbbreviations(ExpandAbbreviations(s)) == ExpandAbbreviations(s)
  {
    ExpandIsTokenMap(s);
    var e := ExpandAbbreviations(s);
    ExpandIsTokenMap(e);
    var us := TokenMap(Split(s), Table);
    TableWellFormed();
    TokenMapOutputFree(Split(s), Table);
    TokenMapFree(us, Table);
  }

  /** The order of the table does not matter: any table holding the same
      entries expands every normalised street the same way. */
  lemma ExpansionOrderIrrelevant(s: string, reordered: seq<Abbreviation>)
    requires Normalized(s)
    requires forall a :: a in reordered <==> a in Table
    ensures forall a :: a in reordered ==> |a.key| > 0
    ensures ApplyTable(s, reordered) == ExpandAbbreviations(s)
  {
    TableWellFormed();
    var ts := Split(s);
    JoinSplit(s);
    assert WellFormedTable(reordered);
    ApplyTableJoin(ts, reordered);
    FoldIsTokenMap(ts, reordered);
    ApplyTableJoin(ts, Table);
    FoldIsTokenMap(ts, Table);
    TokenMapSameEntries(ts, Table, reordered);
  }

  /** `mg` expands to two tokens: "mg road" becomes "mahatma gandhi road". */
  lemma ExampleMahatmaGandhi()
    ensures ExpandAbbreviations("mg road") == "mahatma gandhi road"
  {
    ExampleExpandsToJoin();
    ExampleOutput();
  }

  lemma ExampleOutput()
    ensures Join(["mahatma", "gandhi", "road"]) == "mahatma gandhi road"
  {
  }

  lemma ExampleExpandsToJoin()
    ensures ExpandAbbreviations("mg road") == Join(["mahatma", "gandhi", "road"])
  {
    ExampleInput();
    ExampleTokens();
    ExpandIsTokenMap("mg road");
  }

  lemma ExampleInput()
    ensures Normalized("mg road") && Split("mg road") == ["mg", "road"]
  {
    assert AllTokens(["mg", "road"]) && Join(["mg", "road"]) == "mg road";
    TokensSplitJoin(["mg", "road"]);
    JoinNormalized(["mg", "road"]);
  }

  lemma ExampleTokens()
    ensures TokenMap(["mg", "road"], Table) == ["mahatma", "gandhi", "road"]
  {
    LookupMg();
    LookupRoad();
    assert TokenMap(["mg", "road"], Table) == Lookup("mg", Table) + TokenMap(["road"], Table);
  }

  lemma LookupMg()
    ensures Lookup("mg", Table) == ["mahatma", "gandhi"]
  {
    assert Table[10] in Table;
    LookupReplacesKey("mg", Table[10]);
  }

  lemma LookupRoad()
    ensures Lookup("road", Table) == ["road"]
  {
    TableKeysRoad();
    LookupKeepsOthers("road");
  }

  lemma TableKeysRoad()
    ensures forall a :: a in Table ==> a.key != "road"
  {
    forall a | a in Table ensures a.key != "road" {
      var i :| 0 <= i < |Table| && Table[i] == a;
    }
  }
}
