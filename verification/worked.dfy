/** The listing `12 St Marys Ave Ave` with postal code `501`, followed through
    every cleaning step. The street part is proved for any middle word that is
    neither an abbreviation key nor a street-type suffix, then instantiated. */
module WorkedExample {
  import opened Optional
  import opened Text
  import Address
  import Normalize
  import Abbreviations
  import Suffixes
  import Seqs
  import Postal
  import opened Records
  import Cleaning

  /** A word the cleaning steps leave alone. */
  predicate PlainWord(m: string) {
    && IsToken(m)
    && (forall a :: a in Abbreviations.Table ==> a.key != m)
    && m !in Suffixes.StreetSuffixes
  }

  lemma TokenMapCons(t: string, rest: seq<string>, tbl: seq<Abbreviations.Abbreviation>)
    ensures Abbreviations.TokenMap([t] + rest, tbl)
         == Abbreviations.Lookup(t, tbl) + Abbreviations.TokenMap(rest, tbl)
  {
    assert ([t] + rest)[0] == t;
    assert ([t] + rest)[1..] == rest;
  }

  lemma TokenMapOfFour(a: string, b: string, c: string, d: string, tbl: seq<Abbreviations.Abbreviation>)
    ensures Abbreviations.TokenMap([a, b, c, d], tbl)
         == Abbreviations.Lookup(a, tbl) + Abbreviations.Lookup(b, tbl)
          + Abbreviations.Lookup(c, tbl) + Abbreviations.Lookup(d, tbl)
  {
    var la, lb, lc, ld := Abbreviations.Lookup(a, tbl), Abbreviations.Lookup(b, tbl),
                          Abbreviations.Lookup(c, tbl), Abbreviations.Lookup(d, tbl);
    TokenMapCons(d, [], tbl);
    assert [d] + [] == [d];
    TokenMapCons(c, [d], tbl);
    assert [c] + [d] == [c, d];
    TokenMapCons(b, [c, d], tbl);
    assert [b] + [c, d] == [b, c, d];
    TokenMapCons(a, [b, c, d], tbl);
    assert [a] + [b, c, d] == [a, b, c, d];
    assert ld + [] == ld;
    Seqs.AppendAssoc(lb, lc, ld);
    Seqs.AppendAssoc(la, lb + lc, ld);
    Seqs.AppendAssoc(la, lb, lc);
  }

  lemma ExpandedTokensIn(m: string, tbl: seq<Abbreviations.Abbreviation>)
    requires Abbreviations.Lookup("st", tbl) == ["street"]
    requires Abbreviations.Lookup("ave", tbl) == ["avenue"]
    requires Abbreviations.Lookup(m, tbl) == [m]
    ensures Abbreviations.TokenMap(["st", m, "ave", "ave"], tbl) == ["street", m, "avenue", "avenue"]
  {
    TokenMapOfFour("st", m, "ave", "ave", tbl);
  }

  lemma LookupSt()
    ensures Abbreviations.Lookup("st", Abbreviations.Table) == ["street"]
  {
    assert Abbreviations.Table[0] in Abbreviations.Table;
    Abbreviations.LookupReplacesKey("st", Abbreviations.Table[0]);
  }

  lemma LookupAve()
    ensures Abbreviations.Lookup("ave", Abbreviations.Table) == ["avenue"]
  {
    assert Abbreviations.Table[1] in Abbreviations.Table;
    Abbreviations.LookupReplacesKey("ave", Abbreviations.Table[1]);
  }

  lemma ExpandedTokens(m: string)
    requires PlainWord(m)
    ensures Abbreviations.TokenMap(["st", m, "ave", "ave"], Abbreviations.Table)
         == ["street", m, "avenue", "avenue"]
  {
    LookupSt();
    LookupAve();
    Abbreviations.LookupKeepsOthers(m);
    ExpandedTokensIn(m, Abbreviations.Table);
  }

  lemma CollapsedTokensIn(m: string, sfx: seq<string>)
    requires "avenue" in sfx && m !in sfx
    ensures Suffixes.Collapse(["street", m, "avenue", "avenue"], sfx) == ["street", m, "avenue"]
  {
    var p := ["street", m];
    assert ["street", m, "avenue", "avenue"] == p + seq(2, _ => "avenue");
    Suffixes.RunCollapses(p, "avenue", 2, sfx);
    assert p + ["avenue"] == ["street", m, "avenue"];
    Suffixes.CollapseFixes(["street", m, "avenue"], sfx);
  }

  lemma CollapsedTokens(m: string)
    requires m !in Suffixes.StreetSuffixes
    ensures Suffixes.CollapseSuffixes(["street", m, "avenue", "avenue"]) == ["street", m, "avenue"]
  {
    assert "avenue" == Suffixes.StreetSuffixes[1];
    CollapsedTokensIn(m, Suffixes.StreetSuffixes);
  }

  /** A space-joined list of canonical tokens is its own normalisation and
      splits back into the list. */
  lemma JoinedTokens(us: seq<string>)
    requires AllTokens(us)
    ensures Normalized(Join(us))
    ensures Normalize.NormalizeStreet(Join(us)) == Join(us)
    ensures Split(Join(us)) == us
  {
    JoinNormalized(us);
    Normalize.NormalizeFixes(Join(us));
    TokensSplitJoin(us);
  }

  lemma NormalizeStep(m: string)
    requires IsToken(m)
    ensures Normalized(Join(["st", m, "ave", "ave"]))
    ensures Normalize.NormalizeStreet(Join(["st", m, "ave", "ave"])) == Join(["st", m, "ave", "ave"])
    ensures Split(Join(["st", m, "ave", "ave"])) == ["st", m, "ave", "ave"]
  {
    assert AllTokens(["st", m, "ave", "ave"]) by {
      assert IsToken("st") && IsToken("ave");
    }
    JoinedTokens(["st", m, "ave", "ave"]);
  }

  lemma ExpandStep(m: string)
    requires PlainWord(m)
    ensures Abbreviations.ExpandAbbreviations(Join(["st", m, "ave", "ave"])) == Join(["street", m, "avenue", "avenue"])
  {
    NormalizeStep(m);
    Abbreviations.ExpandIsTokenMap(Join(["st", m, "ave", "ave"]));
    ExpandedTokens(m);
  }

  lemma SuffixStep(m: string)
    requires IsToken(m) && m !in Suffixes.StreetSuffixes
    ensures Suffixes.RemoveDuplicateSuffixes(Join(["street", m, "avenue", "avenue"])) == Join(["street", m, "avenue"])
  {
    assert AllTokens(["street", m, "avenue", "avenue"]) by {
      assert IsToken("street") && IsToken("avenue");
    }
    JoinedTokens(["street", m, "avenue", "avenue"]);
    CollapsedTokens(m);
  }

  /** `st <m> ave ave` becomes `street <m> avenue`: the standalone token `st`
      expands, and the repeated `avenue` collapses. */
  lemma CanonicalStreetShape(m: string)
    requires PlainWord(m)
    ensures Cleaning.CanonicalStreet(Join(["st", m, "ave", "ave"])) == Join(["street", m, "avenue"])
  {
    NormalizeStep(m);
    ExpandStep(m);
    SuffixStep(m);
  }

  lemma MarysIsPlain()
    ensures PlainWord("marys")
  {
    MarysIsNoKey();
    MarysIsNoSuffix();
    assert IsToken("marys");
  }

  lemma MarysIsNoKey()
    ensures forall a :: a in Abbreviations.Table ==> a.key != "marys"
  {
    forall a | a in Abbreviations.Table ensures a.key != "marys" {
      var i :| 0 <= i < |Abbreviations.Table| && Abbreviations.Table[i] == a;
    }
  }

  lemma MarysIsNoSuffix()
    ensures "marys" !in Suffixes.StreetSuffixes
  {
    forall i | 0 <= i < |Suffixes.StreetSuffixes| ensures Suffixes.StreetSuffixes[i] != "marys" {
    }
  }

  lemma LowerStreet()
    ensures Lower("St Marys Ave Ave") == Join(["st", "marys", "ave", "ave"])
  {
    var l := Lower("St Marys Ave Ave");
    assert Join(["st", "marys", "ave", "ave"]) == "st marys ave ave";
    forall i | 0 <= i < |l| ensures l[i] == "st marys ave ave"[i] {
    }
  }

  lemma CanonicalStreetExample()
    ensures Cleaning.CanonicalStreet("St Marys Ave Ave") == "street marys avenue"
  {
    var lowered := Join(["st", "marys", "ave", "ave"]);
    MarysIsPlain();
    LowerStreet();
    Normalize.NormalizeIgnoresCase("St Marys Ave Ave");
    Cleaning.CanonicalStreetOfNormalized("St Marys Ave Ave", lowered);
    CanonicalStreetShape("marys");
    JoinCanonical();
  }

  /** The canonical street as text; kept apart from the example so that the
      literal join is proved in a small context. */
  lemma JoinCanonical()
    ensures Join(["street", "marys", "avenue"]) == "street marys avenue"
  {
  }

  lemma ListingExample()
    ensures var c := Cleaning.CleanListingRow(Listing("12 St Marys Ave Ave", Some("501"), None, None, None)).value;
      && c.postalCode == "00501" && c.zipPrefix == "005"
      && c.streetNumber == Some("12") && c.streetName == "St Marys Ave Ave"
      && c.cleanStreet == "street marys avenue"
  {
    Postal.ExampleShortCode();
    Address.ExampleSplit();
    CanonicalStreetExample();
  }
}
