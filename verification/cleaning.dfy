/** `clean_listings` and `clean_demographics`: drop rows with a missing code,
    normalise the code, derive `zip_prefix`, split and canonicalise the street,
    and deduplicate listings on `(street_number, clean_street, zip_prefix)`. */
module Cleaning {
  import opened Optional
  import opened Text
  import opened Seqs
  import Address
  import Normalize
  import Abbreviations
  import Suffixes
  import opened Postal
  import opened Dedup
  import opened Records

  // ---- the street ----

  /** The three canonicalisation steps applied to a street name:
      `normalize_series`, `expand_abbreviations`, `remove_duplicate_suffixes`. */
  function CanonicalStreet(name: string): (r: string)
    ensures Normalized(r)
    ensures Split(r) == Suffixes.CollapseSuffixes(
      Abbreviations.TokenMap(Split(Normalize.NormalizeStreet(name)), Abbreviations.Table))
  {
    var norm := Normalize.NormalizeStreet(name);
    var expanded := Abbreviations.ExpandAbbreviations(norm);
    Abbreviations.ExpandIsTokenMap(norm);
    Suffixes.RemoveDuplicateSuffixesNormalized(expanded);
    Suffixes.RemoveDuplicateSuffixes(expanded)
  }

  /** The canonical street depends on the name only through its normalised form. */
  lemma CanonicalStreetOfNormalized(a: string, b: string)
    requires Normalize.NormalizeStreet(a) == Normalize.NormalizeStreet(b)
    ensures CanonicalStreet(a) == CanonicalStreet(b)
  {
  }

  /** No token of `ts` is a key of the abbreviation table. */
  ghost predicate KeyFree(ts: seq<string>) {
    forall i, a :: 0 <= i < |ts| && a in Abbreviations.Table ==> ts[i] != a.key
  }

  lemma KeyFreeSubseq(kept: seq<string>, ts: seq<string>)
    requires IsSubseq(kept, ts) && KeyFree(ts)
    ensures KeyFree(kept)
  {
    SubseqMembers(kept, ts);
    forall i, a | 0 <= i < |kept| && a in Abbreviations.Table ensures kept[i] != a.key {
      assert kept[i] in ts;
    }
  }

  /** No token of a canonical street is an abbreviation key. */
  lemma CanonicalStreetHasNoKeys(name: string)
    ensures KeyFree(Split(CanonicalStreet(name)))
  {
    var norm := Normalize.NormalizeStreet(name);
    var expanded := Abbreviations.ExpandAbbreviations(norm);
    var ex := Split(expanded);
    assert KeyFree(ex) by {
      Abbreviations.ExpandIsTokenMap(norm);
      Abbreviations.TableWellFormed();
      Abbreviations.TokenMapOutputFree(Split(norm), Abbreviations.Table);
    }
    Suffixes.CollapseSpec(ex, Suffixes.StreetSuffixes);
    KeyFreeSubseq(Suffixes.CollapseSuffixes(ex), ex);
  }

  /** Canonicalising a canonical street changes nothing. */
  lemma CanonicalStreetIdempotent(name: string)
    ensures CanonicalStreet(CanonicalStreet(name)) == CanonicalStreet(name)
  {
    var c := CanonicalStreet(name);
    Normalize.NormalizeFixes(c);
    assert Abbreviations.ExpandAbbreviations(c) == c by {
      Abbreviations.ExpandIsTokenMap(c);
      CanonicalStreetHasNoKeys(name);
      Abbreviations.TokenMapFree(Split(c), Abbreviations.Table);
      JoinSplit(c);
    }
    var norm := Normalize.NormalizeStreet(name);
    Suffixes.RemoveDuplicateSuffixesIdempotent(Abbreviations.ExpandAbbreviations(norm));
  }

  // ---- listings ----

  predicate HasPostalCode(l: Listing) {
    l.postalCode.Some?
  }

  /** The per-row part of `clean_listings`: a row with a missing code is
      dropped; any other row gets its padded code, prefix and street columns. */
  function CleanListingRow(l: Listing): (r: Option<CleanListing>)
    ensures r.Some? <==> HasPostalCode(l)
    ensures r.Some? ==> var c := r.value;
      && c.postalCode == CleanCode(l.postalCode.value)
      && |c.postalCode| >= CodeWidth && |c.zipPrefix| == PrefixWidth
      && c.zipPrefix == c.postalCode[..PrefixWidth]
      && c.rawAddress == l.rawAddress && c.listingPrice == l.listingPrice
      && c.sqFt == l.sqFt && c.bedrooms == l.bedrooms
  {
    match l.postalCode
    case None => None
    case Some(raw) =>
      var code := CleanCode(raw);
      var parts := Address.SplitAddress(l.rawAddress);
      Some(CleanListing(l.rawAddress, code, l.listingPrice, l.sqFt, l.bedrooms, ZipPrefix(code),
                        parts.number, parts.name, Normalize.NormalizeStreet(parts.name),
                        CanonicalStreet(parts.name)))
  }

  /** The street columns of a cleaned row: the address split, the normalised
      street and its canonical form, both in normal form. */
  ghost predicate StreetColumnsOk(c: CleanListing) {
    && Address.SplitAddress(c.rawAddress) == Address.AddressParts(c.streetNumber, c.streetName)
    && Normalized(c.normStreet) && c.normStreet == Normalize.NormalizeStreet(c.streetName)
    && Normalized(c.cleanStreet) && c.cleanStreet == CanonicalStreet(c.streetName)
  }

  lemma CleanListingRowStreet(l: Listing)
    requires HasPostalCode(l)
    ensures StreetColumnsOk(CleanListingRow(l).value)
  {
  }

  /** `clean_listings` up to (not including) `drop_duplicates`. */
  function CleanListingRows(ls: seq<Listing>): seq<CleanListing> {
    FilterMap(ls, CleanListingRow)
  }

  /** Before deduplication exactly the rows with a missing code are gone:
      every other row is there, cleaned, and nothing else is. */
  lemma CleanListingRowsSpec(ls: seq<Listing>)
    ensures |CleanListingRows(ls)| == Count(ls, HasPostalCode)
    ensures forall i :: 0 <= i < |ls| && HasPostalCode(ls[i]) ==> CleanListingRow(ls[i]).value in CleanListingRows(ls)
    ensures forall c :: c in CleanListingRows(ls) ==> exists i :: 0 <= i < |ls| && CleanListingRow(ls[i]) == Some(c)
  {
    FilterMapSpec(ls, CleanListingRow, HasPostalCode);
  }

  /** Row filtering keeps the input order: the cleaned rows of two tables in
      sequence are the cleaned rows of the first, then those of the second. */
  lemma CleanListingRowsOrder(a: seq<Listing>, b: seq<Listing>)
    ensures CleanListingRows(a + b) == CleanListingRows(a) + CleanListingRows(b)
  {
    FilterMapAppend(a, b, CleanListingRow);
  }

  /** `clean_listings`. */
  function CleanListings(ls: seq<Listing>): seq<CleanListing> {
    DropDuplicates(CleanListingRows(ls), KeyOf)
  }

  /** The cleaned listings have pairwise distinct keys, lose no key of a row
      with a code, and are exactly the cleaned rows that are first with their
      key, by position and in order. */
  lemma CleanListingsSpec(ls: seq<Listing>)
    ensures KeysDistinct(CleanListings(ls), KeyOf)
    ensures forall i :: 0 <= i < |ls| && HasPostalCode(ls[i]) ==> KeyOf(CleanListingRow(ls[i]).value) in Keys(CleanListings(ls), KeyOf)
    ensures IsSubseq(CleanListings(ls), CleanListingRows(ls))
    ensures CleanListings(ls) == FirstRows(CleanListingRows(ls), KeyOf)
  {
    var rows := CleanListingRows(ls);
    DropDuplicatesSpec(rows, KeyOf);
    FirstRowsIsDedup(rows, KeyOf);
    RowKeysPresent(ls);
  }

  lemma RowKeysPresent(ls: seq<Listing>)
    ensures forall i :: 0 <= i < |ls| && HasPostalCode(ls[i]) ==> KeyOf(CleanListingRow(ls[i]).value) in Keys(CleanListingRows(ls), KeyOf)
  {
    forall i | 0 <= i < |ls| && HasPostalCode(ls[i])
      ensures KeyOf(CleanListingRow(ls[i]).value) in Keys(CleanListingRows(ls), KeyOf)
    {
      RowKeyPresent(ls, i);
    }
  }

  lemma RowKeyPresent(ls: seq<Listing>, i: nat)
    requires i < |ls| && HasPostalCode(ls[i])
    ensures KeyOf(CleanListingRow(ls[i]).value) in Keys(CleanListingRows(ls), KeyOf)
  {
    var rows := CleanListingRows(ls);
    var c := CleanListingRow(ls[i]).value;
    CleanListingRowsSpec(ls);
    assert c in rows;
    var k :| 0 <= k < |rows| && rows[k] == c;
    KeyOfRow(rows, KeyOf, k);
  }

  /** Every row of the cleaned listings comes from an input row with a code. */
  lemma CleanListingsProvenance(ls: seq<Listing>)
    ensures forall c :: c in CleanListings(ls) ==> exists i :: 0 <= i < |ls| && CleanListingRow(ls[i]) == Some(c)
  {
    var rows := CleanListingRows(ls);
    CleanListingRowsSpec(ls);
    DropDuplicatesSpec(rows, KeyOf);
    SubseqMembers(CleanListings(ls), rows);
  }

  /** Cleaning listings is stable under a second deduplication. */
  lemma CleanListingsDedupIdempotent(ls: seq<Listing>)
    ensures DropDuplicates(CleanListings(ls), KeyOf) == CleanListings(ls)
  {
    DropDuplicatesIdempotent(CleanListingRows(ls), KeyOf);
  }

  // ---- demographics ----

  predicate HasZipCode(d: Demographic) {
    d.zipCode.Some?
  }

  predicate LacksZipCode(d: Demographic) {
    d.zipCode.None?
  }

  /** The per-row part of `clean_demographics`. */
  function CleanDemographicRow(d: Demographic): (r: Option<CleanDemographic>)
    ensures r.Some? <==> HasZipCode(d)
    ensures r.Some? ==> var c := r.value;
      && c.zipCode == CleanCode(d.zipCode.value)
      && |c.zipCode| >= CodeWidth && |c.zipPrefix| == PrefixWidth
      && c.zipPrefix == c.zipCode[..PrefixWidth]
      && c.medianIncome == d.medianIncome && c.schoolRating == d.schoolRating && c.crimeIndex == d.crimeIndex
  {
    match d.zipCode
    case None => None
    case Some(raw) =>
      var code := CleanCode(raw);
      Some(CleanDemographic(code, d.medianIncome, d.schoolRating, d.crimeIndex, ZipPrefix(code)))
  }

  /** `clean_demographics`. */
  function CleanDemographics(ds: seq<Demographic>): seq<CleanDemographic> {
    FilterMap(ds, CleanDemographicRow)
  }

  /** The demographic rows keep their input order. */
  lemma CleanDemographicsOrder(a: seq<Demographic>, b: seq<Demographic>)
    ensures CleanDemographics(a + b) == CleanDemographics(a) + CleanDemographics(b)
  {
    FilterMapAppend(a, b, CleanDemographicRow);
  }

  /** Only rows with a missing ZIP code are removed, every other row is kept
      and cleaned, and no row is invented. */
  lemma CleanDemographicsSpec(ds: seq<Demographic>)
    ensures |CleanDemographics(ds)| + Count(ds, LacksZipCode) == |ds|
    ensures forall i :: 0 <= i < |ds| && HasZipCode(ds[i]) ==> CleanDemographicRow(ds[i]).value in CleanDemographics(ds)
    ensures forall c :: c in CleanDemographics(ds) ==> exists i :: 0 <= i < |ds| && CleanDemographicRow(ds[i]) == Some(c)
  {
    FilterMapSpec(ds, CleanDemographicRow, HasZipCode);
    CountSplit(ds, HasZipCode, LacksZipCode);
  }
}
