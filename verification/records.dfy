/** The rows of the two input tables, the cleaned rows, and the joined row.
    Numeric columns are carried through unchanged and never inspected; a
    missing value (NaN) is `None`. */
module Records {
  import opened Optional

  /** One row of the listings table as loaded. */
  datatype Listing = Listing(
    rawAddress: string,
    postalCode: Option<string>,
    listingPrice: Option<real>,
    sqFt: Option<real>,
    bedrooms: Option<int>)

  /** One row of the demographics table as loaded. */
  datatype Demographic = Demographic(
    zipCode: Option<string>,
    medianIncome: Option<real>,
    schoolRating: Option<real>,
    crimeIndex: Option<real>)

  /** A listing after `clean_listings`: the padded code replaces the raw one
      and the derived columns are added. */
  datatype CleanListing = CleanListing(
    rawAddress: string,
    postalCode: string,
    listingPrice: Option<real>,
    sqFt: Option<real>,
    bedrooms: Option<int>,
    zipPrefix: string,
    streetNumber: Option<string>,
    streetName: string,
    normStreet: string,
    cleanStreet: string)

  /** A demographic row after `clean_demographics`. */
  datatype CleanDemographic = CleanDemographic(
    zipCode: string,
    medianIncome: Option<real>,
    schoolRating: Option<real>,
    crimeIndex: Option<real>,
    zipPrefix: string)

  /** The identity used by deduplication: `(street_number, clean_street, zip_prefix)`. */
  datatype DedupKey = DedupKey(streetNumber: Option<string>, cleanStreet: string, zipPrefix: string)

  function KeyOf(l: CleanListing): DedupKey {
    DedupKey(l.streetNumber, l.cleanStreet, l.zipPrefix)
  }

  /** The demographic columns of a joined row (`zip_prefix` is the join key and
      appears once, with the listing). */
  datatype DemoColumns = DemoColumns(
    zipCode: Option<string>,
    medianIncome: Option<real>,
    schoolRating: Option<real>,
    crimeIndex: Option<real>)

  const NullDemo: DemoColumns := DemoColumns(None, None, None, None)

  function ColumnsOf(d: CleanDemographic): DemoColumns {
    DemoColumns(Some(d.zipCode), d.medianIncome, d.schoolRating, d.crimeIndex)
  }

  /** One row of the joined table. */
  datatype MergedRow = MergedRow(listing: CleanListing, demo: DemoColumns)
}
