# Join-key cleaning and merge, modelled in Dafny

This project models the core of a small housing-data pipeline. It turns two raw
tables into one joined table: property listings, keyed by postal code and
street address, and ZIP-level demographics.

- **Postal codes.** A row with a missing code is dropped. The code is stripped,
  then zero-padded with Python's `str.zfill` to five characters when shorter,
  and its first three characters become `zip_prefix`.
- **Addresses.** The leading digit run becomes `street_number`. The rest, after
  any whitespace, becomes `street_name`.
- **Street names.** A street name is canonicalised in three steps:
  1. normalise: lowercase, non-word characters become spaces, whitespace runs
     are collapsed, and the ends are trimmed;
  2. expand whole-word abbreviations from an ordered table (`st` → `street`,
     `mg` → `mahatma gandhi`, …);
  3. drop a token that repeats the previous kept token when it is a
     street-type suffix.
- **Deduplication.** Listings are deduplicated on
  `(street_number, clean_street, zip_prefix)`, keeping the first row of each
  key.
- **Join.** Listings are left-outer-joined to demographics on `zip_prefix`.

Strings are `seq<char>`. Character classes are ASCII:
- word characters are `[A-Za-z0-9_]`;
- whitespace is the space and the characters 9–13 and 28–31, which is
  Python's `str.isspace` restricted to ASCII.

Each regular-expression step is modelled as the scan the regex engine performs.
The step is then proved equal to a simpler token-level or slice-level reading.
Rows are immutable datatypes, and tables are sequences of rows.

Files, one module each:
- `optional.dfy` — `Option`.
- `seqs.dfy` — subsequences, filter, count, flat-map.
- `text.dfy` — character classes, `lower`, `strip`, `split()`, `" ".join`, and
  the `Normalized` street shape.
- `address.dfy` — `split_address`.
- `normalize.dfy` — `normalize_series`.
- `abbreviations.dfy` — `expand_abbreviations`.
- `suffixes.dfy` — `remove_duplicate_suffixes`.
- `postal.dfy` — `zfill`, padding and the prefix.
- `records.dfy` — row types.
- `dedup.dfy` — `drop_duplicates(keep='first')`.
- `cleaning.dfy` — `clean_listings` and `clean_demographics`.
- `merging.dfy` — `merge_listings_demographics`.
- `worked.dfy` — the listing `12 St Marys Ave Ave` followed through every step.

`12 St Marys Ave Ave` canonicalises to `street marys avenue`. The pattern
`\bst\b` matches the standalone token `st`, so it expands to `street`; see
`WorkedExample.ListingExample`.

## Model

| member | source | states |
|---|---|---|
| Text.Lower | src/data_cleaning.py:17 | `str.lower()` on ASCII: same length, and each character is lowered on its own. |
| Text.Strip | src/data_cleaning.py:20 | `str.strip()`: never longer than the input, and the result neither starts nor ends with whitespace. `Text.StripSpec` pins it to the exact slice. |
| Text.StripSpec | src/data_cleaning.py:20 | `strip()` removes exactly a whitespace prefix and a whitespace suffix. The result is the slice between them, and it neither starts nor ends with whitespace. |
| Text.TrimLeftStep | src/data_cleaning.py:20 | The left half of `strip()` agrees with the character-by-character scan that drops leading whitespace. |
| Text.TrimRightStep | src/data_cleaning.py:20 | The right half of `strip()` agrees with the scan that drops trailing whitespace. |
| Text.Split | src/data_cleaning.py:57 | `str.split()` with no argument: every token is non-empty and free of whitespace. `Text.SplitJoin` and `Text.JoinSplit` relate it to `Join`. |
| Text.Join | src/data_cleaning.py:62 | `" ".join`: its partner contracts are `Text.SplitJoin` (split inverts it) and `Text.JoinNormalized` (canonical tokens give a normalised string). |
| Text.SplitJoin | src/data_cleaning.py:57 | Splitting a single-space join of non-empty, space-free tokens gives back those tokens (`split()` inverts `" ".join`). |
| Text.JoinSplit | src/data_cleaning.py:62 | A normalised string is the single-space join of its own `split()` (`" ".join` inverts `split()`). |
| Text.JoinNormalized | src/data_cleaning.py:62 | Joining canonical tokens with single spaces gives a normalised string. |
| Address.SplitAddress | src/data_cleaning.py:7-8 | `street_number` is absent exactly when the address does not start with a digit, and then `street_name` is the whole address. Otherwise the address is the number (a maximal digit run), then whitespace, then `street_name`, which does not start with whitespace. |
| Address.SplitAddressRecovers | src/data_cleaning.py:7-8 | The converse: for any digits, whitespace and name meeting those conditions, the split recovers exactly those digits and that name. |
| Address.ExampleNoNumber | src/data_cleaning.py:7-8 | `Main St` has no number and keeps its whole text as the street name. |
| Normalize.ReplaceNonWord | src/data_cleaning.py:18 | Each character is kept if it is a word character and replaced by one space otherwise; the length is unchanged. |
| Normalize.SubNonWord | src/data_cleaning.py:18 | The `re.sub` scan of `[^\w]` → `" "`. Its contract is `Normalize.SubNonWordIsPointwise`: it equals the per-character map `ReplaceNonWord`. |
| Normalize.SubNonWordIsPointwise | src/data_cleaning.py:18 | The left-to-right `re.sub` scan of `[^\w]` → `" "` equals the per-character map: word characters are copied and each other character becomes one space. |
| Normalize.CollapseWs | src/data_cleaning.py:19 | The `\s+` → `" "` scan: a string starting with a non-space keeps that first character. Its full contract is `Normalize.StripCollapse`: followed by strip it equals `" ".join(s.split())`. |
| Normalize.NormalizeStreet | src/data_cleaning.py:14-20 | The result is normalised: lowercase letters, digits and `_` separated by single spaces, with no space at either end. It equals the single-space join of the `split()` of the lowered, word-only text. |
| Normalize.StripCollapse | src/data_cleaning.py:19-20 | Collapsing whitespace runs to one space and then stripping is the same as `" ".join(s.split())`. |
| Normalize.NormalizeFixes | src/data_cleaning.py:14-20 | A normalised string is a fixed point of street normalisation. |
| Normalize.NormalizeIdempotent | src/data_cleaning.py:14-20 | Normalising twice equals normalising once. |
| Normalize.NormalizeIgnoresCase | src/data_cleaning.py:17 | Normalisation gives the same result on the lowered input. |
| Abbreviations.ReplaceWord | src/data_cleaning.py:44 | `re.sub(r"\bKEY\b", rep, s)` as a left-to-right scan. Its contracts are `Abbreviations.TokenStep` (one token at a time) and `Abbreviations.ReplaceWordJoin` (the token-level replacement). |
| Abbreviations.ApplyTable | src/data_cleaning.py:43-44 | The loop over the table's entries in order. Its contract is `Abbreviations.ApplyTableJoin`: on a token join it equals the token-level fold. |
| Abbreviations.ExpandAbbreviations | src/data_cleaning.py:24-46 | `expand_abbreviations` on one cell. Its contracts are `Abbreviations.ExpandIsTokenMap`, `Abbreviations.ExpandIdempotent` and `Abbreviations.ExpansionOrderIrrelevant`. |
| Abbreviations.TokenStep | src/data_cleaning.py:44 | The `\bKEY\b` scan, at the start of a token followed by a non-word character, replaces the token exactly when it equals the key. It then continues after the token. |
| Abbreviations.ReplaceWordJoin | src/data_cleaning.py:43-44 | On a single-space join of tokens, one table entry's regex substitution equals the join of the token list with every token equal to the key replaced by the expansion's words. |
| Abbreviations.ApplyTableJoin | src/data_cleaning.py:43-44 | Applying the entries in table order to a token join equals joining the tokens rewritten entry by entry. |
| Abbreviations.FoldIsTokenMap | src/data_cleaning.py:43-44 | When no expansion word is a key, rewriting entry by entry equals one simultaneous token lookup. |
| Abbreviations.Lookup | src/data_cleaning.py:25-39 | A token is replaced by the words of an entry whose key it equals. If no key matches, it is left as the single token. |
| Abbreviations.TableWellFormed | src/data_cleaning.py:25-39 | Every key of the table is a canonical token and every expansion is non-empty canonical tokens. Keys are distinct, and no expansion word is a key. |
| Abbreviations.ExpandIsTokenMap | src/data_cleaning.py:24-46 | On normalised input, `expand_abbreviations` replaces each token equal to a key by its expansion (`mg` becomes two tokens) and leaves every other token. The result is normalised. |
| Abbreviations.TokenMapOutputFree | src/data_cleaning.py:25-39 | No token produced by the lookup is a key of the table. |
| Abbreviations.ExpandIdempotent | src/data_cleaning.py:24-46 | On normalised input, expanding the output again changes nothing. |
| Abbreviations.ExpansionOrderIrrelevant | src/data_cleaning.py:43-44 | Any reordering of the table's entries gives the same result on normalised input. |
| Abbreviations.ExampleMahatmaGandhi | src/data_cleaning.py:39 | `mg road` expands to `mahatma gandhi road`. |
| Suffixes.Collapse | src/data_cleaning.py:57-61 | The `cleaned` list after the loop, for any suffix list. Its contracts are `Suffixes.CollapseSpec`, `Suffixes.CollapseIsReference` and `Suffixes.NonSuffixesKept`. |
| Suffixes.CollapseSuffixes | src/data_cleaning.py:51-61 | The loop with the nine street suffixes. It inherits the contracts of `Suffixes.Collapse`. |
| Suffixes.CollapseSpec | src/data_cleaning.py:56-62 | The kept tokens are a subsequence of the input tokens. The last input token is always kept. No two adjacent kept tokens are equal and in the suffix list. |
| Suffixes.CollapseIsReference | src/data_cleaning.py:60 | Comparing each token with the last KEPT token gives the same result as comparing it with the previous INPUT token. |
| Suffixes.NonSuffixesKept | src/data_cleaning.py:60 | Only suffix tokens are ever dropped: the non-suffix tokens, repeated ones included, are kept in their order. |
| Suffixes.RunCollapses | src/data_cleaning.py:56-62 | A run of any length of one suffix token collapses to one occurrence. |
| Suffixes.CollapseFixes | src/data_cleaning.py:56-62 | A token list without a repeated suffix is left unchanged. |
| Suffixes.RemoveDuplicateSuffixes | src/data_cleaning.py:50-64 | The tokens of the result are the collapsed tokens of the input. |
| Suffixes.RemoveDuplicateSuffixesNormalized | src/data_cleaning.py:50-64 | A normalised street stays normalised. |
| Suffixes.RemoveDuplicateSuffixesIdempotent | src/data_cleaning.py:50-64 | Applying the step twice equals applying it once. |
| Suffixes.ExampleStreetRun | src/data_cleaning.py:51-62 | `street street street` becomes `street`. |
| Postal.Zfill | src/data_cleaning.py:76 | `zfill(width)` leaves a string of at least `width` characters unchanged. Otherwise it returns exactly `width` characters: zeros then the string, or, after a leading sign, the sign, then zeros, then the rest. |
| Postal.PadCode | src/data_cleaning.py:76 | The padding lambda: a code of 5 or more characters is unchanged, and a shorter one becomes exactly 5 characters. `Postal.PadUnsigned` gives the shorter case's content. |
| Postal.CleanCode | src/data_cleaning.py:75-76 | Strip, then pad: the cleaned code has at least 5 characters. `Postal.CleanCodeIdempotent` is its partner. |
| Postal.ZipPrefix | src/data_cleaning.py:79 | `.str[:3]`, clamped: the prefix has `min(3, len)` characters and is a prefix of the code. |
| Postal.PadUnsigned | src/data_cleaning.py:75-76 | A sign-free code shorter than 5 becomes exactly `5 - len` zeros followed by the code. |
| Postal.PadIdempotent | src/data_cleaning.py:76 | Padding a padded code changes nothing. |
| Postal.CleanCodeIdempotent | src/data_cleaning.py:75-76 | Stripping and padding an already cleaned code changes nothing. |
| Postal.PrefixOfCleanCode | src/data_cleaning.py:79 | `zip_prefix` of a cleaned code has exactly 3 characters and is the code's first three. |
| Postal.ExampleShortCode | src/data_cleaning.py:75-79 | `501` becomes `00501` with prefix `005`. |
| Postal.ExampleSignedCode | src/data_cleaning.py:76 | `-12` is padded to `-0012`: the zeros go after the sign. |
| Dedup.DropDuplicates | src/data_cleaning.py:94 | `drop_duplicates(keep='first')` as the scan with a set of seen keys. Its contracts are `Dedup.FirstRowsIsDedup`, `Dedup.DropDuplicatesSpec` and `Dedup.DistinctFixed`. |
| Dedup.DropDuplicatesSpec | src/data_cleaning.py:94 | The result is an order-preserving subsequence of the input. Its keys are pairwise distinct, every input key is still present, and the value of the first row of each key appears. Which positions are kept is pinned by `Dedup.FirstRowsIsDedup`. |
| Dedup.FirstRowsIsDedup | src/data_cleaning.py:94 | `keep='first'` by position: the result is exactly the rows that have no earlier row with the same key, in input order. So of two equal rows, the earlier one is kept and the later one dropped. |
| Dedup.DistinctFixed | src/data_cleaning.py:94 | Rows whose keys are already distinct are left unchanged. |
| Dedup.DropDuplicatesIdempotent | src/data_cleaning.py:94 | Deduplicating twice equals deduplicating once. |
| Dedup.DropDuplicatesScan | src/data_cleaning.py:94 | The scan with a set of seen keys computes the deduplication. |
| Cleaning.CleanListings | src/data_cleaning.py:68-96 | `clean_listings`. Its contracts are `Cleaning.CleanListingsSpec`, `Cleaning.CleanListingsProvenance` and `Cleaning.CleanListingsDedupIdempotent`. |
| Cleaning.CanonicalStreet | src/data_cleaning.py:85-91 | The canonical street is normalised. Its tokens are the normalised name's tokens, each replaced by its abbreviation lookup, with repeated suffixes then collapsed. |
| Cleaning.CanonicalStreetOfNormalized | src/data_cleaning.py:85-91 | Two names with the same normalised form have the same canonical street. |
| Cleaning.CanonicalStreetHasNoKeys | src/data_cleaning.py:85-91 | No token of a canonical street is an abbreviation key. |
| Cleaning.CanonicalStreetIdempotent | src/data_cleaning.py:85-91 | Canonicalising a canonical street changes nothing. |
| Cleaning.CleanListingRow | src/data_cleaning.py:72-79 | A row survives exactly when its code is present. A surviving row's code is the raw code stripped and then `zfill`ed to 5, so it has at least 5 characters. Its prefix is the code's first 3 characters, and its other input columns are unchanged. |
| Cleaning.CleanListingRowStreet | src/data_cleaning.py:82-91 | A surviving row's street columns are the address split, the normalised name and the canonical name. |
| Cleaning.CleanListingRowsSpec | src/data_cleaning.py:72 | Before deduplication the row count equals the number of rows with a code. Every such row is present, cleaned, and no other row appears. |
| Cleaning.CleanListingRowsOrder | src/data_cleaning.py:72 | The row filter keeps the input order: cleaning two tables in sequence gives the first table's surviving rows, then the second's. |
| Cleaning.CleanListingsSpec | src/data_cleaning.py:94 | The cleaned listings have distinct `(street_number, clean_street, zip_prefix)` keys, and the key of every row with a code survives. They are exactly the cleaned rows that have no earlier cleaned row with the same key, in input order. |
| Cleaning.CleanListingsProvenance | src/data_cleaning.py:68-96 | Every cleaned listing is the cleaned form of some input row. |
| Cleaning.CleanListingsDedupIdempotent | src/data_cleaning.py:94 | Deduplicating the cleaned listings again changes nothing. |
| Cleaning.CleanDemographics | src/data_cleaning.py:100-110 | `clean_demographics`. Its contracts are `Cleaning.CleanDemographicsSpec` and `Cleaning.CleanDemographicsOrder`. |
| Cleaning.CleanDemographicRow | src/data_cleaning.py:103-108 | A row survives exactly when its ZIP code is present. A surviving row's ZIP code is the raw code stripped and then `zfill`ed to 5, so it has at least 5 characters. Its prefix is the code's first 3 characters, and its other columns are unchanged. |
| Cleaning.CleanDemographicsSpec | src/data_cleaning.py:103 | The output count plus the null-code count is the input count. Every non-null row is present, cleaned, and no other row appears. |
| Cleaning.CleanDemographicsOrder | src/data_cleaning.py:103 | The demographic rows keep their input order in the same way. |
| Merging.LeftJoin | src/data_merging.py:4-5 | `merge_listings_demographics`, one block of rows per listing. Its contracts are `Merging.LeftJoinComplete`, `Merging.LeftJoinProvenance`, `Merging.LeftJoinLength` and `Merging.LeftJoinAppend`. |
| Merging.MatchRows | src/data_merging.py:5 | The inner loop of the join: no rows when the listing has no match, and otherwise exactly the listing's block. |
| Merging.BlockUnmatched | src/data_merging.py:5 | A listing with no demographic row of its prefix gives exactly one row, with null demographic columns. |
| Merging.BlockMatched | src/data_merging.py:5 | A listing with N ≥ 1 matches gives exactly N rows, one per matching demographic row, each carrying the listing unchanged. |
| Merging.BlockOrder | src/data_merging.py:5 | A listing's rows follow the demographic order: the k-th row carries the k-th matching demographic row. |
| Merging.LeftJoinLength | src/data_merging.py:5 | The output length is the sum over listings of max(1, number of matches). |
| Merging.LeftJoinAppend | src/data_merging.py:4-5 | The output follows listing order: joining two listing blocks concatenates their outputs. |
| Merging.LeftJoinProvenance | src/data_merging.py:5 | Every output row carries a listing from the input. Its demographic columns are null or come from a demographic row with the same prefix. |
| Merging.LeftJoinComplete | src/data_merging.py:5 | Every matching (listing, demographic) pair appears, and every unmatched listing appears with null columns. |
| Merging.LeftJoinLoop | src/data_merging.py:4-5 | The nested-loop join computes the left join. |
| Merging.FanOutExample | src/data_merging.py:5 | One listing and two matching demographic rows give two rows, in demographic order. |
| Merging.NoMatchExample | src/data_merging.py:5 | A listing whose prefix matches nothing appears once, with null demographic columns. |
| WorkedExample.CanonicalStreetShape | src/data_cleaning.py:85-91 | `st M ave ave` canonicalises to `street M avenue` for every word `M` that is neither a key nor a suffix. The standalone `st` expands, and the doubled `avenue` collapses. |
| WorkedExample.ExpandStep | src/data_cleaning.py:88 | `st M ave ave` expands to `street M avenue avenue`. |
| WorkedExample.ListingExample | src/data_cleaning.py:68-91 | The listing `12 St Marys Ave Ave` with code `501` becomes code `00501`, prefix `005`, number `12`, name `St Marys Ave Ave`, and clean street `street marys avenue`. |

## Left out

- The Streamlit page, plots, correlations and derived metrics are presentation code and are not part of this model. So is CSV loading.
- Unicode: character classes, `lower()` and `isspace()` are ASCII only. A non-ASCII letter is treated as neither a word character nor whitespace, whereas Python would count it as a word character in `\w`.
- `astype(str)` is not modelled. Codes and addresses arrive as strings, so a code read as a float (`501.0`) is outside the model.
- A missing `raw_address` is not modelled. The address is a non-null string; pandas would turn a missing one into the text `nan`.
- `df.copy()` and `reset_index(drop=True)` are not modelled, because they change neither the rows nor their order.
- The numeric columns (price, area, bedrooms, income, school rating, crime index) are carried through as `Option` values and never inspected. No floating-point arithmetic is modelled.
- The demographic columns of a joined row are all null together for an unmatched listing (`NullDemo`). A matched row's ZIP code column is the demographic row's code; pandas' column naming of the result is not modelled.
