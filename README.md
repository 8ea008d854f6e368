# Claim search — a Dafny model

This project models `ClaimSearcher` from `CC/claim_search.py`. The searcher holds
a worksheet of past complaints: a header row plus data rows. Given a new complaint,
it returns, as header→value records, every data row whose first cell reaches a
similarity threshold against the complaint.

The model starts from the rows already read out of the worksheet:

- `Cells` defines a cell value (`Str | Int | Bool | Null`) and Python's `str()` of it.
- `Text` defines ASCII lower-casing and "equal ignoring case".
- `Subsequence` defines order-preserving subsequences.
- `ClaimSearch` holds the split into headers and data rows (`Split`), the first-cell
  text, the case-insensitive similarity, the record built from a row (`RowRecord`),
  and the reference definition of a query's outcome (`Search`). The scan is stated
for any row test; a query's test is `Matcher(score, complaint, threshold)`. Its class
  `ClaimSearcher` has immutable fields `headers`, `rows` and `score`. Its method
  `FindSimilar` is the scanning loop, proved equal to `Search`.
- `ClaimSearchProperties` proves what a query promises: exactly the matching rows,
  in order; monotonicity in the threshold; case-insensitivity; the empty-sheet cases.

The similarity ratio itself is a sequence matcher's ratio in the source. Here it
is a parameter, `score: (string, string) -> real`, given to the constructor, and
nothing is assumed about it. `Similarity(score, a, b)` is `score(Lower(a), Lower(b))`.

A matching row with fewer cells than there are headers makes the source raise an
index error while it builds that row's dictionary. The model returns
`Err(RowTooShort(p))` for it, where `p` is the position of that row among the data rows.
A short row that does not match causes no error, since its dictionary is never
built. This is what the code does: line 59 raises the error.

## Model

| member | source | states |
|---|---|---|
| Cells.ToStr | CC/claim_search.py:30 | `str()` of a cell gives a text cell's own text. It gives the empty string only for the empty text cell: integers, booleans and `None` all have non-empty string forms |
| Cells.IntTextRoundTrip | CC/claim_search.py:57 | the string form of an integer cell can be read back to the same integer, so two different integers never print alike |
| ClaimSearch.HeaderText | CC/claim_search.py:30 | a header label is `""` exactly for an empty (`None`) cell or an empty text cell; a text cell's label is its text |
| ClaimSearch.Split | CC/claim_search.py:29-34 | no rows gives no headers and no data rows. Otherwise there is one header per cell of the first row, each that cell's label, and the first row followed by the data rows is the input again, so there are `total - 1` data rows in their original order |
| ClaimSearchProperties.SplitRoundTrip | CC/claim_search.py:29-31 | splitting a worksheet whose first row holds only text gives back exactly those labels as headers and all later rows unchanged |
| ClaimSearchProperties.NoDataRowsFindNothing | CC/claim_search.py:29-60 | a worksheet with no rows, or with a header row only, has no data rows, and every query on it returns no records |
| ClaimSearch.ClaimSearcher.constructor | CC/claim_search.py:29-34 | the searcher's headers and rows are those `Split` gives for the loaded rows; the similarity ratio is the given one |
| ClaimSearch.ClaimSearcher.FindSimilar | CC/claim_search.py:40-60 | the in-order scan that appends the record of each matching row returns exactly `Search` of the searcher's data. The threshold defaults to 0.6. It stops with the error at the first matching row that is too short. It changes no field |
| ClaimSearchProperties.EmptySheetSearch | CC/claim_search.py:29-60 | a searcher built from an empty worksheet answers every query with an empty list |
| ClaimSearch.FirstCellText | CC/claim_search.py:57 | the text a row is scored by is empty exactly when the row is empty, its first cell is `None`, or its first cell is the empty text; any other first cell is scored by its `str()`, and a text first cell is used as it is |
| ClaimSearch.Similarity | CC/claim_search.py:36-38 | computes the ratio of the two lower-cased strings, so strings that are already lower case are scored by the ratio directly. `ClaimSearchProperties.CaseInsensitive` and `ClaimSearchProperties.LowerComplaint` describe what the lower-casing buys |
| ClaimSearch.IsMatch | CC/claim_search.py:56-58 | a row matches when the similarity of the complaint and the row's first-cell text reaches the threshold; an empty row, or one whose first cell is `None`, is scored against `""`. `ClaimSearchProperties.ExactMatchFound` describes a row it must accept |
| Text.Lower | CC/claim_search.py:38 | computes ASCII lower-casing character by character and keeps the length. `Text.LowerShape`, `Text.LowerAgrees` and `Text.LowerIdempotent` describe it |
| Text.LowerShape | CC/claim_search.py:38 | lower-casing keeps the length, leaves no ASCII capital letter, and changes each character at most in its case |
| Text.LowerAgrees | CC/claim_search.py:38 | two strings lower-case to the same string if and only if they differ only in the case of ASCII letters |
| Text.LowerIdempotent | CC/claim_search.py:38 | lower-casing an already lower-cased string changes nothing |
| ClaimSearch.RowRecord | CC/claim_search.py:59 | computes the dictionary of a row, header by header, a later header overwriting an earlier equal one; it has at most one entry per header. `ClaimSearch.RecordKeys` and `ClaimSearch.RecordValues` describe its keys and values |
| ClaimSearch.RecordKeys | CC/claim_search.py:59 | a row's record has exactly the header strings as keys |
| ClaimSearch.RecordValues | CC/claim_search.py:59 | in a row's record, header `i` maps to cell `i` of the row whenever no later header repeats it, so with repeated headers the cell at the last position wins |
| ClaimSearch.MatchPositions | CC/claim_search.py:56-58 | computes the positions of the data rows that pass a row test, at most one per row. `ClaimSearch.MatchPositionsSound`, `ClaimSearch.MatchPositionsIncreasing` and `ClaimSearch.MatchPositionsComplete` describe them |
| ClaimSearch.MatchPositionsSound | CC/claim_search.py:56-58 | each reported position names a data row whose first-cell score reaches the threshold |
| ClaimSearch.MatchPositionsIncreasing | CC/claim_search.py:56-58 | reported positions strictly increase, so matches keep the original row order and no row is reported twice |
| ClaimSearch.MatchPositionsComplete | CC/claim_search.py:56-58 | every data row whose score reaches the threshold is reported |
| ClaimSearch.Search | CC/claim_search.py:55-60 | computes a query's outcome: the records of the rows that pass the test, at most one per row, or the error naming a row that passes and has fewer cells than there are headers. `ClaimSearchProperties.SearchReturnsMatches`, `ClaimSearchProperties.SearchSucceedsIff` and `ClaimSearchProperties.SearchErrorIsFirst` describe it |
| ClaimSearch.SearchErrorStops | CC/claim_search.py:56-59 | once the error is raised on a row, later rows do not change the outcome |
| ClaimSearchProperties.SearchSucceedsIff | CC/claim_search.py:56-59 | a query succeeds if and only if every matching row has at least as many cells as there are headers |
| ClaimSearchProperties.SearchErrorIsFirst | CC/claim_search.py:56-59 | a failed query names a matching row that is too short, and every earlier matching row is wide enough |
| ClaimSearchProperties.SearchReturnsMatches | CC/claim_search.py:55-60 | a successful query returns exactly one record per matching row: the k-th record is the record of the k-th matching row |
| ClaimSearchProperties.SearchStricterTest | CC/claim_search.py:56-59 | if a row test implies another and the scan with the looser test succeeds, the scan with the stricter test succeeds too and its records are a subsequence of the looser one's |
| ClaimSearchProperties.PositionsStricterTest | CC/claim_search.py:56-58 | the rows passing a stricter test are a subsequence of those passing a looser one |
| ClaimSearchProperties.ThresholdMonotone | CC/claim_search.py:58 | suppose `low <= high`. The rows matched at `high` are a subsequence of those matched at `low`. If the query at `low` succeeds, the query at `high` succeeds too, and its records are a subsequence of those at `low` |
| ClaimSearchProperties.SearchSameTest | CC/claim_search.py:55-60 | two row tests that agree on every row give the same outcome |
| ClaimSearchProperties.CaseInsensitive | CC/claim_search.py:38 | two complaints that differ only in the case of ASCII letters give the same outcome |
| ClaimSearchProperties.LowerComplaint | CC/claim_search.py:38 | lower-casing the complaint first does not change the outcome |
| ClaimSearchProperties.ExactMatchFound | CC/claim_search.py:38 | suppose the ratio scores every string 1.0 against itself and the threshold is at most 1.0. Then a row whose first-cell text equals the complaint up to case is reported |

## Left out

- Reading the workbook (`CC/claim_search.py:24-27`) is not modelled: the file path, opening the workbook, choosing the named or the active sheet, and the errors for a missing file or sheet. The model starts from the list of rows already read.
- The sequence matcher's ratio (`CC/claim_search.py:38`) is a library algorithm. It is the `score` parameter. The model does not assume it lies in [0, 1], or that identical strings score 1.0, except where `ExactMatchFound` says so.
- Scores and thresholds are real numbers. Floating-point rounding is not modelled.
- Lower-casing covers ASCII letters only; other characters are not changed. Python's `str.lower()` also folds non-ASCII letters.
- Cells are text, integers, booleans or empty. Floating-point numbers, dates and other cell types are not modelled, and neither is their `str()`.
- Records are Dafny maps, which have no order. The insertion order of keys in the returned dictionary is not modelled. The header→value content is modelled.
- A complaint that is not a string is not modelled: the complaint is always a string.
- The test scenarios in `tests/test_claim_search.py` are not modelled. Their outcomes depend on the matcher's exact scores, and their temporary-file setup is I/O.
- ThresholdMonotone: the subsequence relation between the records is stated only when the query at the lower threshold succeeds. When that query raises the short-row error there is no result list to compare, and the query at the higher threshold may still succeed.
