# Parts search — a Dafny model of the keyword search

This is a model of the search behind the "Parts Search Engine" page in `app.py`.
The page loads a spreadsheet of parts. Each row has Brand, Model,
Year, PartNumber, Category, EN_Name, TH_Name and URL. The page then does three
things:

1. **SEARCH column.** When the table is loaded, each row gets one search
   string: the seven searchable columns joined with single spaces, in a fixed
   order, then lower-cased. URL is left out (`Catalog.Composite`,
   `Catalog.WithSearchColumn`).
2. **Query guard and keyword filter.** An empty search box shows the "start
   typing" hint. Any other query is lower-cased. The result is every row whose
   SEARCH cell contains that string, in table order (`PartsSearch.Search`,
   `PartsSearch.Filter`).
3. **Pivot summary.** The result rows are grouped by the verbatim
   (Brand, Model, Year, Category). Each group is counted, and the groups are
   sorted by count, largest first (`Summary.Summarize`).

Everything is pure: functions over `seq` with lemmas about them. There are
four modules, one per concern:

- `Text` (text.dfy): `lower` and substring containment.
- `Catalog` (catalog.dfy): the record, the SEARCH column and the loaded table.
- `Summary` (summary.dfy): the group-count-sort summary.
- `PartsSearch` (search.dfy): the filter and the page outcome.

A loaded table row keeps its pandas index label (`Row.index`), because a boolean
mask keeps the labels. "Order is kept and no row appears twice" is then stated
as: the labels of the result strictly increase, and each result row is the table
row its label names.

The query is one literal substring. `-`, `_` and `/` are matched as typed. The
query is not split into keywords and there is no fuzzy matching. Groups with
equal counts come in no fixed order.

## Model

| member | source | states |
|---|---|---|
| `Text.LowerChar` | app.py:41 | one character of `lower`: never an upper-case letter afterwards; either unchanged or an A–Z letter moved to its a–z form |
| `Text.Lower` | app.py:41 | `lower` keeps the length, maps each character on its own, and leaves no upper-case letter |
| `Text.LowerIdempotent` | app.py:41 | lower-casing twice equals lower-casing once |
| `Text.ContainsIffOccurs` | app.py:59 | the substring test `Text.Contains` (Python's `keyword in text`) holds exactly when the keyword occurs as a contiguous run at some position |
| `Text.ContainsLower` | app.py:56-59 | a keyword found in a text is still found after both are lower-cased |
| `Catalog.Composite` | app.py:33-41 | the SEARCH cell, `lower` of `Catalog.Joined` (the columns joined with spaces), is lower case, and its length is the seven column lengths plus six separators |
| `Catalog.JoinedSpelledOut` | app.py:33-40 | the join is Brand, Model, Year, PartNumber, Category, EN_Name, TH_Name in that order, with one space between neighbours |
| `Catalog.CompositeLayout` | app.py:33-41 | the SEARCH cell is lower(Brand) " " lower(Model) " " lower(Year) " " lower(PartNumber) " " lower(Category) " " lower(EN_Name) " " lower(TH_Name), in that order |
| `Catalog.CompositeAlreadyLower` | app.py:41 | lower-casing the SEARCH cell again leaves it unchanged |
| `Catalog.CompositeIgnoresUrl` | app.py:33-40 | changing the URL never changes the SEARCH cell |
| `Catalog.CompositeContainsFields` | app.py:33-41 | each of the seven searchable columns, lower-cased, occurs inside the SEARCH cell |
| `Catalog.WithSearchColumn` | app.py:33-43 | the loaded table has one row per record in spreadsheet order, labels 0, 1, 2, …, and every SEARCH cell equals that row's composite |
| `PartsSearch.Filter` | app.py:59 | a row is in the result if and only if it is a table row whose SEARCH cell contains the keyword (soundness and completeness); the result is no longer than the table |
| `PartsSearch.FilterKeepsTableOrder` | app.py:59 | if the table's labels strictly increase, so do the result's: table order is kept and no row is repeated |
| `PartsSearch.FilterIsSubsequence` | app.py:59 | on a loaded table the result is a subsequence: labels strictly increase, and each result row is the table row at its label |
| `PartsSearch.Search` | app.py:55-104 | only the empty query shows the "start typing" hint, so a whitespace-only query still searches; otherwise the result is exactly the rows containing lower(query), with a valid summary whose counts add up to the result length |
| `PartsSearch.SearchKeepsTableOrder` | app.py:55-59 | for any non-empty query on a loaded table, the page's result keeps table order and repeats no row: labels strictly increase and each result row is the table row at its label |
| `PartsSearch.SearchIgnoresCase` | app.py:56 | two queries that lower-case to the same text give the same page |
| `PartsSearch.SearchOfLoweredQuery` | app.py:56 | typing the query in lower case gives the same page as typing it in any case |
| `PartsSearch.FieldQueryFindsRow` | app.py:33-59 | a non-empty query that occurs, ignoring case, inside any searchable column of a row finds that row |
| `Summary.GroupSize` | app.py:68-69 | for the groupby key `Summary.KeyOf` (the verbatim Brand, Model, Year, Category), a group's size is at most the number of result rows, and it is positive exactly when some result row has that verbatim key |
| `Summary.GroupKeys` | app.py:68 | the groups are exactly the keys of the result rows, each listed once |
| `Summary.Insert` | app.py:71 | inserting a line gives one more line, the same lines plus the new one (as a multiset) |
| `Summary.InsertNonIncreasing` | app.py:71 | inserting into lines of non-increasing count keeps them non-increasing |
| `Summary.SortByParts` | app.py:71 | the sort returns a permutation of the summary lines, with counts non-increasing |
| `Summary.SortByPartsTotal` | app.py:71 | sorting keeps the sum of the Parts column |
| `Summary.SortByPartsDistinct` | app.py:71 | sorting lines with distinct keys leaves the keys distinct |
| `Summary.PermutedTallyIsSummary` | app.py:66-71 | any non-increasing reordering of `Summary.Tally`, the per-group counts that `size().reset_index(name="Parts")` produces, with distinct keys, meets the summary contract |
| `Summary.Summarize` | app.py:66-72 | the pivot has distinct keys; each count is the exact number of result rows with that key and is at least 1; every result row's key is listed; counts are non-increasing; counts add up to the result length |
| `Summary.SumOfSizesCovering` | app.py:68-69 | group sizes over distinct keys that cover every result row add up to the number of rows |
| `Summary.SummaryTotalsResult` | app.py:66-72 | in any summary of a result, the counts add up to the result length |
| `Summary.SummaryUniqueUpToOrder` | app.py:66-71 | two summaries of the same result have the same lines; they can differ only in the order of equal counts |

## Left out

- Streamlit rendering is not modelled: page setup, the text box, captions, subheaders, data frames and link buttons (app.py:1-9, 47, 50-53, 61, 64, 74-101). The page outcome (`PartsSearch.Page`) carries the data the page shows.
- The `head(20)` cap on product buttons (app.py:96) is a display limit. It does not change the result, so it is not modelled.
- Excel loading and caching are not modelled: `read_excel`, positional column selection and `@st.cache_data` (app.py:12-17, 45). Records arrive as text fields. `astype(str)` (app.py:30) is assumed to have run already, so missing cells are the text `"nan"`. For the same reason `na=False` and groupby's dropping of missing keys never apply.
- `Text.Lower` maps only ASCII A–Z to a–z. Python's `str.lower` also lower-cases other scripts (Latin-1, Greek, Cyrillic, …). Thai has no case, so catalog rows in English and Thai behave the same.
- `PartsSearch.Filter` treats the keyword as a literal substring. `str.contains` reads it as a regular expression by default. The model agrees with the code only for keywords without regex metacharacters (`. * + ? ( ) [ ] { } ^ $ | \`).
- `Summary.SortByParts` promises non-increasing counts and no order among groups of equal count, because `sort_values` uses an unstable quicksort. The model lists groups in first-appearance order before sorting. pandas lists them in sorted-key order, which the unstable sort may reorder anyway.
