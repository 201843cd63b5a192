# Cross-page row selection of the paginated artworks table

The `Table` component shows a lazily fetched, paginated grid of artworks with
a checkbox column. Besides per-row and header ("select all") checkboxes, it
offers a "select the first N rows" field: the request is written into a map
from 0-based page number to a count of selected rows, starting at the page in
view and spilling onto as many following pages as needed, 12 rows per page.
A page's count `c` means its rows at positions `0 .. c - 1` are selected;
when a page is shown, that count is projected onto the loaded rows.

This model treats the React state as explicit inputs and outputs:

- `wrappers.dfy` — `Option` (`None` is JavaScript `NaN` or `undefined`) and `Min`.
- `bulk_selection.dfy` — module `BulkSelection`: the page map, the request
  guard, the page-filling loop (`BulkSelect`) and a closed-form reference
  (`Layout`: pages `start .. start + ceil(N/12) - 1`, full pages then the
  remainder) that the loop is proved to produce.
- `projection.dfy` — module `Projection`: the count-to-rows projection of the
  page in view.
- `handlers.dfy` — module `Handlers`: the two checkbox handlers, each
  returning the new selection together with the select-all flag.

Each iteration of the loop subtracts the value it has just written
(`min(12, remaining)`) from the remaining amount, so the loop runs while the
remaining amount is positive and ends with it at exactly 0 (this is the loop
invariant of `BulkSelect`). Subtracting a full 12 on every page would give
the same map: the two differ only on the last page, and the loop stops after
it either way. A page's entry is a count, not a set of positions. The
component keeps no identifier-to-position index.

## Model

| member | source | states |
|---|---|---|
| BulkSelection.BulkSelect | src/components/Table.tsx:82-102 | A request that is NaN or not positive returns the map unchanged. An accepted request for N rows from page `start` yields the old map overridden by the closed-form `Layout`: exactly the pages `start .. start + ceil(N/12) - 1` are added or overwritten, each with a count in `[1, 12]`, all other pages keep their entry, and the counts written sum to N. |
| BulkSelection.PageCountBounds | src/components/Table.tsx:92-98 | The number of pages the loop visits is the ceiling of N / 12: the least k with N <= 12k. |
| BulkSelection.Quota | src/components/Table.tsx:93-96 | The count written on the i-th page of a request is 12 on every page but the last, and `N - 12(k-1)` on the last; it always lies in `[1, 12]`. |
| BulkSelection.StepAmount | src/components/Table.tsx:93-97 | One iteration writes `min(12, remaining)`, which equals that page's quota, and leaves exactly the next page's starting amount (0 after the last page). |
| BulkSelection.QuotaTotal | src/components/Table.tsx:93-97 | The first j pages of a request hold 12j rows for j < k, and all k pages hold exactly N rows. |
| BulkSelection.LayoutTotal | src/components/Table.tsx:92-99 | The counts one accepted request writes add up to exactly N. |
| BulkSelection.BulkSelectIdempotent | src/components/Table.tsx:91-99 | Issuing the same accepted request twice from the same page leaves the same map as issuing it once. |
| BulkSelection.TwentyFromFirstPage | src/components/Table.tsx:92-99 | 20 rows from page 0 give page 0 a count of 12, page 1 a count of 8, and nothing else. |
| BulkSelection.OnePageFromThirdPage | src/components/Table.tsx:92-99 | 12 rows from page 2 write page 2 only, with 12. |
| Projection.Rows | src/components/Table.tsx:105-108 | Pushing rows for a count c yields c entries, entry i being the row read at position i. |
| Projection.Project | src/components/Table.tsx:104-111 | A page with no entry projects to the empty list; a page with count c projects to c entries, entry i being the loaded row i, or `undefined` past the end of the loaded rows. |
| Projection.ProjectLoadedPrefix | src/components/Table.tsx:105-108 | When a page's count is at most the number of loaded rows, its projection is exactly the leading `count` loaded rows. |
| Projection.ProjectOutsideRange | src/components/Table.tsx:91-98 | For the same loaded rows, a request leaves the projection of every page outside the range it writes unchanged. |
| Projection.ProjectAfterRequest | src/components/Table.tsx:93-108 | After an accepted request for N rows, the page it was issued on projects to one entry for each of its first `min(N, 12)` positions, whatever it held before: the loaded row there, or `undefined` past the loaded rows (for instance before the first fetch returns, or on a short last page); when enough rows are loaded, exactly its first `min(N, 12)` rows. |
| Handlers.OnSelectionChange | src/components/Table.tsx:65-69 | The reported rows become the selection, and the select-all flag is set if and only if their number equals the catalog's total record count. |
| Handlers.OnSelectAllChange | src/components/Table.tsx:71-80 | Checking selects every loaded row with the flag true; unchecking clears the selection with the flag false. |
| Handlers.SelectAllMatchesSelectionChange | src/components/Table.tsx:65-80 | Checking the header box and the grid reporting all loaded rows agree if and only if the loaded rows number the catalog's total. |
| Handlers.ClearAllMatchesSelectionChange | src/components/Table.tsx:65-80 | Unchecking the header box and the grid reporting an empty selection agree if and only if the catalog is not empty. |

## Left out

- Fetching a page (`loadLazyData`, src/components/Table.tsx:47-59): HTTP request to the catalog API, total count, loading flag, error logging. Network I/O; the loaded rows and the total are parameters here.
- React effect scheduling (src/components/Table.tsx:42-45) and the call to `manualSelection` right after the state update (src/components/Table.tsx:100-101), which reads the map as it was before the update. On a page change the effect starts `loadLazyData` without awaiting it and then runs `manualSelection` with the rows still held from the page being left, so the new page's count is applied to the previous page's rows; the grid then matches those rows by `id`, so the rows shown as selected are not the stored ones. The projection is modelled as a pure function of the map, the page and the loaded rows, not of that timing.
- Parsing the text field with JavaScript `Number`: the request is taken as already parsed, an integer or `None` for NaN (an empty field parses to 0 and is rejected). Fractional input such as `2.5`, which would store a non-integer count, is not modelled.
- BulkSelection.BulkSelect: the request is modelled as an exact unbounded integer, while the program holds it in a floating-point number. In the program a request above 2^57 (where subtracting 12 rounds back to the same value), or `Infinity`, never terminates, and the counts written add up exactly to the request only below 2^53. The termination and sum-to-N guarantees hold for the model, not for those inputs.
- Row identity (`dataKey="id"`) resolution inside the grid widget; the component has no identifier-to-position index of its own.
- Rendering: the column list, the overlay panel, icons and styles.
- `console.log` / `console.error` diagnostics.
