# Transactions data source and by-employee controller

A Dafny model of the pure logic behind a finance-review front end. The model
has two parts.

- **The in-memory data source** (`src/utils/requests.ts`) lists employees. It
  pages through all transactions or through one employee's transactions, five
  per page. It also sets the `approved` flag of a transaction. Here the store
  is an explicit `Dataset` value. Each thrown error becomes a `Failure` with one
  of `NullPage`, `InvalidPage`, `EmptyEmployeeId` or `TransactionNotFound`.
  The setter returns the updated store instead of mutating it in place.
- **The by-employee controller state** (`src/hooks/useTransactionsByEmployee.ts`)
  is an `Option<PaginatedResponse>`. `PageToRequest` chooses the next page,
  `Merge` folds a response in, and `Invalidated` is the state
  `invalidateData` installs. The request cache is modelled in two ways.
  `FetchById` treats it as an oracle
  (`FetchParams -> Option<PaginatedResponse>`). It reads the page from the
  state captured at the last render and merges into the latest state, as
  the hook's closure and its functional update do. `FetchFromSource` is a
  fetch answered by the data source itself, after a re-render, where an
  error propagates and the state stays as it was.

Modules: `Wrappers` (`Option`, `Result`), `Types` (entities), `Requests`
(the data source) and `TransactionsByEmployee` (the controller).

Three behaviours of the code are worth knowing:

- A null page for the all-transactions query fails with its own error,
  `NullPage` (src/utils/requests.ts:23-24), not with `InvalidPage`.
- A null `nextPage` is not terminal. The next fetch sends a null page, which
  the by-employee query serves as page 0, so the first page is appended
  again (`ExhaustedFetchRepeatsFirstPage`).
- Selecting another employee invalidates and fetches in the same handler
  (src/App.tsx:89-92). The page is then still chosen from the previous
  employee's state, so the new employee's first page can be skipped
  (`SwitchBeforeRenderSkipsFirstPage`).

## Model

| member | source | states |
|---|---|---|
| `Requests.Paginate` | src/utils/requests.ts:27-39 | Fails with `InvalidPage` exactly when `page * 5` exceeds the list length, so a start equal to the length is accepted and gives an empty last page. On success the data holds the items from position `page * 5` in order, and there are at most five of them. `nextPage` is `page + 1` exactly when items remain after the page; otherwise it is null. A non-null `nextPage` implies a full page of five. |
| `Requests.PageIsUnique` | src/utils/requests.ts:27-39 | The declarative page description `IsPageOf` fixes the response uniquely, so it is a complete specification of a page. |
| `Requests.PagesRebuildPrefix` | src/utils/requests.ts:27-38 | The first `5k` items followed by page `k` are exactly the first `min(5(k+1), n)` items. So pages read in order rebuild the list without gaps or repeats. |
| `Requests.GetTransactionsPaginated` | src/utils/requests.ts:20-40 | A null page fails with `NullPage`. Otherwise the query fails with `InvalidPage` exactly on overflow. On success the response is that page of the full transaction list. |
| `Requests.ForEmployee` | src/utils/requests.ts:47 | The filter keeps exactly the transactions whose employee id matches: every kept one matches, every matching one is kept, and nothing new appears. |
| `Requests.ForEmployeeAppend` | src/utils/requests.ts:47 | Filtering distributes over concatenation, so the filtered list keeps dataset order. |
| `Requests.GetTransactionsByEmployee` | src/utils/requests.ts:42-61 | An empty employee id fails with `EmptyEmployeeId` whatever the page. Otherwise the page rules apply to the employee's filtered list, with a null page read as 0. Every returned transaction belongs to that employee. |
| `Requests.NullPageIsFirstPage` | src/utils/requests.ts:48-55 | For the by-employee query, a null page gives the same outcome as page 0, including the next page. |
| `Requests.FindTransaction` | src/utils/requests.ts:64-66 | Finds no position exactly when no transaction has the id. Otherwise it returns the position of the first transaction with that id. |
| `Requests.SetTransactionApproval` | src/utils/requests.ts:63-73 | Fails with `TransactionNotFound` exactly when no transaction has the id. Otherwise only the first matching transaction gets `approved := value`. Every other transaction, every other field and the employee list stay as they were. |
| `Requests.FindTransactionSameIds` | src/utils/requests.ts:64-66 | The look-up depends only on the ids, so changing an approval flag cannot change which transaction a later look-up finds. |
| `Requests.ApprovalReadsBack` | src/utils/requests.ts:63-73 | After a successful update, the same id finds the same transaction, and that transaction reads back the new flag. |
| `Requests.ApprovalUndo` | src/utils/requests.ts:63-73 | Writing the previous flag back restores the original store exactly, which shows the update touched nothing else. |
| `Requests.ListEmployeesReturnsStore` | src/utils/requests.ts:18 | Listing employees returns the stored list as it is, unpaged, and leaves the store unchanged. |
| `Requests.Handle` | src/utils/requests.ts:13-73 | Treats the exported functions as requests on the store. Queries never change the store, and a failed request leaves it unchanged. Listing employees returns the stored list as it is. No request changes the employees, the number of transactions, or any field other than `approved`. |
| `TransactionsByEmployee.Merge` | src/hooks/useTransactionsByEmployee.ts:21-33 | A null response leaves the state unchanged. A response on a null state becomes the state verbatim. Otherwise the shown data is the previous data followed by the response data, and `nextPage` comes from the response. The previous data is always a prefix of the new data. |
| `TransactionsByEmployee.InvalidateRestarts` | src/hooks/useTransactionsByEmployee.ts:38-40 | Invalidation installs the null state with nothing shown. Once the component has re-rendered, the next fetch asks for page 0 and its answer becomes the state verbatim. |
| `TransactionsByEmployee.FetchById` | src/hooks/useTransactionsByEmployee.ts:10-36 | One fetch asks the oracle for the page chosen from the last-rendered state. If the answer is null, the latest state is kept. Otherwise the shown list becomes the latest shown list followed by exactly the answer's data, and the answer's `nextPage` is adopted. On a null latest state the answer is installed verbatim. Shown data is never dropped. |
| `TransactionsByEmployee.FetchFromSource` | src/hooks/useTransactionsByEmployee.ts:12-33 | The fetch fails exactly when the data source refuses the chosen page, with the same error, and always fails on an empty id. On success the shown list is the old one followed by exactly the data of the page the source serves for the chosen page number, and that page's `nextPage` is adopted. Every newly appended transaction belongs to the employee. |
| `TransactionsByEmployee.SwitchBeforeRenderSkipsFirstPage` | src/hooks/useTransactionsByEmployee.ts:16-35 | Suppose the previous employee's rendered state records successor page 1, the state is invalidated, and a fetch for a new employee with at least five transactions runs before a re-render. Then page 1 is requested and installed, and the shown list is that employee's transactions 5 to 9, not the first five. |
| `TransactionsByEmployee.OracleAgreesWithSource` | src/hooks/useTransactionsByEmployee.ts:12-18 | If the cache answers the request the way the data source does, the oracle-based fetch and the direct fetch reach the same state. |
| `TransactionsByEmployee.FirstFetch` | src/hooks/useTransactionsByEmployee.ts:16 | From the null state (`PageToRequest` gives 0) the first fetch requests page 0 and shows the employee's first page. |
| `TransactionsByEmployee.NextFetch` | src/hooks/useTransactionsByEmployee.ts:16-32 | While a successor page is recorded, `PageToRequest` gives it, and one fetch extends the shown prefix by exactly that page. |
| `TransactionsByEmployee.Accumulation` | src/hooks/useTransactionsByEmployee.ts:10-33 | Start from the null state and make k + 1 fetches for one employee, each while a successor page is recorded. The shown data is then the first `min(5(k+1), m)` of the employee's `m` transactions in dataset order, and `nextPage` is `k + 1` exactly when more remain. |
| `TransactionsByEmployee.ExhaustedFetchRepeatsFirstPage` | src/hooks/useTransactionsByEmployee.ts:16 | Once `nextPage` is null, the next fetch sends a null page, which the data source reads as page 0. The employee's first page is appended again and `nextPage` restarts at 1. |
| `TransactionsByEmployee.MergeAllConcatenates` | src/hooks/useTransactionsByEmployee.ts:21-33 | Merge a sequence of responses in order. The shown data is the old data followed by the data of the non-null responses in order. `nextPage` comes from the last non-null response. With no non-null response, the state is unchanged. |

## Left out

- `src/App.tsx` is not part of this model: view coordination, filter selection, the derived transaction list and `hasMore`, and the loading flags.
- `usePaginatedTransactions`, `useEmployees` and `useCustomFetch` are outside this model. The request cache is either an oracle parameter (`FetchById`) or assumed transparent (`FetchFromSource`). Its key serialisation, memoisation, `loading` flag and global invalidation are not modelled.
- Loading `mock-data.json` into a module-level store: the store is the explicit `Dataset` parameter.
- The `console.log` of each response.
- Asynchronous interleaving: a stale in-flight response can still be merged after invalidation. `FetchById` separates the last-rendered state from the latest one, but the model does not enumerate schedules of overlapping fetches. `FetchFromSource` and the accumulation lemmas assume a re-render between fetches.
- React's functional-updater mechanics: only the pure reducer they apply (`Merge`) is modelled.
- Pages are natural numbers. Negative or fractional `page` values, which JavaScript's `slice` would accept, are out of scope.
- `amount` is a JavaScript number, modelled as `real`. No operation computes with it.
- `Requests.SetTransactionApproval` returns a new store instead of mutating shared objects. In the source, pages already handed out share objects with the store, so a later approval also shows in them. The model keeps values, not references.
- `Requests.GetTransactionsByEmployee`: the only falsy `employeeId` modelled is the empty string, because the parameter is typed as a string.
