/** The in-memory data source: paging, filtering by employee and the
    approval setter, each a pure function of an explicit store. */
module Requests {
  import opened Wrappers
  import opened Types

  /** Width of every page served by the data source. */
  const TransactionsPerPage: nat := 5

  function Min(a: int, b: int): int {
    if a < b then a else b
  }

  /** Declarative description of page `page` of `items`: the elements at
      positions `page * 5 ..` in order, at most five of them, and a successor
      page exactly when elements remain after them. */
  predicate IsPageOf(items: seq<Transaction>, page: nat, resp: PaginatedResponse) {
    var start := page * TransactionsPerPage;
    && start <= |items|
    && |resp.data| == Min(TransactionsPerPage, |items| - start)
    && (forall i :: 0 <= i < |resp.data| ==> resp.data[i] == items[start + i])
    && (resp.nextPage.Some? <==> start + TransactionsPerPage < |items|)
    && (resp.nextPage.Some? ==> resp.nextPage.value == page + 1)
  }

  /** The slice arithmetic shared by both paginated queries. */
  function Paginate(items: seq<Transaction>, page: nat): (r: Result<PaginatedResponse, RequestError>)
    ensures r.Failure? <==> page * TransactionsPerPage > |items|
    ensures r.Failure? ==> r.error == InvalidPage
    ensures r.Success? ==> IsPageOf(items, page, r.value)
    ensures r.Success? ==> |r.value.data| <= TransactionsPerPage
    ensures r.Success? && r.value.nextPage.Some? ==> |r.value.data| == TransactionsPerPage
    ensures r.Success? ==> (r.value.nextPage.None? <==> page * TransactionsPerPage + |r.value.data| == |items|)
  {
    var start := page * TransactionsPerPage;
    var end := start + TransactionsPerPage;
    if start > |items| then
      Failure(InvalidPage)
    else
      var nextPage := if end < |items| then Some(page + 1) else None;
      Success(PaginatedResponse(items[start..Min(end, |items|)], nextPage))
  }

  /** A page is determined by its description: `IsPageOf` admits one response only. */
  lemma PageIsUnique(items: seq<Transaction>, page: nat, a: PaginatedResponse, b: PaginatedResponse)
    requires IsPageOf(items, page, a) && IsPageOf(items, page, b)
    ensures a == b
  {
  }

  /** Concatenating pages 0 .. k in order rebuilds the first `5 * (k + 1)`
      items (or all of them); this is what "load more" relies on. */
  lemma PagesRebuildPrefix(items: seq<Transaction>, k: nat)
    requires k * TransactionsPerPage <= |items|
    ensures Paginate(items, k).Success?
    ensures items[..k * TransactionsPerPage] + Paginate(items, k).value.data
         == items[..Min((k + 1) * TransactionsPerPage, |items|)]
  {
  }

  /** The stored employee list, unpaged. */
  function GetEmployees(store: Dataset): seq<Employee> {
    store.employees
  }

  /** Page `page` of all transactions; a null page is refused. */
  function GetTransactionsPaginated(store: Dataset, page: Option<nat>): (r: Result<PaginatedResponse, RequestError>)
    ensures page.None? ==> r == Failure(NullPage)
    ensures page.Some? ==> (r.Failure? <==> page.value * TransactionsPerPage > |store.transactions|)
    ensures page.Some? && r.Failure? ==> r.error == InvalidPage
    ensures r.Success? ==> page.Some? && IsPageOf(store.transactions, page.value, r.value)
  {
    match page
    case None => Failure(NullPage)
    case Some(p) => Paginate(store.transactions, p)
  }

  /** The transactions of one employee, in dataset order. */
  function ForEmployee(ts: seq<Transaction>, employeeId: string): (r: seq<Transaction>)
    ensures |r| <= |ts|
    ensures forall i :: 0 <= i < |r| ==> r[i].employee.id == employeeId
    ensures forall t :: t in r ==> t in ts
    ensures forall t :: t in ts && t.employee.id == employeeId ==> t in r
  {
    if ts == [] then []
    else
      var rest := ForEmployee(ts[1..], employeeId);
      if ts[0].employee.id == employeeId then [ts[0]] + rest else rest
  }

  /** Filtering commutes with concatenation: the filter keeps the relative
      order of the transactions it retains. */
  lemma {:induction false} ForEmployeeAppend(a: seq<Transaction>, b: seq<Transaction>, employeeId: string)
    ensures ForEmployee(a + b, employeeId) == ForEmployee(a, employeeId) + ForEmployee(b, employeeId)
  {
    if a == [] {
      assert a + b == b;
    } else {
      assert (a + b)[1..] == a[1..] + b;
      ForEmployeeAppend(a[1..], b, employeeId);
    }
  }

  /** Page `page` (null meaning 0) of one employee's transactions; an empty
      id is refused before any page check. */
  function GetTransactionsByEmployee(store: Dataset, employeeId: string, page: Option<nat>)
    : (r: Result<PaginatedResponse, RequestError>)
    ensures employeeId == "" ==> r == Failure(EmptyEmployeeId)
    ensures employeeId != "" ==>
      (r.Failure? <==> page.GetOr(0) * TransactionsPerPage > |ForEmployee(store.transactions, employeeId)|)
    ensures employeeId != "" && r.Failure? ==> r.error == InvalidPage
    ensures r.Success? ==> IsPageOf(ForEmployee(store.transactions, employeeId), page.GetOr(0), r.value)
    ensures r.Success? ==> forall i :: 0 <= i < |r.value.data| ==> r.value.data[i].employee.id == employeeId
  {
    if employeeId == "" then
      Failure(EmptyEmployeeId)
    else
      Paginate(ForEmployee(store.transactions, employeeId), page.GetOr(0))
  }

  /** A null page is served exactly as page 0. */
  lemma NullPageIsFirstPage(store: Dataset, employeeId: string)
    ensures GetTransactionsByEmployee(store, employeeId, None)
         == GetTransactionsByEmployee(store, employeeId, Some(0))
  {
  }

  /** `k` is the position of the first transaction whose id is `transactionId`. */
  predicate IsFirstMatch(ts: seq<Transaction>, transactionId: string, k: int) {
    && 0 <= k < |ts|
    && ts[k].id == transactionId
    && forall j :: 0 <= j < k ==> ts[j].id != transactionId
  }

  /** The position of the first transaction with the given id, if any. */
  function FindTransaction(ts: seq<Transaction>, transactionId: string): (r: Option<nat>)
    ensures r.None? <==> forall j :: 0 <= j < |ts| ==> ts[j].id != transactionId
    ensures r.Some? ==> IsFirstMatch(ts, transactionId, r.value)
  {
    if ts == [] then None
    else if ts[0].id == transactionId then Some(0)
    else
      match FindTransaction(ts[1..], transactionId)
      case None => None
      case Some(k) => Some(k + 1)
  }

  /** Sets `approved := value` on the first transaction with the given id and
      returns the updated store; an unknown id is refused. */
  function SetTransactionApproval(store: Dataset, transactionId: string, value: bool)
    : (r: Result<Dataset, RequestError>)
    ensures r.Failure? <==> forall j :: 0 <= j < |store.transactions| ==> store.transactions[j].id != transactionId
    ensures r.Failure? ==> r.error == TransactionNotFound
    ensures r.Success? ==> r.value.employees == store.employees
    ensures r.Success? ==> |r.value.transactions| == |store.transactions|
    ensures r.Success? ==>
      forall j :: 0 <= j < |store.transactions| ==>
        r.value.transactions[j]
          == if IsFirstMatch(store.transactions, transactionId, j)
             then store.transactions[j].(approved := value)
             else store.transactions[j]
  {
    match FindTransaction(store.transactions, transactionId)
    case None => Failure(TransactionNotFound)
    case Some(k) =>
      var ts := store.transactions;
      Success(store.(transactions := ts[k := ts[k].(approved := value)]))
  }

  /** After a successful update, the first transaction with that id reads
      back the new flag, and ids (hence later look-ups) are unchanged. */
  lemma ApprovalReadsBack(store: Dataset, transactionId: string, value: bool)
    requires SetTransactionApproval(store, transactionId, value).Success?
    ensures var updated := SetTransactionApproval(store, transactionId, value).value;
      && FindTransaction(updated.transactions, transactionId) == FindTransaction(store.transactions, transactionId)
      && updated.transactions[FindTransaction(store.transactions, transactionId).value].approved == value
  {
  }

  /** `FindTransaction` depends on the ids only. */
  lemma FindTransactionSameIds(a: seq<Transaction>, b: seq<Transaction>, transactionId: string)
    requires |a| == |b|
    requires forall j :: 0 <= j < |a| ==> a[j].id == b[j].id
    ensures FindTransaction(a, transactionId) == FindTransaction(b, transactionId)
  {
  }

  /** Writing back the previous flag restores the original store exactly:
      nothing but the one flag was touched. */
  lemma ApprovalUndo(store: Dataset, transactionId: string, value: bool)
    requires SetTransactionApproval(store, transactionId, value).Success?
    ensures var k := FindTransaction(store.transactions, transactionId).value;
      var updated := SetTransactionApproval(store, transactionId, value).value;
      SetTransactionApproval(updated, transactionId, store.transactions[k].approved) == Success(store)
  {
    var k := FindTransaction(store.transactions, transactionId).value;
    var updated := SetTransactionApproval(store, transactionId, value).value;
    ApprovalReadsBack(store, transactionId, value);
    var restored := SetTransactionApproval(updated, transactionId, store.transactions[k].approved).value;
    assert restored.transactions == store.transactions;
  }

  /** The requests the data source answers, one per exported function. */
  datatype Request =
    | ListEmployees
    | TransactionsPaginated(page: Option<nat>)
    | ByEmployee(employeeId: string, page: Option<nat>)
    | SetApproval(transactionId: string, value: bool)

  datatype Reply = EmployeeList(employees: seq<Employee>) | TransactionPage(response: PaginatedResponse) | Approved

  /** The store after a request, and the request's answer or failure. */
  datatype Outcome = Outcome(store: Dataset, reply: Result<Reply, RequestError>)

  /** Listing employees returns the stored list as it is, unpaged, and
      leaves the store alone. */
  lemma ListEmployeesReturnsStore(store: Dataset)
    ensures Handle(store, ListEmployees) == Outcome(store, Success(EmployeeList(store.employees)))
  {
  }

  /** The data source as a state machine over its store: only the setter
      changes the store, only by one flag, and never when it fails. */
  function Handle(store: Dataset, req: Request): (o: Outcome)
    ensures !req.SetApproval? ==> o.store == store
    ensures o.reply.Failure? ==> o.store == store
    ensures req.ListEmployees? ==> o.reply == Success(EmployeeList(store.employees))
    ensures o.store.employees == store.employees
    ensures |o.store.transactions| == |store.transactions|
    ensures forall j :: 0 <= j < |store.transactions| ==>
      && o.store.transactions[j].(approved := store.transactions[j].approved) == store.transactions[j]
  {
    match req
    case ListEmployees => Outcome(store, Success(EmployeeList(GetEmployees(store))))
    case TransactionsPaginated(page) =>
      (match GetTransactionsPaginated(store, page)
       case Failure(e) => Outcome(store, Failure(e))
       case Success(resp) => Outcome(store, Success(TransactionPage(resp))))
    case ByEmployee(employeeId, page) =>
      (match GetTransactionsByEmployee(store, employeeId, page)
       case Failure(e) => Outcome(store, Failure(e))
       case Success(resp) => Outcome(store, Success(TransactionPage(resp))))
    case SetApproval(transactionId, value) =>
      match SetTransactionApproval(store, transactionId, value)
      case Failure(e) => Outcome(store, Failure(e))
      case Success(updated) => Outcome(updated, Success(Approved))
  }
}
