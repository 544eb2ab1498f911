/** The accumulate/merge state of the by-employee transactions controller:
    which page to ask for next, how a response is folded into the pages
    already shown, and invalidation. */
module TransactionsByEmployee {
  import opened Wrappers
  import opened Types
  import Requests

  /** Accumulated pages so far; `None` before the first fetch or after
      invalidation. */
  type State = Option<PaginatedResponse>

  /** The parameters the controller hands to the request cache. */
  datatype FetchParams = FetchParams(employeeId: string, page: Option<nat>)

  /** The transactions shown so far. */
  function Shown(s: State): seq<Transaction> {
    match s
    case None => []
    case Some(r) => r.data
  }

  /** The page a fetch asks for: 0 from the empty state, otherwise the
      recorded successor, which is `None` once the list is exhausted. */
  function PageToRequest(s: State): Option<nat> {
    if s.None? then Some(0) else s.value.nextPage
  }

  /** Folds a possibly-null response into the accumulated state. */
  function Merge(prev: State, response: Option<PaginatedResponse>): (next: State)
    ensures response.None? ==> next == prev
    ensures response.Some? ==> next.Some? && next.value.nextPage == response.value.nextPage
    ensures response.Some? ==> Shown(next) == Shown(prev) + response.value.data
    ensures prev.None? && response.Some? ==> next == response
    ensures Shown(prev) <= Shown(next)
  {
    match response
    case None => prev
    case Some(resp) =>
      match prev
      case None => response
      case Some(p) => Some(PaginatedResponse(p.data + resp.data, resp.nextPage))
  }

  /** The state `invalidateData` installs: accumulated pages discarded. */
  const Invalidated: State := None

  /** Once the component has re-rendered after invalidation, the next fetch
      asks for page 0 and its answer becomes the state verbatim. */
  lemma InvalidateRestarts(employeeId: string, fetch: FetchParams -> Option<PaginatedResponse>)
    ensures Shown(Invalidated) == []
    ensures FetchById(Invalidated, Invalidated, employeeId, fetch) == fetch(FetchParams(employeeId, Some(0)))
  {
  }

  /** One fetch through the request cache, modelled as an oracle. The page is
      chosen from `rendered`, the state captured when the component last
      rendered; the answer is merged into `latest`, the state current when
      the update is applied. In sequential use the two coincide. */
  function FetchById(rendered: State, latest: State, employeeId: string,
                     fetch: FetchParams -> Option<PaginatedResponse>): (next: State)
    ensures var resp := fetch(FetchParams(employeeId, PageToRequest(rendered)));
      && (resp.None? ==> next == latest)
      && (resp.Some? ==> next.Some? && next.value.nextPage == resp.value.nextPage)
      && (resp.Some? ==> Shown(next) == Shown(latest) + resp.value.data)
      && (resp.Some? && latest.None? ==> next == resp)
    ensures Shown(latest) <= Shown(next)
  {
    Merge(latest, fetch(FetchParams(employeeId, PageToRequest(rendered))))
  }

  /** One fetch answered by the data source itself (a cache miss), with the
      component re-rendered since the last update: a thrown error propagates
      unchanged and the state is left alone; otherwise the requested page is
      appended and its successor adopted. */
  function FetchFromSource(store: Dataset, employeeId: string, s: State): (r: Result<State, RequestError>)
    ensures employeeId == "" ==> r == Failure(EmptyEmployeeId)
    ensures var q := Requests.GetTransactionsByEmployee(store, employeeId, PageToRequest(s));
      && (r.Failure? <==> q.Failure?)
      && (r.Failure? ==> r.error == q.error)
      && (r.Success? ==> r.value.Some? && Shown(r.value) == Shown(s) + q.value.data)
      && (r.Success? ==> r.value.value.nextPage == q.value.nextPage)
    ensures r.Success? ==>
      forall i :: |Shown(s)| <= i < |Shown(r.value)| ==> Shown(r.value)[i].employee.id == employeeId
  {
    match Requests.GetTransactionsByEmployee(store, employeeId, PageToRequest(s))
    case Failure(e) => Failure(e)
    case Success(resp) => Success(Merge(s, Some(resp)))
  }

  /** With an oracle that answers this request the way the data source does,
      the cached fetch and the direct fetch agree. */
  lemma OracleAgreesWithSource(store: Dataset, employeeId: string, s: State,
                               fetch: FetchParams -> Option<PaginatedResponse>)
    requires Requests.GetTransactionsByEmployee(store, employeeId, PageToRequest(s)).Success?
    requires fetch(FetchParams(employeeId, PageToRequest(s)))
          == Some(Requests.GetTransactionsByEmployee(store, employeeId, PageToRequest(s)).value)
    ensures FetchFromSource(store, employeeId, s) == Success(FetchById(s, s, employeeId, fetch))
  {
  }

  /** Selecting another employee invalidates and fetches in the same handler,
      before a re-render: the page is still chosen from the previous
      employee's state. If that state recorded successor page 1, the new
      employee's page 1 is installed over the invalidated state and their
      first page is never shown. */
  lemma SwitchBeforeRenderSkipsFirstPage(
    store: Dataset, employeeId: string, previous: seq<Transaction>,
    fetch: FetchParams -> Option<PaginatedResponse>)
    requires employeeId != ""
    requires Requests.TransactionsPerPage <= |Requests.ForEmployee(store.transactions, employeeId)|
    requires fetch(FetchParams(employeeId, Some(1)))
          == Some(Requests.GetTransactionsByEmployee(store, employeeId, Some(1)).value)
    ensures var items := Requests.ForEmployee(store.transactions, employeeId);
      var stop := Requests.Min(2 * Requests.TransactionsPerPage, |items|);
      Shown(FetchById(Some(PaginatedResponse(previous, Some(1))), Invalidated, employeeId, fetch))
        == items[Requests.TransactionsPerPage..stop]
  {
  }

  /** `n` sequential fetches from the data source, stopping at the first error. */
  function FetchTimes(store: Dataset, employeeId: string, s: State, n: nat): Result<State, RequestError>
    decreases n
  {
    if n == 0 then Success(s)
    else
      match FetchTimes(store, employeeId, s, n - 1)
      case Failure(e) => Failure(e)
      case Success(prev) => FetchFromSource(store, employeeId, prev)
  }

  /** One more successful fetch after `n` of them. */
  lemma FetchTimesThen(store: Dataset, employeeId: string, n: nat, prev: State, next: State)
    requires FetchTimes(store, employeeId, None, n) == Success(prev)
    requires FetchFromSource(store, employeeId, prev) == Success(next)
    ensures FetchTimes(store, employeeId, None, n + 1) == Success(next)
  {
  }

  /** The state after pages 0 .. j - 1 of `items` have been merged. */
  function Frontier(items: seq<Transaction>, j: nat): State {
    var shown := Requests.Min(j * Requests.TransactionsPerPage, |items|);
    Some(PaginatedResponse(
      items[..shown],
      if j * Requests.TransactionsPerPage < |items| then Some(j) else None))
  }

  /** The first fetch from the empty state shows page 0. */
  lemma FirstFetch(store: Dataset, employeeId: string)
    requires employeeId != ""
    ensures FetchFromSource(store, employeeId, None)
         == Success(Frontier(Requests.ForEmployee(store.transactions, employeeId), 1))
  {
  }

  /** A fetch made while the successor page is known extends the shown
      prefix by exactly that page. */
  lemma {:induction false} NextFetch(store: Dataset, employeeId: string, j: nat)
    requires employeeId != ""
    requires 1 <= j
    requires j * Requests.TransactionsPerPage < |Requests.ForEmployee(store.transactions, employeeId)|
    ensures FetchFromSource(store, employeeId, Frontier(Requests.ForEmployee(store.transactions, employeeId), j))
         == Success(Frontier(Requests.ForEmployee(store.transactions, employeeId), j + 1))
  {
    var items := Requests.ForEmployee(store.transactions, employeeId);
    Requests.PagesRebuildPrefix(items, j);
  }

  /** If every one of the first k + 1 fetches leads from `states(j)` to
      `states(j + 1)`, then k + 1 fetches from the empty state end in
      `states(k + 1)`. */
  lemma {:induction false} FetchTimesFollowsSteps(store: Dataset, employeeId: string, k: nat, states: nat -> State)
    requires states(0) == None
    requires forall j :: 0 <= j <= k ==> FetchFromSource(store, employeeId, states(j)) == Success(states(j + 1))
    ensures FetchTimes(store, employeeId, None, k + 1) == Success(states(k + 1))
  {
    if k > 0 {
      FetchTimesFollowsSteps(store, employeeId, k - 1, states);
    }
    FetchTimesThen(store, employeeId, k, states(k), states(k + 1));
  }

  /** Accumulation law: from the empty state, k + 1 fetches for one employee,
      each made while a successor page is known, show the first
      min(5 (k + 1), m) of that employee's m transactions, in dataset order,
      with the successor of page k recorded. */
  lemma Accumulation(store: Dataset, employeeId: string, k: nat)
    requires employeeId != ""
    requires k == 0 || k * Requests.TransactionsPerPage < |Requests.ForEmployee(store.transactions, employeeId)|
    ensures var items := Requests.ForEmployee(store.transactions, employeeId);
      var shown := Requests.Min((k + 1) * Requests.TransactionsPerPage, |items|);
      FetchTimes(store, employeeId, None, k + 1)
        == Success(Some(PaginatedResponse(
             items[..shown],
             if (k + 1) * Requests.TransactionsPerPage < |items| then Some(k + 1) else None)))
  {
    var items := Requests.ForEmployee(store.transactions, employeeId);
    var states := (j: nat) => Progress(items, j);
    forall j | 0 <= j <= k
      ensures FetchFromSource(store, employeeId, states(j)) == Success(states(j + 1))
    {
      ProgressStep(store, employeeId, k, j);
    }
    FetchTimesFollowsSteps(store, employeeId, k, states);
  }

  /** The state after `j` fetches from the empty state, while pages remain. */
  function Progress(items: seq<Transaction>, j: nat): State {
    if j == 0 then None else Frontier(items, j)
  }

  /** Each of the first k + 1 fetches advances `Progress` by one page. */
  lemma ProgressStep(store: Dataset, employeeId: string, k: nat, j: nat)
    requires employeeId != ""
    requires k == 0 || k * Requests.TransactionsPerPage < |Requests.ForEmployee(store.transactions, employeeId)|
    requires j <= k
    ensures var items := Requests.ForEmployee(store.transactions, employeeId);
      FetchFromSource(store, employeeId, Progress(items, j)) == Success(Progress(items, j + 1))
  {
    if j == 0 {
      FirstFetch(store, employeeId);
    } else {
      assert j * Requests.TransactionsPerPage <= k * Requests.TransactionsPerPage;
      NextFetch(store, employeeId, j);
    }
  }

  /** Once the list is exhausted the next request carries a null page, which
      the data source serves as page 0: the first page is appended again and
      the successor restarts at 1. */
  lemma ExhaustedFetchRepeatsFirstPage(store: Dataset, employeeId: string, shown: seq<Transaction>)
    requires employeeId != ""
    ensures var items := Requests.ForEmployee(store.transactions, employeeId);
      FetchFromSource(store, employeeId, Some(PaginatedResponse(shown, None)))
        == Success(Some(PaginatedResponse(
             shown + items[..Requests.Min(Requests.TransactionsPerPage, |items|)],
             if Requests.TransactionsPerPage < |items| then Some(1) else None)))
  {
  }

  /** Folding a sequence of responses, in order, into a state. */
  function MergeAll(s: State, responses: seq<Option<PaginatedResponse>>): State
    decreases |responses|
  {
    if responses == [] then s else MergeAll(Merge(s, responses[0]), responses[1..])
  }

  /** The transactions carried by the non-null responses, in order. */
  function Carried(responses: seq<Option<PaginatedResponse>>): seq<Transaction>
    decreases |responses|
  {
    if responses == [] then []
    else
      var head := if responses[0].Some? then responses[0].value.data else [];
      head + Carried(responses[1..])
  }

  /** The last non-null response, if any. */
  function LastResponse(responses: seq<Option<PaginatedResponse>>): Option<PaginatedResponse>
    decreases |responses|
  {
    if responses == [] then None
    else if responses[|responses| - 1].Some? then responses[|responses| - 1]
    else LastResponse(responses[..|responses| - 1])
  }

  /** Accumulated data is the concatenation of the fetched pages in fetch
      order, and the successor is that of the most recent non-null page;
      null responses change nothing. */
  lemma MergeAllConcatenates(s: State, responses: seq<Option<PaginatedResponse>>)
    ensures Shown(MergeAll(s, responses)) == Shown(s) + Carried(responses)
    ensures LastResponse(responses).None? ==> MergeAll(s, responses) == s
    ensures LastResponse(responses).Some? ==>
      MergeAll(s, responses).Some? && MergeAll(s, responses).value.nextPage == LastResponse(responses).value.nextPage
  {
    MergeAllShown(s, responses);
    MergeAllFrontier(s, responses);
  }

  /** The shown part of `MergeAllConcatenates`. */
  lemma {:induction false} MergeAllShown(s: State, responses: seq<Option<PaginatedResponse>>)
    ensures Shown(MergeAll(s, responses)) == Shown(s) + Carried(responses)
    decreases |responses|
  {
    if responses != [] {
      var rest := responses[1..];
      var head := if responses[0].Some? then responses[0].value.data else [];
      var mid := Merge(s, responses[0]);
      var tail := Carried(rest);
      assert Shown(mid) == Shown(s) + head;
      assert Carried(responses) == head + tail;
      assert MergeAll(s, responses) == MergeAll(mid, rest);
      MergeAllShown(mid, rest);
      ConcatAssociates(Shown(s), head, tail);
    }
  }

  lemma ConcatAssociates(a: seq<Transaction>, b: seq<Transaction>, c: seq<Transaction>)
    ensures (a + b) + c == a + (b + c)
  {
  }

  /** The successor part of `MergeAllConcatenates`. */
  lemma {:induction false} MergeAllFrontier(s: State, responses: seq<Option<PaginatedResponse>>)
    ensures LastResponse(responses).None? ==> MergeAll(s, responses) == s
    ensures LastResponse(responses).Some? ==>
      MergeAll(s, responses).Some? && MergeAll(s, responses).value.nextPage == LastResponse(responses).value.nextPage
    decreases |responses|
  {
    if responses != [] {
      MergeAllFrontier(Merge(s, responses[0]), responses[1..]);
      LastResponseOfTail(responses);
    }
  }

  /** `LastResponse` seen from the front of the sequence. */
  lemma {:induction false} LastResponseOfTail(responses: seq<Option<PaginatedResponse>>)
    requires responses != []
    ensures LastResponse(responses)
         == if LastResponse(responses[1..]).Some? then LastResponse(responses[1..]) else responses[0]
    decreases |responses|
  {
    var n := |responses|;
    if n > 1 && responses[n - 1].None? {
      var init := responses[..n - 1];
      LastResponseOfTail(init);
      assert init[1..] == responses[1..][..n - 2];
      assert init[0] == responses[0];
    }
  }
}
