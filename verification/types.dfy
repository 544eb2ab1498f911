/** The entities exchanged between the data source and its callers. */
module Types {
  import opened Wrappers

  datatype Employee = Employee(id: string, firstName: string, lastName: string)

  /** `approved` is the only field any operation changes. */
  datatype Transaction = Transaction(
    id: string,
    amount: real,
    employee: Employee,
    date: string,
    approved: bool)

  /** One page of results; `nextPage == None` marks the last page. */
  datatype PaginatedResponse = PaginatedResponse(data: seq<Transaction>, nextPage: Option<nat>)

  /** The in-memory store the query functions read and the setter updates. */
  datatype Dataset = Dataset(employees: seq<Employee>, transactions: seq<Transaction>)

  /** The distinct failures the data source raises. */
  datatype RequestError = NullPage | InvalidPage | EmptyEmployeeId | TransactionNotFound
}
