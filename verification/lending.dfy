/**
 * The lending-record table the dashboard works on, already loaded and typed.
 * A cell that the table leaves empty (pandas NaN, or NaT for a date) is `None`.
 * Dates are day numbers: the dashboard compares issue dates by calendar day.
 */
module Lending {
  import opened Seqs

  datatype Option<+T> = None | Some(value: T)

  type Day = int

  /** The five columns that get a multi-select filter in the sidebar. */
  datatype Category = Genre | BorrowerType | StudentBatch | StudentMajor | BorrowerAgeGroup

  /** The recognised columns; a loaded table holds some subset of them. */
  datatype Column =
    | BorrowerId
    | BookTitle
    | Cat(category: Category)
    | IssueDate
    | DueDate
    | ReturnDate
    | OverdueStatus
    | DaysOnLoan

  /** One book-loan event. A field whose column the table lacks is `None` and is never consulted. */
  datatype Row = Row(
    borrowerId: Option<string>,
    bookTitle: Option<string>,
    genre: Option<string>,
    borrowerType: Option<string>,
    studentBatch: Option<string>,
    studentMajor: Option<string>,
    borrowerAgeGroup: Option<string>,
    issueDate: Option<Day>,
    dueDate: Option<Day>,
    returnDate: Option<Day>,
    overdueStatus: Option<string>,
    daysOnLoan: Option<int>)
  {
    /** The cell of this row in the given categorical column. */
    function CategoryOf(c: Category): Option<string>
    {
      match c
      case Genre => genre
      case BorrowerType => borrowerType
      case StudentBatch => studentBatch
      case StudentMajor => studentMajor
      case BorrowerAgeGroup => borrowerAgeGroup
    }
  }

  /** A table: which columns it has, and its rows in file order. */
  datatype Table = Table(columns: set<Column>, rows: seq<Row>)

  /** The order in which the categorical filters are applied (lib.py:48-54). */
  const FilterOrder: seq<Category> := [Genre, BorrowerType, StudentBatch, StudentMajor, BorrowerAgeGroup]

  /** The cells of one categorical column, row by row. */
  function CategoryColumn(rows: seq<Row>, c: Category): seq<Option<string>>
  {
    Map(rows, (r: Row) => r.CategoryOf(c))
  }

  /** The `book_title` column, row by row. */
  function TitleColumn(rows: seq<Row>): seq<Option<string>>
  {
    Map(rows, (r: Row) => r.bookTitle)
  }
}
