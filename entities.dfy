/** The records of the circulation core: books, members and loans.
    A loan refers to its book and its member by their positions in the
    library's book and member sequences, which is how the program's shared
    object references are represented here. */
module Entities {

  datatype Option<+T> = None | Some(value: T)

  /** A catalogued copy of a book; `available` is false while it is on loan. */
  datatype Book = Book(title: string, author: string, isbn: string, available: bool)

  /** A registered library member. */
  datatype Member = Member(name: string, memberId: string)

  /** A loan of the book at position `book` to the member at position `member`.
      `returnDay` is `None` while the loan is open; `fine` is in currency units. */
  datatype Loan = Loan(book: nat, member: nat, loanDay: int, dueDay: int,
                       returnDay: Option<int>, fine: real)
  {
    /** The status shown for a loan: open ("active") until a return day is recorded. */
    predicate IsOpen() { returnDay.None? }
  }
}
