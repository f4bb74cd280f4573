/** The loan ledger: how open loans relate to book availability, how a loan
    is closed, and which loan a return matches. */
module Ledger {
  import opened Entities
  import opened Fines
  import opened Catalog

  /** `l` is an open loan of the book at position `b`. */
  predicate IsOpenOn(l: Loan, b: nat) {
    l.IsOpen() && l.book == b
  }

  /** The number of open loans of the book at position `b`. */
  function OpenCount(loans: seq<Loan>, b: nat): nat {
    if |loans| == 0 then 0
    else OpenCount(loans[..|loans| - 1], b) + (if IsOpenOn(loans[|loans| - 1], b) then 1 else 0)
  }

  /** A loan that refers into catalogues of the given sizes, was made no later
      than `today`, and, once closed, was closed between its loan day and
      `today` with the overdue fine charged; an open loan carries no fine. */
  predicate LoanWellFormed(l: Loan, bookCount: nat, memberCount: nat, today: int) {
    l.book < bookCount && l.member < memberCount && l.loanDay <= today &&
    match l.returnDay
    case None => l.fine == 0.0
    case Some(r) => l.loanDay <= r <= today && l.fine == OverdueFine(l.dueDay, r)
  }

  /** Every loan refers to an existing book and member. */
  predicate LinksInRange(loans: seq<Loan>, bookCount: nat, memberCount: nat) {
    forall k :: 0 <= k < |loans| ==> loans[k].book < bookCount && loans[k].member < memberCount
  }

  /** The state invariant kept by every in-memory operation: all loans are well
      formed, and a book is on loan (unavailable) exactly when it has one open
      loan, and has no open loan when it is available. */
  predicate Consistent(books: seq<Book>, members: seq<Member>, loans: seq<Loan>, today: int) {
    (forall k :: 0 <= k < |loans| ==> LoanWellFormed(loans[k], |books|, |members|, today)) &&
    (forall b :: 0 <= b < |books| ==> OpenCount(loans, b) == if books[b].available then 0 else 1)
  }

  /** Closes loan `l` on `day`: records the return day and, if the book is late,
      charges the overdue fine; a book returned on time keeps its recorded fine. */
  function Close(l: Loan, day: int): (c: Loan)
    ensures c.returnDay == Some(day) && !c.IsOpen()
    ensures c.book == l.book && c.member == l.member
    ensures c.loanDay == l.loanDay && c.dueDay == l.dueDay
    ensures day > l.dueDay ==> c.fine == OverdueFine(l.dueDay, day)
    ensures l.fine == 0.0 ==> c.fine == OverdueFine(l.dueDay, day)
  {
    l.(returnDay := Some(day),
       fine := if day > l.dueDay then (day - l.dueDay) as real * FinePerDay else l.fine)
  }

  /** `l` is an open loan whose book has the ISBN and whose member has the id. */
  predicate MatchesOpen(l: Loan, books: seq<Book>, members: seq<Member>, isbn: string, memberId: string) {
    l.book < |books| && l.member < |members| &&
    books[l.book].isbn == isbn && members[l.member].memberId == memberId && l.IsOpen()
  }

  /** The first open loan of a book with the ISBN to the member with the id. */
  function FirstOpenLoan(loans: seq<Loan>, books: seq<Book>, members: seq<Member>,
                         isbn: string, memberId: string): Option<nat>
  {
    FirstMatch(loans, (l: Loan) => MatchesOpen(l, books, members, isbn, memberId))
  }

  /** Appending a loan adds one to the count of its book exactly when it is open. */
  lemma OpenCountAppend(loans: seq<Loan>, l: Loan, b: nat)
    ensures OpenCount(loans + [l], b) == OpenCount(loans, b) + if IsOpenOn(l, b) then 1 else 0
  {
  }

  /** Replacing one loan changes a book's count by the difference of the two
      loans' contributions. */
  lemma {:induction false} OpenCountUpdate(loans: seq<Loan>, k: nat, l: Loan, b: nat)
    requires k < |loans|
    ensures OpenCount(loans[k := l], b) + (if IsOpenOn(loans[k], b) then 1 else 0)
         == OpenCount(loans, b) + (if IsOpenOn(l, b) then 1 else 0)
  {
    var n := |loans|;
    var updated := loans[k := l];
    if k < n - 1 {
      assert updated[..n - 1] == loans[..n - 1][k := l];
      OpenCountUpdate(loans[..n - 1], k, l, b);
    } else {
      assert updated[..n - 1] == loans[..n - 1];
    }
  }

  /** A book with no open loan in the ledger has count zero. */
  lemma {:induction false} OpenCountZero(loans: seq<Loan>, b: nat)
    requires forall k :: 0 <= k < |loans| ==> !IsOpenOn(loans[k], b)
    ensures OpenCount(loans, b) == 0
  {
    if |loans| > 0 {
      OpenCountZero(loans[..|loans| - 1], b);
    }
  }

  /** An open loan of a book makes its count positive, and two make it at least two. */
  lemma OpenCountAtLeastTwo(loans: seq<Loan>, i: nat, j: nat, b: nat)
    requires i < j < |loans|
    requires IsOpenOn(loans[i], b) && IsOpenOn(loans[j], b)
    ensures OpenCount(loans, b) >= 2
  {
    var closed := loans[i].(returnDay := Some(0));
    OpenCountUpdate(loans, i, closed, b);
    var rest := loans[i := closed];
    OpenCountUpdate(rest, j, rest[j].(returnDay := Some(0)), b);
  }

  /** In a consistent ledger a book is unavailable if and only if exactly one
      open loan refers to it. */
  lemma UnavailableIffOneOpenLoan(books: seq<Book>, members: seq<Member>, loans: seq<Loan>, today: int, b: nat)
    requires Consistent(books, members, loans, today)
    requires b < |books|
    ensures !books[b].available <==> OpenCount(loans, b) == 1
  {
  }

  /** In a consistent ledger no two open loans share a book. */
  lemma AtMostOneOpenLoanPerBook(books: seq<Book>, members: seq<Member>, loans: seq<Loan>, today: int,
                                 i: nat, j: nat)
    requires Consistent(books, members, loans, today)
    requires i < j < |loans| && loans[i].IsOpen() && loans[j].IsOpen()
    ensures loans[i].book != loans[j].book
  {
    if loans[i].book == loans[j].book {
      OpenCountAtLeastTwo(loans, i, j, loans[i].book);
    }
  }

  /** In a consistent ledger the book of an open loan is marked unavailable. */
  lemma OpenLoanBookUnavailable(books: seq<Book>, members: seq<Member>, loans: seq<Loan>, today: int, k: nat)
    requires Consistent(books, members, loans, today)
    requires k < |loans| && loans[k].IsOpen()
    ensures loans[k].book < |books| && !books[loans[k].book].available
  {
    OpenCountUpdate(loans, k, Close(loans[k], today), loans[k].book);
  }

  /** When exactly one open loan matches an ISBN and member id, closing it
      leaves no match, so a second return of the same book by the same member
      finds nothing. */
  lemma SecondReturnFindsNothing(loans: seq<Loan>, books: seq<Book>, members: seq<Member>,
                                 isbn: string, memberId: string, k: nat, day: int)
    requires k < |loans| && MatchesOpen(loans[k], books, members, isbn, memberId)
    requires forall j :: 0 <= j < |loans| && j != k ==> !MatchesOpen(loans[j], books, members, isbn, memberId)
    ensures FirstOpenLoan(loans, books, members, isbn, memberId) == Some(k)
    ensures FirstOpenLoan(loans[k := Close(loans[k], day)], books, members, isbn, memberId) == None
  {
  }
}
