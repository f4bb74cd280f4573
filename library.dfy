/** The library store: its books, members and loans, and the simulated day,
    updated in place by the catalogue, loan, clock and load operations. */
module Circulation {
  import opened Entities
  import opened Fines
  import opened Catalog
  import opened Ledger
  import opened Persistence

  /** Which branch a borrow request took. */
  datatype BorrowOutcome = Borrowed | BookNotAvailable | MemberNotFound

  /** Which branch a return request took; `Returned` names the closed loan. */
  datatype ReturnOutcome = Returned(loan: nat) | LoanNotFound

  class Library {
    var books: seq<Book>
    var members: seq<Member>
    var loans: seq<Loan>
    var today: int

    /** Every loan refers to an existing book and member: what holding object
        references guarantees, and what loading re-establishes. */
    ghost predicate Valid()
      reads this
    {
      LinksInRange(loans, |books|, |members|)
    }

    /** The ledger invariant of `Ledger.Consistent`, which a fresh library has and
        every in-memory operation keeps, but a loaded library need not have. */
    ghost predicate Consistent()
      reads this
    {
      Ledger.Consistent(books, members, loans, today)
    }

    /** A fresh library: empty catalogue and ledger, day 1. */
    constructor ()
      ensures Valid() && Consistent()
      ensures books == [] && members == [] && loans == [] && today == 1
    {
      books, members, loans := [], [], [];
      today := 1;
    }

    /** Catalogues a new, available copy at the end; duplicates are accepted. */
    method AddBook(title: string, author: string, isbn: string)
      requires Valid()
      modifies this
      ensures Valid()
      ensures old(Consistent()) ==> Consistent()
      ensures books == old(books) + [Book(title, author, isbn, true)]
      ensures members == old(members) && loans == old(loans) && today == old(today)
    {
      OpenCountZero(loans, |books|);
      books := books + [Book(title, author, isbn, true)];
    }

    /** Registers a new member at the end; duplicates are accepted. */
    method AddMember(name: string, memberId: string)
      requires Valid()
      modifies this
      ensures Valid()
      ensures old(Consistent()) ==> Consistent()
      ensures members == old(members) + [Member(name, memberId)]
      ensures books == old(books) && loans == old(loans) && today == old(today)
    {
      members := members + [Member(name, memberId)];
    }

    /** Scans the books for the first available copy with the ISBN. */
    method FindAvailableBook(isbn: string) returns (found: Option<nat>)
      ensures found == FirstAvailableWithIsbn(books, isbn)
    {
      found := None;
      var i := 0;
      while i < |books|
        invariant 0 <= i <= |books|
        invariant forall j :: 0 <= j < i ==> !(books[j].isbn == isbn && books[j].available)
      {
        if books[i].isbn == isbn && books[i].available {
          found := Some(i);
          break;
        }
        i := i + 1;
      }
    }

    /** Scans the members for the first one with the id. */
    method FindMember(memberId: string) returns (found: Option<nat>)
      ensures found == FirstWithId(members, memberId)
    {
      found := None;
      var i := 0;
      while i < |members|
        invariant 0 <= i <= |members|
        invariant forall j :: 0 <= j < i ==> members[j].memberId != memberId
      {
        if members[i].memberId == memberId {
          found := Some(i);
          break;
        }
        i := i + 1;
      }
    }

    /** Lends the first available copy with the ISBN to the first member with
        the id for `term` days; when either is missing nothing changes. */
    method Borrow(isbn: string, memberId: string, term: int) returns (outcome: BorrowOutcome)
      requires Valid()
      modifies this
      ensures Valid()
      ensures old(Consistent()) ==> Consistent()
      ensures var b := FirstAvailableWithIsbn(old(books), isbn);
              var m := FirstWithId(old(members), memberId);
              if b.Some? && m.Some? then
                outcome == Borrowed &&
                books == old(books)[b.value := old(books)[b.value].(available := false)] &&
                loans == old(loans) + [Loan(b.value, m.value, old(today), old(today) + term, None, 0.0)]
              else
                outcome == (if b.None? then BookNotAvailable else MemberNotFound) &&
                books == old(books) && loans == old(loans)
      ensures members == old(members) && today == old(today)
    {
      var b := FindAvailableBook(isbn);
      var m := FindMember(memberId);
      if b.Some? && m.Some? {
        var loan := Loan(b.value, m.value, today, today + term, None, 0.0);
        forall c | 0 <= c < |books|
          ensures OpenCount(loans + [loan], c) == OpenCount(loans, c) + if c == b.value then 1 else 0
        {
          OpenCountAppend(loans, loan, c);
        }
        books := books[b.value := books[b.value].(available := false)];
        loans := loans + [loan];
        outcome := Borrowed;
      } else if b.None? {
        outcome := BookNotAvailable;
      } else {
        outcome := MemberNotFound;
      }
    }

    /** Scans the ledger for the first open loan of a book with the ISBN to the
        member with the id. */
    method FindOpenLoan(isbn: string, memberId: string) returns (found: Option<nat>)
      ensures found == FirstOpenLoan(loans, books, members, isbn, memberId)
    {
      found := None;
      var i := 0;
      while i < |loans|
        invariant 0 <= i <= |loans|
        invariant forall j :: 0 <= j < i ==> !MatchesOpen(loans[j], books, members, isbn, memberId)
      {
        var l := loans[i];
        if l.book < |books| && l.member < |members| &&
           books[l.book].isbn == isbn && members[l.member].memberId == memberId && l.returnDay.None? {
          found := Some(i);
          break;
        }
        i := i + 1;
      }
    }

    /** Closes the first open loan of a book with the ISBN to the member with
        the id: the loan gets today's date and any overdue fine, and its book
        becomes available again; when there is no such loan nothing changes. */
    method Return(isbn: string, memberId: string) returns (outcome: ReturnOutcome)
      requires Valid()
      modifies this
      ensures Valid()
      ensures old(Consistent()) ==> Consistent()
      ensures match FirstOpenLoan(old(loans), old(books), old(members), isbn, memberId)
              case None =>
                outcome == LoanNotFound && books == old(books) && loans == old(loans)
              case Some(k) =>
                var b := old(loans)[k].book;
                outcome == Returned(k) && b < |old(books)| &&
                loans == old(loans)[k := Close(old(loans)[k], old(today))] &&
                books == old(books)[b := old(books)[b].(available := true)] &&
                (old(Consistent()) ==> !old(books)[b].available &&
                                       loans[k].fine == OverdueFine(loans[k].dueDay, old(today)))
      ensures members == old(members) && today == old(today)
    {
      var k := FindOpenLoan(isbn, memberId);
      match k {
        case None =>
          outcome := LoanNotFound;
        case Some(i) =>
          var loan := loans[i];
          var closed := Close(loan, today);
          if Consistent() {
            OpenLoanBookUnavailable(books, members, loans, today, i);
            forall c | 0 <= c < |books|
              ensures OpenCount(loans[i := closed], c) + (if c == loan.book then 1 else 0) == OpenCount(loans, c)
            {
              OpenCountUpdate(loans, i, closed, c);
            }
          }
          books := books[loan.book := books[loan.book].(available := true)];
          loans := loans[i := closed];
          outcome := Returned(i);
      }
    }

    /** Moves the simulated day forward by `n` days when `n` is positive; the
        one-day and one-week menu options are `n` = 1 and `n` = 7. */
    method AdvanceDays(n: int) returns (advanced: bool)
      requires Valid()
      modifies this
      ensures Valid()
      ensures old(Consistent()) ==> Consistent()
      ensures advanced == (n > 0)
      ensures today == old(today) + (if n > 0 then n else 0) && today >= old(today)
      ensures books == old(books) && members == old(members) && loans == old(loans)
    {
      advanced := n > 0;
      if advanced {
        today := today + n;
      }
    }

    /** Builds the stored record: the catalogue as it is, each loan reduced to
        its book's ISBN and its member's id, and the current day. */
    method Save() returns (data: SavedData)
      requires Valid()
      ensures data.books == books && data.members == members && data.day == Some(today)
      ensures data.loans == FlattenLoans(loans, books, members)
    {
      var saved: seq<SavedLoan> := [];
      var i := 0;
      while i < |loans|
        invariant 0 <= i <= |loans|
        invariant saved == FlattenLoans(loans[..i], books, members)
      {
        var l := loans[i];
        saved := saved + [SavedLoan(books[l.book].isbn, members[l.member].memberId,
                                    l.loanDay, l.dueDay, l.returnDay, l.fine)];
        assert loans[..i + 1][..i] == loans[..i];
        i := i + 1;
      }
      assert loans[..i] == loans;
      data := SavedData(books, members, saved, Some(today));
    }

    /** Replaces the state by a stored record: catalogue as stored, day as
        stored or 1, and each stored loan re-linked by first-match lookup,
        dropping those whose book or member is missing. */
    method Load(data: SavedData)
      modifies this
      ensures Valid()
      ensures books == data.books && members == data.members
      ensures today == DayOrDefault(data.day)
      ensures loans == RelinkLoans(data.loans, data.books, data.members)
    {
      books := data.books;
      members := data.members;
      today := DayOrDefault(data.day);
      loans := [];
      var i := 0;
      while i < |data.loans|
        invariant 0 <= i <= |data.loans|
        invariant books == data.books && members == data.members && today == DayOrDefault(data.day)
        invariant loans == RelinkLoans(data.loans[..i], books, members)
      {
        var s := data.loans[i];
        var b := FirstWithIsbn(books, s.isbn);
        var m := FirstWithId(members, s.memberId);
        if b.Some? && m.Some? {
          loans := loans + [Loan(b.value, m.value, s.loanDay, s.dueDay, s.returnDay, s.fine)];
        }
        RelinkLoansStep(data.loans, i, books, members);
        i := i + 1;
      }
      assert data.loans[..i] == data.loans;
    }

    /** A missing stored record empties the catalogue and the ledger and keeps the day. */
    method LoadMissingFile()
      modifies this
      ensures Valid() && Consistent()
      ensures books == [] && members == [] && loans == [] && today == old(today)
    {
      books, members, loans := [], [], [];
    }

    /** Saving and then loading a library whose ISBNs and member ids are
        distinct leaves its state, and so its invariant, exactly as it was. */
    method SaveThenLoad()
      requires Valid()
      requires forall i, j :: 0 <= i < j < |books| ==> books[i].isbn != books[j].isbn
      requires forall i, j :: 0 <= i < j < |members| ==> members[i].memberId != members[j].memberId
      modifies this
      ensures Valid()
      ensures old(Consistent()) ==> Consistent()
      ensures books == old(books) && members == old(members) && loans == old(loans) && today == old(today)
    {
      var data := Save();
      SaveLoadRoundTrip(books, members, loans, today);
      Load(data);
    }

    /** Two returns of the same book by the same member, with one open loan
        between them: the first closes it and frees its book, the second finds
        nothing and changes nothing. */
    method ReturnTwice(isbn: string, memberId: string) returns (first: ReturnOutcome, second: ReturnOutcome)
      requires Valid()
      requires exists k :: 0 <= k < |loans| && MatchesOpen(loans[k], books, members, isbn, memberId) &&
                 forall j :: 0 <= j < |loans| && j != k ==> !MatchesOpen(loans[j], books, members, isbn, memberId)
      modifies this
      ensures Valid()
      ensures first.Returned? && second == LoanNotFound
      ensures match first
              case Returned(k) =>
                k < |old(loans)| && old(loans)[k].book < |old(books)| &&
                loans == old(loans)[k := Close(old(loans)[k], old(today))] &&
                books == old(books)[old(loans)[k].book := old(books)[old(loans)[k].book].(available := true)]
              case LoanNotFound => false
      ensures members == old(members) && today == old(today)
    {
      var k :| 0 <= k < |loans| && MatchesOpen(loans[k], books, members, isbn, memberId) &&
                forall j :: 0 <= j < |loans| && j != k ==> !MatchesOpen(loans[j], books, members, isbn, memberId);
      SecondReturnFindsNothing(loans, books, members, isbn, memberId, k, today);
      first := Return(isbn, memberId);
      second := Return(isbn, memberId);
    }
  }

  /** Book A1 and member M1 are added on day 1, the book is lent for 7 days
      (due on day 8), the clock moves 10 days to day 11 and the book comes back:
      the fine is (11 - 8) * 0.5 = 1.5 and the book is available again. */
  method LateReturnScenario() returns (fine: real, available: bool)
    ensures fine == 1.5 && available
  {
    var lib := new Library();
    lib.AddBook("T", "A", "A1");
    lib.AddMember("N", "M1");
    var borrowed := lib.Borrow("A1", "M1", 7);
    assert FirstAvailableWithIsbn(lib.books[0 := lib.books[0].(available := false)], "A1") == None;
    var moved := lib.AdvanceDays(10);
    assert lib.today == 11;
    var returned := lib.Return("A1", "M1");
    assert returned == Returned(0);
    fine := lib.loans[0].fine;
    available := lib.books[0].available;
  }
}
