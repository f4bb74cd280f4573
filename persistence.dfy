/** The in-memory part of saving and loading: loans are flattened to the
    ISBN of their book and the id of their member, and re-linked on load by
    first-match lookup in the freshly loaded catalogue. */
module Persistence {
  import opened Entities
  import opened Catalog
  import opened Ledger

  /** A loan as stored: its book and member replaced by their keys. */
  datatype SavedLoan = SavedLoan(isbn: string, memberId: string, loanDay: int, dueDay: int,
                                 returnDay: Option<int>, fine: real)

  /** The stored record; `day` is `None` when the stored record has no day. */
  datatype SavedData = SavedData(books: seq<Book>, members: seq<Member>, loans: seq<SavedLoan>,
                                 day: Option<int>)

  /** The records written for `loans`, one per loan, in ledger order. */
  function FlattenLoans(loans: seq<Loan>, books: seq<Book>, members: seq<Member>): (saved: seq<SavedLoan>)
    requires LinksInRange(loans, |books|, |members|)
    ensures |saved| == |loans|
    ensures forall k :: 0 <= k < |loans| ==>
      saved[k].isbn == books[loans[k].book].isbn &&
      saved[k].memberId == members[loans[k].member].memberId &&
      saved[k].loanDay == loans[k].loanDay && saved[k].dueDay == loans[k].dueDay &&
      saved[k].returnDay == loans[k].returnDay && saved[k].fine == loans[k].fine
  {
    if |loans| == 0 then []
    else
      var l := loans[|loans| - 1];
      FlattenLoans(loans[..|loans| - 1], books, members) +
        [SavedLoan(books[l.book].isbn, members[l.member].memberId, l.loanDay, l.dueDay, l.returnDay, l.fine)]
  }

  /** The loan rebuilt from a stored record: linked to the first book with its
      ISBN and the first member with its id, or `None` when either is missing. */
  function RelinkLoan(s: SavedLoan, books: seq<Book>, members: seq<Member>): Option<Loan> {
    var b := FirstWithIsbn(books, s.isbn);
    var m := FirstWithId(members, s.memberId);
    if b.Some? && m.Some? then Some(Loan(b.value, m.value, s.loanDay, s.dueDay, s.returnDay, s.fine))
    else None
  }

  /** A stored loan whose book and member both exist in the loaded catalogue. */
  predicate Resolves(s: SavedLoan, books: seq<Book>, members: seq<Member>) {
    (exists b :: 0 <= b < |books| && books[b].isbn == s.isbn) &&
    (exists m :: 0 <= m < |members| && members[m].memberId == s.memberId)
  }

  /** A stored loan is rebuilt exactly when its ISBN and its member id both occur. */
  lemma RelinkLoanResolves(s: SavedLoan, books: seq<Book>, members: seq<Member>)
    ensures RelinkLoan(s, books, members).Some? <==> Resolves(s, books, members)
  {
    var b := FirstWithIsbn(books, s.isbn);
    var m := FirstWithId(members, s.memberId);
    if b.Some? { assert books[b.value].isbn == s.isbn; }
    if m.Some? { assert members[m.value].memberId == s.memberId; }
  }

  /** A stored loan is rebuilt exactly when its ISBN and id both occur, and then
      it is linked to the first book with the ISBN and the first member with the
      id, keeping its days and fine. */
  lemma RelinkLoanFirstMatch(s: SavedLoan, books: seq<Book>, members: seq<Member>)
    ensures RelinkLoan(s, books, members).Some? <==> Resolves(s, books, members)
    ensures match RelinkLoan(s, books, members)
      case None => true
      case Some(l) =>
        l.book < |books| && books[l.book].isbn == s.isbn &&
        (forall j :: 0 <= j < l.book ==> books[j].isbn != s.isbn) &&
        l.member < |members| && members[l.member].memberId == s.memberId &&
        (forall j :: 0 <= j < l.member ==> members[j].memberId != s.memberId) &&
        l.loanDay == s.loanDay && l.dueDay == s.dueDay && l.returnDay == s.returnDay && l.fine == s.fine
  {
    RelinkLoanResolves(s, books, members);
  }

  /** The ledger rebuilt from the stored loans, in order, silently dropping
      those that do not resolve. Every rebuilt loan links into the catalogue. */
  function RelinkLoans(saved: seq<SavedLoan>, books: seq<Book>, members: seq<Member>): (loans: seq<Loan>)
    ensures |loans| <= |saved|
    ensures LinksInRange(loans, |books|, |members|)
  {
    if |saved| == 0 then []
    else
      var prefix := RelinkLoans(saved[..|saved| - 1], books, members);
      match RelinkLoan(saved[|saved| - 1], books, members)
      case Some(l) => prefix + [l]
      case None => prefix
  }

  /** Nothing is dropped on load exactly when every stored loan's ISBN and
      member id occur in the loaded catalogue. */
  lemma {:induction false} RelinkLoansKeepsAll(saved: seq<SavedLoan>, books: seq<Book>, members: seq<Member>)
    ensures |RelinkLoans(saved, books, members)| == |saved| <==>
            forall k :: 0 <= k < |saved| ==> Resolves(saved[k], books, members)
  {
    if |saved| > 0 {
      var n := |saved|;
      var prefix := saved[..n - 1];
      RelinkLoansKeepsAll(prefix, books, members);
      RelinkLoanResolves(saved[n - 1], books, members);
      assert |RelinkLoans(saved, books, members)| ==
             |RelinkLoans(prefix, books, members)| + if RelinkLoan(saved[n - 1], books, members).Some? then 1 else 0;
      assert (forall k :: 0 <= k < n ==> Resolves(saved[k], books, members)) <==>
             (forall k :: 0 <= k < n - 1 ==> Resolves(prefix[k], books, members)) && Resolves(saved[n - 1], books, members)
      by {
        assert forall k :: 0 <= k < n - 1 ==> prefix[k] == saved[k];
      }
    }
  }

  /** The day to resume from: the stored day, or 1 when none is stored. */
  function DayOrDefault(day: Option<int>): int {
    match day
    case Some(d) => d
    case None => 1
  }

  /** Re-linking one more stored loan appends its rebuilt loan, or nothing
      when it does not resolve. */
  lemma RelinkLoansStep(saved: seq<SavedLoan>, i: nat, books: seq<Book>, members: seq<Member>)
    requires i < |saved|
    ensures RelinkLoans(saved[..i + 1], books, members) ==
            RelinkLoans(saved[..i], books, members) +
            match RelinkLoan(saved[i], books, members) case Some(l) => [l] case None => []
  {
    assert saved[..i + 1][..i] == saved[..i];
  }

  /** A single stored loan is re-linked on its own: kept, as `RelinkLoan`
      rebuilds it, when it resolves, and dropped otherwise. */
  lemma RelinkLoansSingle(s: SavedLoan, books: seq<Book>, members: seq<Member>)
    ensures RelinkLoans([s], books, members) ==
            match RelinkLoan(s, books, members) case Some(l) => [l] case None => []
  {
    assert [s][..0] == [];
  }

  /** Re-linking works loan by loan: the stored loans are processed in order,
      and the result for a concatenation is the concatenation of the results. */
  lemma {:induction false} RelinkLoansConcat(a: seq<SavedLoan>, b: seq<SavedLoan>, books: seq<Book>, members: seq<Member>)
    ensures RelinkLoans(a + b, books, members) == RelinkLoans(a, books, members) + RelinkLoans(b, books, members)
  {
    if |b| > 0 {
      var n := |b|;
      assert (a + b)[..|a + b| - 1] == a + b[..n - 1];
      assert (a + b)[|a + b| - 1] == b[n - 1];
      RelinkLoansConcat(a, b[..n - 1], books, members);
    } else {
      assert a + b == a;
    }
  }

  /** Each loan points at the first book with its ISBN and the first member
      with its id; this is what re-linking can reproduce. */
  predicate LinksAreFirstMatches(loans: seq<Loan>, books: seq<Book>, members: seq<Member>)
    requires LinksInRange(loans, |books|, |members|)
  {
    forall k :: 0 <= k < |loans| ==>
      FirstWithIsbn(books, books[loans[k].book].isbn) == Some(loans[k].book) &&
      FirstWithId(members, members[loans[k].member].memberId) == Some(loans[k].member)
  }

  /** A loan that points at first matches is rebuilt exactly from its own record. */
  lemma RelinkFlattenedLoan(l: Loan, books: seq<Book>, members: seq<Member>)
    requires l.book < |books| && l.member < |members|
    requires FirstWithIsbn(books, books[l.book].isbn) == Some(l.book)
    requires FirstWithId(members, members[l.member].memberId) == Some(l.member)
    ensures RelinkLoan(SavedLoan(books[l.book].isbn, members[l.member].memberId,
                                 l.loanDay, l.dueDay, l.returnDay, l.fine), books, members) == Some(l)
  {
  }

  /** Links that are first matches stay first matches in every prefix of the ledger. */
  lemma FirstMatchesPrefix(loans: seq<Loan>, books: seq<Book>, members: seq<Member>, n: nat)
    requires LinksInRange(loans, |books|, |members|) && n <= |loans|
    requires LinksAreFirstMatches(loans, books, members)
    ensures LinksInRange(loans[..n], |books|, |members|)
    ensures LinksAreFirstMatches(loans[..n], books, members)
  {
    forall k | 0 <= k < n
      ensures FirstWithIsbn(books, books[loans[..n][k].book].isbn) == Some(loans[..n][k].book)
      ensures FirstWithId(members, members[loans[..n][k].member].memberId) == Some(loans[..n][k].member)
    {
      assert loans[..n][k] == loans[k];
    }
  }

  /** Re-linking the flattened ledger gives back the same ledger when every
      loan points at the first book with its ISBN and the first member with its id. */
  lemma {:induction false} RelinkFlattenRoundTrip(loans: seq<Loan>, books: seq<Book>, members: seq<Member>)
    requires LinksInRange(loans, |books|, |members|)
    requires LinksAreFirstMatches(loans, books, members)
    ensures RelinkLoans(FlattenLoans(loans, books, members), books, members) == loans
  {
    if |loans| > 0 {
      var n := |loans|;
      var prefix := loans[..n - 1];
      var l := loans[n - 1];
      var last := SavedLoan(books[l.book].isbn, members[l.member].memberId, l.loanDay, l.dueDay, l.returnDay, l.fine);
      FirstMatchesPrefix(loans, books, members, n - 1);
      assert FlattenLoans(loans, books, members) == FlattenLoans(prefix, books, members) + [last];
      RelinkLoansConcat(FlattenLoans(prefix, books, members), [last], books, members);
      RelinkLoansSingle(last, books, members);
      RelinkFlattenRoundTrip(prefix, books, members);
      RelinkFlattenedLoan(l, books, members);
      assert loans == prefix + [l];
    }
  }

  /** With pairwise distinct ISBNs and member ids, re-linking the flattened
      ledger against the same catalogue reproduces the ledger exactly (the
      catalogue and the day are stored as they are). */
  lemma SaveLoadRoundTrip(books: seq<Book>, members: seq<Member>, loans: seq<Loan>, today: int)
    requires LinksInRange(loans, |books|, |members|)
    requires forall i, j :: 0 <= i < j < |books| ==> books[i].isbn != books[j].isbn
    requires forall i, j :: 0 <= i < j < |members| ==> members[i].memberId != members[j].memberId
    ensures RelinkLoans(FlattenLoans(loans, books, members), books, members) == loans
  {
    forall k | 0 <= k < |loans|
      ensures FirstWithIsbn(books, books[loans[k].book].isbn) == Some(loans[k].book)
      ensures FirstWithId(members, members[loans[k].member].memberId) == Some(loans[k].member)
    {
      LookupOwnIsbn(books, loans[k].book);
      LookupOwnId(members, loans[k].member);
    }
    RelinkFlattenRoundTrip(loans, books, members);
  }

  /** Two copies sharing an ISBN, both lent to the same member on day 1. */
  const DuplicateBooks: seq<Book> := [Book("T", "A", "X", false), Book("T", "A", "X", false)]
  const DuplicateMembers: seq<Member> := [Member("N", "M1")]
  const DuplicateLoans: seq<Loan> := [Loan(0, 0, 1, 8, None, 0.0), Loan(1, 0, 1, 8, None, 0.0)]

  /** Before saving, the two-copy state is consistent: each copy has its own open loan. */
  lemma DuplicateStateConsistent()
    ensures Consistent(DuplicateBooks, DuplicateMembers, DuplicateLoans, 1)
  {
    var loans := DuplicateLoans;
    assert loans[..1] == [loans[0]];
    assert OpenCount(loans[..1], 0) == OpenCount([], 0) + 1 == 1;
    assert OpenCount(loans[..1], 1) == OpenCount([], 1) + 0 == 0;
    assert OpenCount(loans, 0) == OpenCount(loans[..1], 0) + 0;
    assert OpenCount(loans, 1) == OpenCount(loans[..1], 1) + 1;
  }

  /** Two identical stored records are re-linked to the same loan twice. */
  lemma RelinkSameRecordTwice(s: SavedLoan, books: seq<Book>, members: seq<Member>, l: Loan)
    requires RelinkLoan(s, books, members) == Some(l)
    ensures RelinkLoans([s, s], books, members) == [l, l]
  {
    var saved := [s, s];
    RelinkLoansStep(saved, 0, books, members);
    RelinkLoansStep(saved, 1, books, members);
    assert saved[..0] == [] && saved[..2] == saved;
  }

  /** The record saved for the two-copy state: twice the same ISBN and member id. */
  lemma DuplicateStateSaved()
    ensures FlattenLoans(DuplicateLoans, DuplicateBooks, DuplicateMembers)
         == [SavedLoan("X", "M1", 1, 8, None, 0.0), SavedLoan("X", "M1", 1, 8, None, 0.0)]
  {
    var saved := FlattenLoans(DuplicateLoans, DuplicateBooks, DuplicateMembers);
    assert saved[0] == SavedLoan("X", "M1", 1, 8, None, 0.0);
    assert saved[1] == SavedLoan("X", "M1", 1, 8, None, 0.0);
  }

  /** That record resolves to the first copy, whichever copy it was saved from. */
  lemma DuplicateRecordRelinksToFirstCopy()
    ensures RelinkLoan(SavedLoan("X", "M1", 1, 8, None, 0.0), DuplicateBooks, DuplicateMembers)
         == Some(Loan(0, 0, 1, 8, None, 0.0))
  {
    assert DuplicateBooks[0].isbn == "X";
    assert FirstWithIsbn(DuplicateBooks, "X") == Some(0);
    assert FirstWithId(DuplicateMembers, "M1") == Some(0);
  }

  /** Saving then re-linking the two-copy state links both loans to the first copy. */
  lemma DuplicateStateRelinksToFirstCopy()
    ensures RelinkLoans(FlattenLoans(DuplicateLoans, DuplicateBooks, DuplicateMembers),
                        DuplicateBooks, DuplicateMembers)
         == [Loan(0, 0, 1, 8, None, 0.0), Loan(0, 0, 1, 8, None, 0.0)]
  {
    DuplicateStateSaved();
    DuplicateRecordRelinksToFirstCopy();
    RelinkSameRecordTwice(SavedLoan("X", "M1", 1, 8, None, 0.0), DuplicateBooks, DuplicateMembers,
                          Loan(0, 0, 1, 8, None, 0.0));
  }

  /** Two copies sharing an ISBN, both on loan: after saving and re-linking,
      both loans point at the first copy, so the reloaded state is no longer
      consistent (the first copy has two open loans, the second none). */
  lemma DuplicateIsbnBreaksReload()
    ensures var reloaded := RelinkLoans(FlattenLoans(DuplicateLoans, DuplicateBooks, DuplicateMembers),
                                        DuplicateBooks, DuplicateMembers);
            Consistent(DuplicateBooks, DuplicateMembers, DuplicateLoans, 1) &&
            !Consistent(DuplicateBooks, DuplicateMembers, reloaded, 1)
  {
    DuplicateStateConsistent();
    DuplicateStateRelinksToFirstCopy();
    var reloaded := [Loan(0, 0, 1, 8, None, 0.0), Loan(0, 0, 1, 8, None, 0.0)];
    OpenCountAtLeastTwo(reloaded, 0, 1, 0);
  }
}
