# Library circulation core, modelled in Dafny

A model of the circulation core of a small library tracker (`bi.py`). The
library (`Biblioteca`) keeps three lists, the books (`Livro`), the members
(`Usuario`) and the loans (`Emprestimo`), and a simulated day counter that
starts at 1. A loan is made by lending the first available copy with a given
ISBN to the first member with a given id. It is closed by a return that
matches the first open loan for that ISBN and member, stamps it with the
current day, frees the book and charges 0.5 per day of delay. Saving reduces
each loan to its book's ISBN and its member's id. Loading links each stored
loan again to the first book and the first member with those keys, and drops
the loan when either is missing.

Layout:

- `entities.dfy` (`Entities`): the three records. A loan refers to its book
  and member by position in the library's sequences. This replaces the shared
  object references of the program, so freeing the book "through the loan"
  is an indexed update of the book sequence.
- `fines.dfy` (`Fines`): the overdue fine. It is exact (`real`), not a
  binary float.
- `catalog.dfy` (`Catalog`): first-match lookup, characterised once
  (`FirstMatch`) and used for books by ISBN, available books by ISBN and
  members by id.
- `ledger.dfy` (`Ledger`): the ledger invariant `Consistent`, the count of
  open loans per book, closing a loan, and the lemmas about them.
  - `Consistent` says that every loan links into the catalogue.
  - It says that every loan was made no later than today.
  - It says that a closed loan was closed between its loan day and today,
    with the overdue fine.
  - It says that an open loan has no fine.
  - It says that each book has exactly one open loan when it is unavailable
    and none when it is available.
- `persistence.dfy` (`Persistence`): the stored record, flattening loans to
  keys, re-linking them on load one record at a time, and the save/load round
  trip.
- `library.dfy` (`Circulation`): the `Library` class. The add, borrow,
  return, clock and load operations update its fields in place. Saving reads
  them and builds the stored record without changing anything.
  - `Valid()` is the structural invariant: every loan refers to an existing
    book and member. Every method keeps it, and loading establishes it.
  - `Consistent()` is `Ledger.Consistent`. A fresh library has it, and each
    in-memory operation keeps it when it held before. A loaded library need
    not have it.
  - Each state-changing method states its whole new state in terms of the
    old one.

In these places the model follows the code as written:

- When a return is on time, the code leaves the loan's recorded fine as it
  is. It does not set the fine to `max(0, late) * 0.5`. `Ledger.Close` does
  the same. The invariant (an open loan has fine 0) is what makes every
  closed loan's fine equal to `OverdueFine`.
- The loan term is not checked. Any integer is accepted, so the due day may
  fall before the loan day.
- Duplicate ISBNs and member ids are accepted. Re-linking on load then picks
  the first copy. `Persistence.DuplicateIsbnBreaksReload` shows the effect
  with two copies that share an ISBN and are both on loan: after a save and a
  load, both loans point at the first copy, and the reloaded state breaks the
  availability invariant. The round trip is exact when keys are distinct
  (`Persistence.SaveLoadRoundTrip`).

## Model

| member | source | states |
|---|---|---|
| `Fines.OverdueFine` | bi.py:115-121 | the fine is never negative, and it is positive exactly when the book comes back strictly after its due day |
| `Fines.FineBoundary` | bi.py:115-121 | returning on the due day (or earlier) costs 0; one day late costs 0.5; three days late costs 1.5 |
| `Fines.FineGrowsByRate` | bi.py:116-118 | from the due day on, each further day of delay adds exactly 0.5 |
| `Fines.FineMonotone` | bi.py:115-118 | a later return never costs less |
| `Fines.FineIsDaysLateTimesRate` | bi.py:116-118 | returning `late` days after the due day costs `late * 0.5` |
| `Catalog.FirstMatch` | bi.py:74-78 | the result is the position of an element satisfying the condition with none before it, or none when no element satisfies it |
| `Catalog.LookupOwnIsbn` | bi.py:172 | with distinct ISBNs, looking a book up by its own ISBN finds that book |
| `Catalog.LookupOwnId` | bi.py:173 | with distinct ids, looking a member up by their own id finds that member |
| `Ledger.Close` | bi.py:111-121 | closing stamps the return day and keeps book, member, loan day and due day; a late return charges `OverdueFine`; a loan that carried no fine ends with exactly `OverdueFine` |
| `Ledger.OpenCountAppend` | bi.py:95 | appending a loan raises its book's open count by one exactly when the loan is open |
| `Ledger.OpenCountUpdate` | bi.py:113 | replacing one loan changes a book's open count by the difference of the two loans' contributions |
| `Ledger.OpenCountZero` | bi.py:38-41 | a book that no open loan refers to has open count 0; this is how `AddBook` keeps consistency when it appends a book at a new position |
| `Ledger.OpenCountAtLeastTwo` | bi.py:172 | two open loans of the same book give it an open count of at least 2; this is how `DuplicateIsbnBreaksReload` shows the reloaded ledger inconsistent |
| `Ledger.UnavailableIffOneOpenLoan` | bi.py:87-113 | in a consistent state, a book is unavailable if and only if exactly one open loan refers to it |
| `Ledger.AtMostOneOpenLoanPerBook` | bi.py:73-95 | in a consistent state, no two open loans refer to the same book |
| `Ledger.OpenLoanBookUnavailable` | bi.py:111-112 | in a consistent state, the book of an open loan is marked unavailable |
| `Ledger.SecondReturnFindsNothing` | bi.py:105-113 | when exactly one open loan matches an ISBN and member, the return finds it, and after it is closed a second lookup finds nothing |
| `Persistence.FlattenLoans` | bi.py:146-151 | one stored record per loan, in order, holding the book's ISBN, the member's id, and the loan's days and fine |
| `Persistence.RelinkLoans` | bi.py:170-178 | the rebuilt ledger never has more loans than there are stored records, and every rebuilt loan links into the loaded catalogue |
| `Persistence.RelinkLoanResolves` | bi.py:172-175 | a stored loan is rebuilt exactly when a book with its ISBN and a member with its id both exist |
| `Persistence.RelinkLoanFirstMatch` | bi.py:172-178 | a rebuilt loan points at the first book with the stored ISBN and the first member with the stored id, and keeps the stored loan day, due day, return day and fine |
| `Persistence.RelinkLoansKeepsAll` | bi.py:171-178 | no stored loan is dropped exactly when every stored loan's ISBN and member id exist in the loaded catalogue |
| `Persistence.RelinkLoansStep` | bi.py:171-178 | handling one more stored record appends its rebuilt loan, or nothing when it does not resolve |
| `Persistence.RelinkLoansSingle` | bi.py:172-178 | a single stored record gives its rebuilt loan when it resolves and nothing otherwise |
| `Persistence.RelinkLoansConcat` | bi.py:171-178 | records are handled independently and in order: re-linking a concatenation gives the concatenation of the results |
| `Persistence.RelinkFlattenedLoan` | bi.py:146-178 | a loan whose book and member are the first with their keys is rebuilt exactly from its own stored record |
| `Persistence.FirstMatchesPrefix` | bi.py:146-178 | if every loan of the ledger points at first matches, so does every loan of each prefix; the induction step of `RelinkFlattenRoundTrip` |
| `Persistence.RelinkFlattenRoundTrip` | bi.py:146-178 | re-linking the saved loans gives back the ledger when each loan points at the first book with its ISBN and the first member with its id |
| `Persistence.SaveLoadRoundTrip` | bi.py:146-178 | with distinct ISBNs and member ids, re-linking the saved loans against the same catalogue gives back the ledger |
| `Persistence.DuplicateStateConsistent` | bi.py:87-95 | two copies sharing an ISBN, each lent once, form a consistent state |
| `Persistence.DuplicateStateSaved` | bi.py:146-151 | saving that state writes the same ISBN and member id twice |
| `Persistence.DuplicateRecordRelinksToFirstCopy` | bi.py:172 | that stored record is re-linked to the first copy |
| `Persistence.RelinkSameRecordTwice` | bi.py:171-178 | two identical stored records are re-linked to the same loan twice; the step of `DuplicateStateRelinksToFirstCopy` |
| `Persistence.DuplicateStateRelinksToFirstCopy` | bi.py:146-178 | after save and load, both loans of the two-copy state point at the first copy |
| `Persistence.DuplicateIsbnBreaksReload` | bi.py:172 | two copies sharing an ISBN and both on loan: after save and load both loans point at the first copy, and the consistent state becomes inconsistent |
| `Circulation.Library.constructor` | bi.py:32-36 | a new library has no books, members or loans, is on day 1 and is consistent |
| `Circulation.Library.AddBook` | bi.py:38-41 | appends one available book at the end without checking for duplicates; members, loans and day are unchanged; every loan still links into the catalogue, and a consistent library stays consistent |
| `Circulation.Library.AddMember` | bi.py:55-58 | appends one member at the end without checking for duplicates; books, loans and day are unchanged; every loan still links into the catalogue, and a consistent library stays consistent |
| `Circulation.Library.FindAvailableBook` | bi.py:73-78 | the scan returns the first book with the ISBN that is available |
| `Circulation.Library.FindMember` | bi.py:80-85 | the scan returns the first member with the id |
| `Circulation.Library.Borrow` | bi.py:71-101 | if both lookups succeed: the first available copy becomes unavailable, and one open loan with no fine, loaned today and due `today + term`, is appended. Otherwise it reports the missing book (checked first) or the missing member and changes nothing. Links stay in range in any state, and a consistent library stays consistent |
| `Circulation.Library.FindOpenLoan` | bi.py:105-109 | the scan returns the first open loan whose book has the ISBN and whose member has the id |
| `Circulation.Library.Return` | bi.py:103-124 | closes the first matching open loan with today's date and frees its book; nothing else changes. With no matching open loan nothing changes. Links stay in range in any state; in a consistent library the book was unavailable, the fine is the overdue fine, and consistency is kept |
| `Circulation.Library.AdvanceDays` | bi.py:206-219 | the day grows by `n` when `n > 0` and is unchanged otherwise; it never decreases; catalogue and ledger are unchanged; a consistent library stays consistent |
| `Circulation.Library.Save` | bi.py:138-151 | the stored record holds the catalogue as it is, the flattened loans and the current day |
| `Circulation.Library.Load` | bi.py:158-178 | the catalogue is replaced by the stored one, the day by the stored day or 1, and the ledger by the re-linked stored loans, all of which link into the new catalogue |
| `Circulation.Library.LoadMissingFile` | bi.py:180-185 | with no stored record, the three lists are emptied and the day is kept |
| `Circulation.Library.SaveThenLoad` | bi.py:138-178 | with distinct keys, saving then loading leaves the whole state unchanged, so a consistent library stays consistent |
| `Circulation.Library.ReturnTwice` | bi.py:103-124 | with exactly one matching open loan, the first return closes loan `k` with today's day and frees its book, the second finds no loan and changes nothing; members and day are unchanged |
| `Circulation.LateReturnScenario` | bi.py:71-121 | lending for 7 days on day 1, advancing 10 days and returning gives a fine of 1.5, and the book is available again |

## Left out

- Console output: every `print`, and the listing operations `listar_livros`, `listar_usuarios` and `listar_emprestimos`. The only derived part, the open/closed status of a loan, is `Loan.IsOpen`. The borrow and return outcomes name the branch whose message would be printed.
- File and JSON I/O in saving and loading (opening the file, encoding, decoding). The stored record is the value `SavedData`. A stored field that is absent or of the wrong type (a decoding error) is not modelled, apart from the optional day.
- The catch-all error branch of loading, which leaves the state partly loaded. It depends on failures outside the model. The missing-file branch is `LoadMissingFile`.
- The interactive menus and the parsing of numbers typed by the user in the main loop and in the time menu. Only the day arithmetic is kept. The one-day and one-week options are `AdvanceDays(1)` and `AdvanceDays(7)`, whose guard always passes.
- Floating-point rounding of the fine. Fines are exact reals; 0.5 times an integer number of days is exact in binary floating point up to 2^53 days.
- Circulation.Library.Load: it promises `Valid()` but not `Consistent()`, because a stored record can hold any data (for example a book marked unavailable with no open loan, or two copies sharing an ISBN as in `DuplicateIsbnBreaksReload`). The operations after it are therefore specified for any valid state. The round trip (`SaveThenLoad`) keeps consistency when keys are distinct.
