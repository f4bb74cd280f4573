/** First-match lookups over the catalogue: a linear scan that stops at the
    first entry satisfying a condition. */
module Catalog {
  import opened Entities

  /** The position of the first element of `s` satisfying `p`, if any. */
  function FirstMatch<T>(s: seq<T>, p: T -> bool): (r: Option<nat>)
    ensures r.Some? ==> r.value < |s| && p(s[r.value])
    ensures r.Some? ==> forall j :: 0 <= j < r.value ==> !p(s[j])
    ensures r.None? ==> forall j :: 0 <= j < |s| ==> !p(s[j])
  {
    if |s| == 0 then None
    else if p(s[0]) then Some(0)
    else match FirstMatch(s[1..], p)
      case None => None
      case Some(i) => Some(i + 1)
  }

  /** The first book with the given ISBN, whether or not it is on loan. */
  function FirstWithIsbn(books: seq<Book>, isbn: string): Option<nat> {
    FirstMatch(books, (b: Book) => b.isbn == isbn)
  }

  /** The first book with the given ISBN that is available for loan. */
  function FirstAvailableWithIsbn(books: seq<Book>, isbn: string): Option<nat> {
    FirstMatch(books, (b: Book) => b.isbn == isbn && b.available)
  }

  /** The first member with the given id. */
  function FirstWithId(members: seq<Member>, memberId: string): Option<nat> {
    FirstMatch(members, (m: Member) => m.memberId == memberId)
  }

  /** When ISBNs are pairwise distinct, looking a book up by its own ISBN finds it. */
  lemma LookupOwnIsbn(books: seq<Book>, b: nat)
    requires b < |books|
    requires forall i, j :: 0 <= i < j < |books| ==> books[i].isbn != books[j].isbn
    ensures FirstWithIsbn(books, books[b].isbn) == Some(b)
  {
  }

  /** When member ids are pairwise distinct, looking a member up by its own id finds it. */
  lemma LookupOwnId(members: seq<Member>, m: nat)
    requires m < |members|
    requires forall i, j :: 0 <= i < j < |members| ==> members[i].memberId != members[j].memberId
    ensures FirstWithId(members, members[m].memberId) == Some(m)
  {
  }
}
