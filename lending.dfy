/**
 * The lending store as a value: every operation of LibrarySystem written as a
 * function from the store before to what the operation reports and the store
 * after, with the invariants these operations keep.
 */
module Lending {
  import opened Wrappers
  import opened Dates
  import opened Fines
  import opened Records
  import opened Queries

  /** The in-memory state: both record lists and both identifier counters. */
  datatype Store = Store(books: seq<Book>, members: seq<Member>, nextBookId: int, nextMemberId: int)

  /** What an operation that can fail reports, and the store after it. */
  datatype Step<R> = Step(result: R, after: Store)

  /** What a successful return reports. */
  datatype Receipt = Receipt(daysBorrowed: int, fine: int)

  /**
   * The outcome of a return: the receipt, a refusal because the book is missing
   * or not on loan, or the failure to read a loan that has no borrow date.
   */
  datatype ReturnResult = Returned(receipt: Receipt) | NotBorrowed | MissingBorrowDate

  predicate KnownStatus(b: Book) { b.status == Available || b.status == Borrowed }

  /** A book on loan records who holds it and since when. */
  predicate LoanRecorded(b: Book) { b.status == Borrowed ==> b.borrowedBy.Some? && b.borrowDate.Some? }

  /**
   * The store invariant: identifiers are distinct and below their counter, every
   * status is one the store writes, and every loan is recorded on its book.
   */
  predicate Valid(s: Store) {
    && IssuedIds(BookIds(s.books), s.nextBookId)
    && IssuedIds(MemberIds(s.members), s.nextMemberId)
    && forall k :: 0 <= k < |s.books| ==> KnownStatus(s.books[k]) && LoanRecorded(s.books[k])
  }

  // ----- Catalog -----

  /** Catalogues a book under the current book counter and advances the counter. */
  function AddBook(s: Store, title: string, author: string, isbn: string, category: string): (r: Store)
    ensures |r.books| == |s.books| + 1 && r.books[..|s.books|] == s.books
    ensures var b := r.books[|s.books|];
      && b.id == s.nextBookId && b.status == Available && b.borrowedBy.None? && b.borrowDate.None?
      && b.returnDate.None? && b.daysBorrowed.None? && b.fine.None?
      && b.title == title && b.author == author && b.isbn == isbn && b.category == category
    ensures r.nextBookId == s.nextBookId + 1
    ensures r.members == s.members && r.nextMemberId == s.nextMemberId
  {
    s.(books := s.books + [NewBook(s.nextBookId, title, author, isbn, category)], nextBookId := s.nextBookId + 1)
  }

  /** Adding a book keeps the invariant, and the identifier it hands out exceeds every one in use. */
  lemma AddBookKeepsValid(s: Store, title: string, author: string, isbn: string, category: string)
    requires Valid(s)
    ensures Valid(AddBook(s, title, author, isbn, category))
    ensures var r := AddBook(s, title, author, isbn, category);
      forall k :: 0 <= k < |s.books| ==> s.books[k].id < r.books[|s.books|].id
  {
    var r := AddBook(s, title, author, isbn, category);
    var ids := BookIds(r.books);
    forall k | 0 <= k < |s.books|
      ensures ids[k] == BookIds(s.books)[k]
    {
      assert r.books[k] == s.books[k];
    }
  }

  /** Edits the first book with identifier `id`; reports whether there was one. */
  function UpdateBook(s: Store, id: int, patch: BookPatch): (r: Step<bool>)
    ensures r.result <==> id in BookIds(s.books)
    ensures !r.result ==> r.after == s
    ensures r.result ==>
      var i := FindBook(s.books, id).value;
      && |r.after.books| == |s.books|
      && r.after.books[i] == PatchBook(s.books[i], patch)
      && (forall k :: 0 <= k < |s.books| && k != i ==> r.after.books[k] == s.books[k])
      && r.after.members == s.members
      && r.after.nextBookId == s.nextBookId && r.after.nextMemberId == s.nextMemberId
  {
    match FindBook(s.books, id)
    case None => Step(false, s)
    case Some(i) => Step(true, s.(books := s.books[i := PatchBook(s.books[i], patch)]))
  }

  /** Replacing a record by one with the same identifier leaves the identifier list as it was. */
  lemma SameKeysAfterReplace<T(!new), K>(s: seq<T>, i: nat, x: T, idOf: T -> K)
    requires i < |s| && idOf(x) == idOf(s[i])
    ensures Keys(s[i := x], idOf) == Keys(s, idOf)
  {
  }

  /** An edit keeps the invariant. */
  lemma UpdateBookKeepsValid(s: Store, id: int, patch: BookPatch)
    requires Valid(s)
    ensures Valid(UpdateBook(s, id, patch).after)
  {
    var r := UpdateBook(s, id, patch);
    if r.result {
      var i := FindBook(s.books, id).value;
      SameKeysAfterReplace(s.books, i, PatchBook(s.books[i], patch), BookId);
      assert r.after.books == s.books[i := PatchBook(s.books[i], patch)];
    }
  }

  /** Removes every book with identifier `id`, keeping the others in order; nothing happens when there is none. */
  function DeleteBook(s: Store, id: int): (r: Store)
    ensures forall b :: b in r.books <==> b in s.books && b.id != id
    ensures id !in BookIds(s.books) ==> r == s
    ensures r.members == s.members && r.nextBookId == s.nextBookId && r.nextMemberId == s.nextMemberId
  {
    s.(books := BooksWithoutId(s.books, id))
  }

  /** Deleting a book keeps the invariant, and the counter still never re-issues the deleted identifier. */
  lemma DeleteBookKeepsValid(s: Store, id: int)
    requires Valid(s)
    ensures Valid(DeleteBook(s, id))
  {
    FilterKeepsIssuedIds(s.books, (b: Book) => b.id != id, BookId, s.nextBookId);
    var r := DeleteBook(s, id);
    forall k | 0 <= k < |r.books|
      ensures KnownStatus(r.books[k]) && LoanRecorded(r.books[k])
    {
      assert r.books[k] in s.books;
    }
  }

  // ----- Membership -----

  /** Enrols a member under the current member counter, dated today, and advances the counter. */
  function AddMember(s: Store, name: string, email: string, phone: string, now: Instant): (r: Store)
    ensures |r.members| == |s.members| + 1 && r.members[..|s.members|] == s.members
    ensures var m := r.members[|s.members|];
      && m.id == s.nextMemberId && m.borrowedBooks == [] && m.membershipDate == DayOf(now)
      && m.name == name && m.email == email && m.phone == phone
    ensures r.nextMemberId == s.nextMemberId + 1
    ensures r.books == s.books && r.nextBookId == s.nextBookId
  {
    s.(members := s.members + [NewMember(s.nextMemberId, name, email, phone, DayOf(now))],
       nextMemberId := s.nextMemberId + 1)
  }

  /** Enrolling keeps the invariant, and the identifier it hands out exceeds every one in use. */
  lemma AddMemberKeepsValid(s: Store, name: string, email: string, phone: string, now: Instant)
    requires Valid(s)
    ensures Valid(AddMember(s, name, email, phone, now))
    ensures var r := AddMember(s, name, email, phone, now);
      forall k :: 0 <= k < |s.members| ==> s.members[k].id < r.members[|s.members|].id
  {
    var r := AddMember(s, name, email, phone, now);
    var ids := MemberIds(r.members);
    forall k | 0 <= k < |s.members|
      ensures ids[k] == MemberIds(s.members)[k]
    {
      assert r.members[k] == s.members[k];
    }
  }

  /** Edits the first member with identifier `id`; reports whether there was one. */
  function UpdateMember(s: Store, id: int, patch: MemberPatch): (r: Step<bool>)
    ensures r.result <==> id in MemberIds(s.members)
    ensures !r.result ==> r.after == s
    ensures r.result ==>
      var j := FindMember(s.members, id).value;
      && |r.after.members| == |s.members|
      && r.after.members[j] == PatchMember(s.members[j], patch)
      && (forall k :: 0 <= k < |s.members| && k != j ==> r.after.members[k] == s.members[k])
      && r.after.books == s.books
      && r.after.nextBookId == s.nextBookId && r.after.nextMemberId == s.nextMemberId
  {
    match FindMember(s.members, id)
    case None => Step(false, s)
    case Some(j) => Step(true, s.(members := s.members[j := PatchMember(s.members[j], patch)]))
  }

  /** An edit keeps the invariant. */
  lemma UpdateMemberKeepsValid(s: Store, id: int, patch: MemberPatch)
    requires Valid(s)
    ensures Valid(UpdateMember(s, id, patch).after)
  {
    var r := UpdateMember(s, id, patch);
    if r.result {
      var j := FindMember(s.members, id).value;
      SameKeysAfterReplace(s.members, j, PatchMember(s.members[j], patch), MemberId);
      assert r.after.members == s.members[j := PatchMember(s.members[j], patch)];
    }
  }

  /** Removes every member with identifier `id`, keeping the others in order; nothing happens when there is none. */
  function DeleteMember(s: Store, id: int): (r: Store)
    ensures forall m :: m in r.members <==> m in s.members && m.id != id
    ensures id !in MemberIds(s.members) ==> r == s
    ensures r.books == s.books && r.nextBookId == s.nextBookId && r.nextMemberId == s.nextMemberId
  {
    s.(members := MembersWithoutId(s.members, id))
  }

  /**
   * The delete request as the web layer serves it: the member is removed only when
   * the first member with that identifier exists and holds no books.
   */
  function DeleteMemberGuarded(s: Store, id: int): (r: Step<bool>)
    ensures r.result <==> GetMember(s.members, id).Some? && GetMember(s.members, id).value.borrowedBooks == []
    ensures !r.result ==> r.after == s
    ensures r.result ==> r.after == DeleteMember(s, id)
  {
    match GetMember(s.members, id)
    case Some(m) => if m.borrowedBooks == [] then Step(true, DeleteMember(s, id)) else Step(false, s)
    case None => Step(false, s)
  }

  /** Deleting members keeps the invariant. */
  lemma DeleteMemberKeepsValid(s: Store, id: int)
    requires Valid(s)
    ensures Valid(DeleteMember(s, id))
    ensures Valid(DeleteMemberGuarded(s, id).after)
  {
    FilterKeepsIssuedIds(s.members, (m: Member) => m.id != id, MemberId, s.nextMemberId);
  }

  // ----- Lending -----

  /**
   * Lends a book to a member: fails, changing nothing, unless both exist and the
   * book is available; otherwise the book records the loan and its title joins
   * the member's list.
   */
  function Borrow(s: Store, bookId: int, memberId: int, now: Instant): (r: Step<bool>)
    ensures r.result <==>
      bookId in BookIds(s.books) && memberId in MemberIds(s.members)
      && s.books[FindBook(s.books, bookId).value].status == Available
    ensures !r.result ==> r.after == s
    ensures r.result ==>
      var i, j := FindBook(s.books, bookId).value, FindMember(s.members, memberId).value;
      && |r.after.books| == |s.books| && |r.after.members| == |s.members|
      && r.after.books[i] == s.books[i].(status := Borrowed, borrowedBy := Some(s.members[j].name),
                                          borrowDate := Some(DayOf(now)))
      && r.after.members[j] == s.members[j].(borrowedBooks := s.members[j].borrowedBooks + [s.books[i].title])
      && (forall k :: 0 <= k < |s.books| && k != i ==> r.after.books[k] == s.books[k])
      && (forall k :: 0 <= k < |s.members| && k != j ==> r.after.members[k] == s.members[k])
      && r.after.nextBookId == s.nextBookId && r.after.nextMemberId == s.nextMemberId
  {
    match (FindBook(s.books, bookId), FindMember(s.members, memberId))
    case (Some(i), Some(j)) =>
      if s.books[i].status == Available then
        var book, member := s.books[i], s.members[j];
        var lent := book.(status := Borrowed, borrowedBy := Some(member.name), borrowDate := Some(DayOf(now)));
        var holding := member.(borrowedBooks := member.borrowedBooks + [book.title]);
        Step(true, s.(books := s.books[i := lent], members := s.members[j := holding]))
      else Step(false, s)
    case _ => Step(false, s)
  }

  /** Lending keeps the invariant. */
  lemma BorrowKeepsValid(s: Store, bookId: int, memberId: int, now: Instant)
    requires Valid(s)
    ensures Valid(Borrow(s, bookId, memberId, now).after)
  {
    var r := Borrow(s, bookId, memberId, now);
    if r.result {
      var i, j := FindBook(s.books, bookId).value, FindMember(s.members, memberId).value;
      assert r.after.books == s.books[i := r.after.books[i]];
      assert r.after.members == s.members[j := r.after.members[j]];
      SameKeysAfterReplace(s.books, i, r.after.books[i], BookId);
      SameKeysAfterReplace(s.members, j, r.after.members[j], MemberId);
    }
  }

  /**
   * The member record a return updates: the first member named `borrower` loses
   * the first occurrence of `title` from their list; no other member changes.
   */
  function ReleaseLoan(members: seq<Member>, borrower: Option<string>, title: string): (r: seq<Member>)
    ensures |r| == |members|
    ensures FindMemberByName(members, borrower).None? ==> r == members
    ensures FindMemberByName(members, borrower).Some? ==>
      var j := FindMemberByName(members, borrower).value;
      && r[j] == members[j].(borrowedBooks := RemoveFirst(members[j].borrowedBooks, title))
      && forall k :: 0 <= k < |members| && k != j ==> r[k] == members[k]
  {
    match FindMemberByName(members, borrower)
    case None => members
    case Some(j) =>
      if title in members[j].borrowedBooks then
        members[j := members[j].(borrowedBooks := RemoveFirst(members[j].borrowedBooks, title))]
      else members
  }

  /** The book as a return leaves it: available, no holder, with the return day, loan length and fine recorded. */
  function ReturnedBook(b: Book, now: Instant, days: int, fine: int): Book {
    b.(status := Available, borrowedBy := None, returnDate := Some(DayOf(now)),
       daysBorrowed := Some(days), fine := Some(fine))
  }

  /**
   * Takes a book back: refused, changing nothing, unless the book exists and is on
   * loan; otherwise the loan length in calendar days and its fine are recorded on
   * the book and reported, and the holder's list loses the title.
   */
  function ReturnBook(s: Store, bookId: int, now: Instant, finePerDay: int, maxDays: int): (r: Step<ReturnResult>)
    ensures r.result == NotBorrowed <==>
      bookId !in BookIds(s.books) || s.books[FindBook(s.books, bookId).value].status != Borrowed
    ensures r.result == MissingBorrowDate <==>
      bookId in BookIds(s.books) && s.books[FindBook(s.books, bookId).value].status == Borrowed
      && s.books[FindBook(s.books, bookId).value].borrowDate.None?
    ensures !r.result.Returned? ==> r.after == s
    ensures r.result.Returned? ==>
      var i := FindBook(s.books, bookId).value;
      var b := s.books[i];
      && b.borrowDate.Some?
      && var days := ElapsedDays(b.borrowDate.value, now);
      && r.result.receipt == Receipt(days, Fine(days, finePerDay, maxDays))
      && |r.after.books| == |s.books|
      && r.after.books[i] == ReturnedBook(b, now, days, Fine(days, finePerDay, maxDays))
      && (forall k :: 0 <= k < |s.books| && k != i ==> r.after.books[k] == s.books[k])
      && r.after.members == ReleaseLoan(s.members, b.borrowedBy, b.title)
      && r.after.nextBookId == s.nextBookId && r.after.nextMemberId == s.nextMemberId
  {
    match FindBook(s.books, bookId)
    case None => Step(NotBorrowed, s)
    case Some(i) =>
      var b := s.books[i];
      if b.status != Borrowed then Step(NotBorrowed, s)
      else if b.borrowDate.None? then Step(MissingBorrowDate, s)
      else
        var days := ElapsedDays(b.borrowDate.value, now);
        var fine := Fine(days, finePerDay, maxDays);
        Step(Returned(Receipt(days, fine)),
             s.(books := s.books[i := ReturnedBook(b, now, days, fine)],
                members := ReleaseLoan(s.members, b.borrowedBy, b.title)))
  }

  /** Returning keeps the invariant, and on a valid store a return never meets a loan without a borrow date. */
  lemma ReturnKeepsValid(s: Store, bookId: int, now: Instant, finePerDay: int, maxDays: int)
    requires Valid(s)
    ensures Valid(ReturnBook(s, bookId, now, finePerDay, maxDays).after)
    ensures ReturnBook(s, bookId, now, finePerDay, maxDays).result != MissingBorrowDate
  {
    var r := ReturnBook(s, bookId, now, finePerDay, maxDays);
    if r.result.Returned? {
      var i := FindBook(s.books, bookId).value;
      assert r.after.books == s.books[i := r.after.books[i]];
      SameKeysAfterReplace(s.books, i, r.after.books[i], BookId);
      var ids := MemberIds(r.after.members);
      forall k | 0 <= k < |s.members|
        ensures ids[k] == MemberIds(s.members)[k]
      {
        assert r.after.members[k].id == s.members[k].id;
      }
    }
  }

  /** Each of the default-policy examples, seen through a whole return. */
  lemma ReturnAtDefaultPolicy(s: Store, bookId: int, now: Instant)
    requires bookId in BookIds(s.books)
    requires var b := s.books[FindBook(s.books, bookId).value];
      b.status == Borrowed && b.borrowDate.Some?
    ensures var b := s.books[FindBook(s.books, bookId).value];
      var r := ReturnBook(s, bookId, now, DefaultFinePerDay, DefaultMaxDays);
      && (b.borrowDate == Some(DayOf(now) - 20) ==> r.result == Returned(Receipt(20, 60)))
      && (b.borrowDate == Some(DayOf(now) - 5) ==> r.result == Returned(Receipt(5, 0)))
  {
  }

  /**
   * A borrow followed by a return of the same book: the return succeeds, reports
   * the calendar days between the two, and leaves the book available with no
   * holder and no fine when it came back within the free period.
   */
  lemma BorrowThenReturn(s: Store, bookId: int, memberId: int, t1: Instant, t2: Instant,
                         finePerDay: int, maxDays: int)
    requires Borrow(s, bookId, memberId, t1).result
    ensures var s1 := Borrow(s, bookId, memberId, t1).after;
      var r := ReturnBook(s1, bookId, t2, finePerDay, maxDays);
      var i := FindBook(s.books, bookId).value;
      var days := DayOf(t2) - DayOf(t1);
      && r.result == Returned(Receipt(days, Fine(days, finePerDay, maxDays)))
      && r.after.books[i].status == Available && r.after.books[i].borrowedBy.None?
      && (days <= maxDays ==> r.after.books[i].fine == Some(0))
  {
    var s1 := Borrow(s, bookId, memberId, t1).after;
    var i := FindBook(s.books, bookId).value;
    assert BookIds(s1.books) == BookIds(s.books) by {
      assert s1.books == s.books[i := s1.books[i]];
      SameKeysAfterReplace(s.books, i, s1.books[i], BookId);
    }
    assert FindBook(s1.books, bookId) == Some(i);
  }

  /**
   * With member names unique, a borrow followed by a return of the same book gives
   * every member back the titles they held before (the borrower's list may come
   * back in another order when they held another copy of the same title).
   */
  lemma BorrowThenReturnRestoresHoldings(s: Store, bookId: int, memberId: int, t1: Instant, t2: Instant,
                                         finePerDay: int, maxDays: int)
    requires UniqueNames(s.members)
    requires Borrow(s, bookId, memberId, t1).result
    ensures var s1 := Borrow(s, bookId, memberId, t1).after;
      var r := ReturnBook(s1, bookId, t2, finePerDay, maxDays);
      && |r.after.members| == |s.members|
      && forall k :: 0 <= k < |s.members| ==>
           multiset(r.after.members[k].borrowedBooks) == multiset(s.members[k].borrowedBooks)
  {
    var s1 := Borrow(s, bookId, memberId, t1).after;
    var i, j := FindBook(s.books, bookId).value, FindMember(s.members, memberId).value;
    assert s1.books == s.books[i := s1.books[i]];
    SameKeysAfterReplace(s.books, i, s1.books[i], BookId);
    assert FindBook(s1.books, bookId) == Some(i);
    SameNames(s.members, s1.members);
    FoundByNameIsUnique(s1.members, j);
    var title := s.books[i].title;
    var r := ReturnBook(s1, bookId, t2, finePerDay, maxDays);
    assert r.after.members == ReleaseLoan(s1.members, Some(s.members[j].name), title);
    var held := s.members[j].borrowedBooks;
    assert title in held + [title];
    RemoveFirstCounts(held + [title], title);
  }

  // ----- Who holds what -----

  /** The title a book contributes to the holdings of the member called `name`. */
  function LoanTitle(b: Book, name: string): seq<string> {
    if b.status == Borrowed && b.borrowedBy == Some(name) then [b.title] else []
  }

  /** The titles of the books on loan to whoever is called `name`, in store order. */
  function LoanTitles(books: seq<Book>, name: string): seq<string> {
    if books == [] then [] else LoanTitle(books[0], name) + LoanTitles(books[1..], name)
  }

  /** The titles on loan to `name` from two stretches of the catalogue, one after the other. */
  lemma {:induction false} LoanTitlesAppend(a: seq<Book>, c: seq<Book>, name: string)
    ensures LoanTitles(a + c, name) == LoanTitles(a, name) + LoanTitles(c, name)
  {
    if a == [] {
      assert a + c == c;
    } else {
      assert (a + c)[0] == a[0];
      assert (a + c)[1..] == a[1..] + c;
      LoanTitlesAppend(a[1..], c, name);
    }
  }

  /** Replacing one book changes the titles on loan to `name` by that book's contribution only. */
  lemma LoanTitlesAfterReplace(books: seq<Book>, i: nat, b: Book, name: string)
    requires i < |books|
    ensures multiset(LoanTitles(books[i := b], name)) + multiset(LoanTitle(books[i], name))
         == multiset(LoanTitles(books, name)) + multiset(LoanTitle(b, name))
  {
    var pre, post := books[..i], books[i + 1..];
    assert books == pre + ([books[i]] + post);
    assert books[i := b] == pre + ([b] + post);
    LoanTitlesAppend(pre, [books[i]] + post, name);
    LoanTitlesAppend(pre, [b] + post, name);
    assert ([books[i]] + post)[1..] == post;
    assert ([b] + post)[1..] == post;
  }

  /** A book appended to the catalogue in the available state is on loan to nobody. */
  lemma {:induction false} LoanTitlesAppendAvailable(books: seq<Book>, b: Book, name: string)
    requires b.status == Available
    ensures LoanTitles(books + [b], name) == LoanTitles(books, name)
  {
    if books == [] {
      assert [b][1..] == [];
    } else {
      assert (books + [b])[1..] == books[1..] + [b];
      LoanTitlesAppendAvailable(books[1..], b, name);
    }
  }

  /** Nobody holds a title on loan unless some book on loan to them carries it. */
  lemma {:induction false} LoanTitlesHaveABook(books: seq<Book>, name: string)
    requires LoanTitles(books, name) != []
    ensures exists k :: 0 <= k < |books| && books[k].status == Borrowed && books[k].borrowedBy == Some(name)
  {
    if LoanTitle(books[0], name) == [] {
      LoanTitlesHaveABook(books[1..], name);
      var k :| 0 <= k < |books[1..]| && books[1..][k].status == Borrowed && books[1..][k].borrowedBy == Some(name);
      assert books[k + 1] == books[1..][k];
    }
  }

  function Names(members: seq<Member>): set<string> {
    set m | m in members :: m.name
  }

  predicate UniqueNames(members: seq<Member>) {
    Distinct(Keys(members, MemberName))
  }

  /**
   * The link between books and members, which the store keeps by name and title:
   * member names are unique, every book on loan names an enrolled member, and each
   * member's list holds exactly the titles of the books on loan to them.
   */
  predicate LoansLinked(s: Store) {
    && UniqueNames(s.members)
    && (forall k :: 0 <= k < |s.books| && s.books[k].status == Borrowed ==>
          s.books[k].borrowedBy.Some? && s.books[k].borrowedBy.value in Names(s.members))
    && (forall k :: 0 <= k < |s.members| ==>
          multiset(s.members[k].borrowedBooks) == multiset(LoanTitles(s.books, s.members[k].name)))
  }

  /** Member lists whose names agree position by position have the same names. */
  lemma SameNames(ms: seq<Member>, ms': seq<Member>)
    requires |ms| == |ms'| && forall k :: 0 <= k < |ms| ==> ms'[k].name == ms[k].name
    ensures Names(ms') == Names(ms)
    ensures UniqueNames(ms) ==> UniqueNames(ms')
  {
    assert Keys(ms', MemberName) == Keys(ms, MemberName);
    forall n | n in Names(ms) ensures n in Names(ms') {
      var m :| m in ms && m.name == n;
      var k :| 0 <= k < |ms| && ms[k] == m;
      assert ms'[k] in ms';
    }
    forall n | n in Names(ms') ensures n in Names(ms) {
      var m :| m in ms' && m.name == n;
      var k :| 0 <= k < |ms'| && ms'[k] == m;
      assert ms[k] in ms;
    }
  }

  /**
   * A member's list stays in step with the catalogue across the replacement of
   * one book when the list gains and loses what that book's loan state gains and loses.
   */
  lemma HoldingsAfterReplace(books: seq<Book>, i: nat, b: Book, name: string, held: seq<string>, held': seq<string>)
    requires i < |books|
    requires multiset(held) == multiset(LoanTitles(books, name))
    requires multiset(held') + multiset(LoanTitle(books[i], name)) == multiset(held) + multiset(LoanTitle(b, name))
    ensures multiset(held') == multiset(LoanTitles(books[i := b], name))
  {
    LoanTitlesAfterReplace(books, i, b, name);
    var c := multiset(LoanTitle(books[i], name));
    var x, y := multiset(held'), multiset(LoanTitles(books[i := b], name));
    assert x + c == y + c;
    forall t ensures x[t] == y[t] {
      assert (x + c)[t] == (y + c)[t];
    }
  }

  /** Lending keeps the link between books and members. */
  lemma BorrowKeepsLoansLinked(s: Store, bookId: int, memberId: int, now: Instant)
    requires LoansLinked(s)
    ensures LoansLinked(Borrow(s, bookId, memberId, now).after)
  {
    var r := Borrow(s, bookId, memberId, now);
    if r.result {
      var i, j := FindBook(s.books, bookId).value, FindMember(s.members, memberId).value;
      var a := r.after;
      assert a.books == s.books[i := a.books[i]];
      SameNames(s.members, a.members);
      assert s.members[j] in s.members;
      forall k | 0 <= k < |a.members|
        ensures multiset(a.members[k].borrowedBooks) == multiset(LoanTitles(a.books, a.members[k].name))
      {
        var n := s.members[k].name;
        assert LoanTitle(s.books[i], n) == [];
        if k == j {
          assert LoanTitle(a.books[i], n) == [s.books[i].title];
        } else {
          assert n != s.members[j].name;
          assert LoanTitle(a.books[i], n) == [];
        }
        HoldingsAfterReplace(s.books, i, a.books[i], n, s.members[k].borrowedBooks, a.members[k].borrowedBooks);
      }
    }
  }

  /** The first member called `name` is the only one when names are unique. */
  lemma FoundByNameIsUnique(members: seq<Member>, k: nat)
    requires UniqueNames(members) && k < |members|
    ensures FindMemberByName(members, Some(members[k].name)) == Some(k)
  {
  }

  /** A return takes the title off the list of the member holding the book, and only off theirs. */
  lemma ReleaseLoanKeepsHoldings(books: seq<Book>, i: nat, b: Book, members: seq<Member>, k: nat)
    requires i < |books| && k < |members| && UniqueNames(members)
    requires books[i].status == Borrowed && b.status == Available
    requires multiset(members[k].borrowedBooks) == multiset(LoanTitles(books, members[k].name))
    ensures var after := ReleaseLoan(members, books[i].borrowedBy, books[i].title);
      multiset(after[k].borrowedBooks) == multiset(LoanTitles(books[i := b], members[k].name))
  {
    var n := members[k].name;
    var held := members[k].borrowedBooks;
    var held' := ReleaseLoan(members, books[i].borrowedBy, books[i].title)[k].borrowedBooks;
    assert LoanTitle(b, n) == [];
    if books[i].borrowedBy == Some(n) {
      HolderLosesTitle(books, i, b, members, k);
    } else {
      assert LoanTitle(books[i], n) == [];
      assert FindMemberByName(members, books[i].borrowedBy) != Some(k);
      assert held' == held;
      HoldingsAfterReplace(books, i, b, n, held, held');
    }
  }

  /** The holder of a returned book loses exactly one copy of its title. */
  lemma HolderLosesTitle(books: seq<Book>, i: nat, b: Book, members: seq<Member>, k: nat)
    requires i < |books| && k < |members| && UniqueNames(members)
    requires books[i].status == Borrowed && books[i].borrowedBy == Some(members[k].name) && b.status == Available
    requires multiset(members[k].borrowedBooks) == multiset(LoanTitles(books, members[k].name))
    ensures var after := ReleaseLoan(members, books[i].borrowedBy, books[i].title);
      multiset(after[k].borrowedBooks) == multiset(LoanTitles(books[i := b], members[k].name))
  {
    var n, t := members[k].name, books[i].title;
    var held := members[k].borrowedBooks;
    BookOnLoanShowsInTitles(books, i, n);
    assert t in multiset(held);
    var held' := ReleaseLoan(members, Some(n), t)[k].borrowedBooks;
    HolderListLosesOneCopy(members, k, t);
    assert LoanTitle(books[i], n) == [t] && LoanTitle(b, n) == [];
    HoldingsAfterReplace(books, i, b, n, held, held');
  }

  /** Releasing a title the holder has takes one copy of it off their list. */
  lemma HolderListLosesOneCopy(members: seq<Member>, k: nat, t: string)
    requires k < |members| && UniqueNames(members) && t in members[k].borrowedBooks
    ensures var held := members[k].borrowedBooks;
      multiset(ReleaseLoan(members, Some(members[k].name), t)[k].borrowedBooks) + multiset([t]) == multiset(held)
  {
    FoundByNameIsUnique(members, k);
    var held := members[k].borrowedBooks;
    assert ReleaseLoan(members, Some(members[k].name), t)[k].borrowedBooks == RemoveFirst(held, t);
    RemoveFirstCounts(held, t);
  }

  /** Returning keeps the link between books and members. */
  lemma ReturnKeepsLoansLinked(s: Store, bookId: int, now: Instant, finePerDay: int, maxDays: int)
    requires LoansLinked(s)
    ensures LoansLinked(ReturnBook(s, bookId, now, finePerDay, maxDays).after)
  {
    var r := ReturnBook(s, bookId, now, finePerDay, maxDays);
    if r.result.Returned? {
      var i := FindBook(s.books, bookId).value;
      var b := s.books[i];
      var a := r.after;
      assert a.books == s.books[i := a.books[i]];
      assert a.members == ReleaseLoan(s.members, b.borrowedBy, b.title);
      SameNames(s.members, a.members);
      forall k | 0 <= k < |a.members|
        ensures multiset(a.members[k].borrowedBooks) == multiset(LoanTitles(a.books, a.members[k].name))
      {
        ReleaseLoanKeepsHoldings(s.books, i, a.books[i], s.members, k);
      }
    }
  }

  /** Cataloguing a book keeps the link between books and members. */
  lemma AddBookKeepsLoansLinked(s: Store, title: string, author: string, isbn: string, category: string)
    requires LoansLinked(s)
    ensures LoansLinked(AddBook(s, title, author, isbn, category))
  {
    var r := AddBook(s, title, author, isbn, category);
    assert r.books == s.books + [r.books[|s.books|]];
    forall k | 0 <= k < |r.members|
      ensures multiset(r.members[k].borrowedBooks) == multiset(LoanTitles(r.books, r.members[k].name))
    {
      LoanTitlesAppendAvailable(s.books, r.books[|s.books|], r.members[k].name);
    }
  }

  /** Enrolling a member under a name nobody has keeps the link between books and members. */
  lemma AddMemberKeepsLoansLinked(s: Store, name: string, email: string, phone: string, now: Instant)
    requires LoansLinked(s) && name !in Names(s.members)
    ensures LoansLinked(AddMember(s, name, email, phone, now))
  {
    var r := AddMember(s, name, email, phone, now);
    var n := |s.members|;
    forall k | 0 <= k < n ensures r.members[k] == s.members[k] { }
    forall k | 0 <= k < n ensures s.members[k].name != name {
      assert s.members[k] in s.members;
    }
    assert Names(s.members) <= Names(r.members) by {
      forall x | x in Names(s.members) ensures x in Names(r.members) {
        var m :| m in s.members && m.name == x;
        var k :| 0 <= k < n && s.members[k] == m;
        assert r.members[k] in r.members;
      }
    }
    if LoanTitles(s.books, name) != [] {
      LoanTitlesHaveABook(s.books, name);
      assert false;
    }
  }

  /** A book on loan to `name` shows its title among the titles on loan to `name`. */
  lemma BookOnLoanShowsInTitles(books: seq<Book>, k: nat, name: string)
    requires k < |books| && books[k].status == Borrowed && books[k].borrowedBy == Some(name)
    ensures books[k].title in LoanTitles(books, name)
  {
    assert books == books[..k] + ([books[k]] + books[k + 1..]);
    LoanTitlesAppend(books[..k], [books[k]] + books[k + 1..], name);
    assert ([books[k]] + books[k + 1..])[1..] == books[k + 1..];
  }

  /**
   * The guarded delete keeps the link between books and members: a member may
   * only go once no book is on loan to them.
   */
  lemma DeleteMemberGuardedKeepsLoansLinked(s: Store, id: int)
    requires Valid(s) && LoansLinked(s)
    ensures LoansLinked(DeleteMemberGuarded(s, id).after)
  {
    var r := DeleteMemberGuarded(s, id);
    if r.result {
      var a := r.after;
      assert a.members == Filter(s.members, (m: Member) => m.id != id);
      FilterKeepsDistinctKeys(s.members, (m: Member) => m.id != id, MemberName);
      forall k | 0 <= k < |a.members|
        ensures multiset(a.members[k].borrowedBooks) == multiset(LoanTitles(a.books, a.members[k].name))
      {
        assert a.members[k] in s.members;
      }
      forall k | 0 <= k < |a.books| && a.books[k].status == Borrowed
        ensures a.books[k].borrowedBy.Some? && a.books[k].borrowedBy.value in Names(a.members)
      {
        LoanHolderSurvivesDelete(s, id, k);
      }
    }
  }

  /** When the member deleted holds no books, the holder of every loan is still enrolled. */
  lemma LoanHolderSurvivesDelete(s: Store, id: int, k: nat)
    requires Valid(s) && LoansLinked(s) && DeleteMemberGuarded(s, id).result
    requires k < |s.books| && s.books[k].status == Borrowed
    ensures s.books[k].borrowedBy.value in Names(DeleteMember(s, id).members)
  {
    var j := FindMember(s.members, id).value;
    var n := s.books[k].borrowedBy.value;
    var m :| m in s.members && m.name == n;
    var k' :| 0 <= k' < |s.members| && s.members[k'] == m;
    if m.id == id {
      assert MemberIds(s.members)[k'] == MemberIds(s.members)[j];
      BookOnLoanShowsInTitles(s.books, k, n);
      assert false;
    }
    assert m in DeleteMember(s, id).members;
  }
}
