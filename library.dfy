/**
 * LibrarySystem: the in-memory lending store. Its lists and counters are
 * fields that the operations update in place; every successful change is
 * followed by writing all three documents, recorded here in the ghost field
 * `disk`. Each state-changing method other than LoadData names its specifying
 * function in its `ensures` (a function of module Lending, or Persistence.Load and
 * Persistence.Save); the query functions delegate to module Queries.
 */
module Library {
  import opened Wrappers
  import opened Dates
  import opened Fines
  import opened Records
  import opened Queries
  import Lending
  import Persistence

  class LibrarySystem {
    var books: seq<Book>
    var members: seq<Member>
    var nextBookId: int
    var nextMemberId: int

    /** The documents on disk: as found at start-up, then as last written by SaveData. */
    ghost var disk: Persistence.Documents

    /** The store's contents as a value. */
    function State(): Lending.Store
      reads this
    {
      Lending.Store(books, members, nextBookId, nextMemberId)
    }

    ghost predicate Valid()
      reads this
    {
      Lending.Valid(State())
    }

    ghost predicate LoansLinked()
      reads this
    {
      Lending.LoansLinked(State())
    }

    /** Starts with empty lists and both counters at 1, then loads whatever documents exist. */
    constructor (docs: Persistence.Documents)
      ensures State() == Persistence.Load(docs)
      ensures disk == docs
    {
      books, members := [], [];
      nextBookId, nextMemberId := Persistence.InitialCounter, Persistence.InitialCounter;
      disk := docs;
      new;
      LoadData(docs);
    }

    /**
     * Replaces each list by its document when that document exists, then takes
     * the counters from the metadata document when it exists, falling back to one
     * past the number of loaded records for a missing key.
     */
    method LoadData(docs: Persistence.Documents)
      modifies this
      ensures books == docs.books.GetOr(old(books))
      ensures members == docs.members.GetOr(old(members))
      ensures docs.metadata.None? ==> nextBookId == old(nextBookId) && nextMemberId == old(nextMemberId)
      ensures docs.metadata.Some? ==>
        && nextBookId == docs.metadata.value.nextBookId.GetOr(|books| + 1)
        && nextMemberId == docs.metadata.value.nextMemberId.GetOr(|members| + 1)
      ensures disk == old(disk)
    {
      if docs.books.Some? {
        books := docs.books.value;
      }
      if docs.members.Some? {
        members := docs.members.value;
      }
      if docs.metadata.Some? {
        var metadata := docs.metadata.value;
        nextBookId := metadata.nextBookId.GetOr(|books| + 1);
        nextMemberId := metadata.nextMemberId.GetOr(|members| + 1);
      }
    }

    /** Writes all three documents from the current state; what is written loads back as that state. */
    method SaveData()
      modifies this`disk
      ensures disk == Persistence.Save(State())
      ensures Persistence.Load(disk) == State()
    {
      disk := Persistence.Save(State());
      Persistence.SaveLoadRoundTrip(State());
    }

    method AddBook(title: string, author: string, isbn: string, category: string)
      modifies this
      ensures State() == Lending.AddBook(old(State()), title, author, isbn, category)
      ensures disk == Persistence.Save(State())
      ensures old(Valid()) ==> Valid()
      ensures old(LoansLinked()) ==> LoansLinked()
    {
      ghost var before := State();
      var newBook := NewBook(nextBookId, title, author, isbn, category);
      books := books + [newBook];
      nextBookId := nextBookId + 1;
      SaveData();
      if Lending.Valid(before) {
        Lending.AddBookKeepsValid(before, title, author, isbn, category);
      }
      if Lending.LoansLinked(before) {
        Lending.AddBookKeepsLoansLinked(before, title, author, isbn, category);
      }
    }

    /** The first book with the identifier, if any. */
    function GetBook(bookId: int): (r: Option<Book>)
      reads this
      ensures r.Some? ==> r.value in books && r.value.id == bookId
      ensures r.None? <==> bookId !in BookIds(books)
    {
      Queries.GetBook(books, bookId)
    }

    method UpdateBook(bookId: int, patch: BookPatch) returns (ok: bool)
      modifies this
      ensures var step := Lending.UpdateBook(old(State()), bookId, patch);
        ok == step.result && State() == step.after
      ensures disk == if ok then Persistence.Save(State()) else old(disk)
      ensures old(Valid()) ==> Valid()
    {
      ghost var before := State();
      var found := FindBook(books, bookId);
      if found.Some? {
        var i := found.value;
        books := books[i := PatchBook(books[i], patch)];
        SaveData();
        ok := true;
      } else {
        ok := false;
      }
      if Lending.Valid(before) {
        Lending.UpdateBookKeepsValid(before, bookId, patch);
      }
    }

    method DeleteBook(bookId: int)
      modifies this
      ensures State() == Lending.DeleteBook(old(State()), bookId)
      ensures disk == Persistence.Save(State())
      ensures old(Valid()) ==> Valid()
    {
      ghost var before := State();
      books := BooksWithoutId(books, bookId);
      SaveData();
      if Lending.Valid(before) {
        Lending.DeleteBookKeepsValid(before, bookId);
      }
    }

    method AddMember(name: string, email: string, phone: string, now: Instant)
      modifies this
      ensures State() == Lending.AddMember(old(State()), name, email, phone, now)
      ensures disk == Persistence.Save(State())
      ensures old(Valid()) ==> Valid()
      ensures old(LoansLinked()) && name !in Lending.Names(old(members)) ==> LoansLinked()
    {
      ghost var before := State();
      var newMember := NewMember(nextMemberId, name, email, phone, DayOf(now));
      members := members + [newMember];
      nextMemberId := nextMemberId + 1;
      SaveData();
      if Lending.Valid(before) {
        Lending.AddMemberKeepsValid(before, name, email, phone, now);
      }
      if Lending.LoansLinked(before) && name !in Lending.Names(before.members) {
        Lending.AddMemberKeepsLoansLinked(before, name, email, phone, now);
      }
    }

    /** The first member with the identifier, if any. */
    function GetMember(memberId: int): (r: Option<Member>)
      reads this
      ensures r.Some? ==> r.value in members && r.value.id == memberId
      ensures r.None? <==> memberId !in MemberIds(members)
    {
      Queries.GetMember(members, memberId)
    }

    method UpdateMember(memberId: int, patch: MemberPatch) returns (ok: bool)
      modifies this
      ensures var step := Lending.UpdateMember(old(State()), memberId, patch);
        ok == step.result && State() == step.after
      ensures disk == if ok then Persistence.Save(State()) else old(disk)
      ensures old(Valid()) ==> Valid()
    {
      ghost var before := State();
      var found := FindMember(members, memberId);
      if found.Some? {
        var j := found.value;
        members := members[j := PatchMember(members[j], patch)];
        SaveData();
        ok := true;
      } else {
        ok := false;
      }
      if Lending.Valid(before) {
        Lending.UpdateMemberKeepsValid(before, memberId, patch);
      }
    }

    method DeleteMember(memberId: int)
      modifies this
      ensures State() == Lending.DeleteMember(old(State()), memberId)
      ensures disk == Persistence.Save(State())
      ensures old(Valid()) ==> Valid()
    {
      ghost var before := State();
      members := MembersWithoutId(members, memberId);
      SaveData();
      if Lending.Valid(before) {
        Lending.DeleteMemberKeepsValid(before, memberId);
      }
    }

    /** The member-delete request: deletes only a member who exists and holds no books. */
    method DeleteMemberIfNoLoans(memberId: int) returns (deleted: bool)
      modifies this
      ensures var step := Lending.DeleteMemberGuarded(old(State()), memberId);
        deleted == step.result && State() == step.after
      ensures disk == if deleted then Persistence.Save(State()) else old(disk)
      ensures old(Valid()) ==> Valid()
      ensures old(Valid()) && old(LoansLinked()) ==> LoansLinked()
    {
      ghost var before := State();
      var member := GetMember(memberId);
      if member.Some? && member.value.borrowedBooks == [] {
        DeleteMember(memberId);
        deleted := true;
      } else {
        deleted := false;
      }
      if Lending.Valid(before) {
        Lending.DeleteMemberKeepsValid(before, memberId);
        if Lending.LoansLinked(before) {
          Lending.DeleteMemberGuardedKeepsLoansLinked(before, memberId);
        }
      }
    }

    method BorrowBook(bookId: int, memberId: int, now: Instant) returns (ok: bool)
      modifies this
      ensures var step := Lending.Borrow(old(State()), bookId, memberId, now);
        ok == step.result && State() == step.after
      ensures disk == if ok then Persistence.Save(State()) else old(disk)
      ensures old(Valid()) ==> Valid()
      ensures old(LoansLinked()) ==> LoansLinked()
    {
      ghost var before := State();
      var bookAt := FindBook(books, bookId);
      var memberAt := FindMember(members, memberId);
      if bookAt.Some? && memberAt.Some? && books[bookAt.value].status == Available {
        var i, j := bookAt.value, memberAt.value;
        var book, member := books[i], members[j];
        books := books[i := book.(status := Borrowed, borrowedBy := Some(member.name), borrowDate := Some(DayOf(now)))];
        members := members[j := member.(borrowedBooks := member.borrowedBooks + [book.title])];
        SaveData();
        ok := true;
      } else {
        ok := false;
      }
      if Lending.Valid(before) {
        Lending.BorrowKeepsValid(before, bookId, memberId, now);
      }
      if Lending.LoansLinked(before) {
        Lending.BorrowKeepsLoansLinked(before, bookId, memberId, now);
      }
    }

    /**
     * Takes a book back at `now`, charging `finePerDay` for each day past
     * `maxDays`. A loan without a borrow date cannot be read and is reported
     * as MissingBorrowDate, with nothing changed.
     */
    method ReturnBook(bookId: int, now: Instant, finePerDay: int := DefaultFinePerDay, maxDays: int := DefaultMaxDays)
      returns (r: Lending.ReturnResult)
      modifies this
      ensures var step := Lending.ReturnBook(old(State()), bookId, now, finePerDay, maxDays);
        r == step.result && State() == step.after
      ensures disk == if r.Returned? then Persistence.Save(State()) else old(disk)
      ensures old(Valid()) ==> Valid() && r != Lending.MissingBorrowDate
      ensures old(LoansLinked()) ==> LoansLinked()
    {
      ghost var before := State();
      var bookAt := FindBook(books, bookId);
      if bookAt.None? || books[bookAt.value].status != Borrowed {
        return Lending.NotBorrowed;
      }
      var i := bookAt.value;
      var book := books[i];
      var holder := FindMemberByName(members, book.borrowedBy);
      if book.borrowDate.None? {
        assert !Lending.LoanRecorded(before.books[i]);
        return Lending.MissingBorrowDate;
      }
      var days := ElapsedDays(book.borrowDate.value, now);
      var fine := 0;
      if days > maxDays {
        fine := (days - maxDays) * finePerDay;
      }
      books := books[i := book.(status := Available, borrowedBy := None, returnDate := Some(DayOf(now)),
                                daysBorrowed := Some(days), fine := Some(fine))];
      if holder.Some? && book.title in members[holder.value].borrowedBooks {
        var member := members[holder.value];
        members := members[holder.value := member.(borrowedBooks := RemoveFirst(member.borrowedBooks, book.title))];
      }
      assert Lending.ReturnBook(before, bookId, now, finePerDay, maxDays)
          == Lending.Step(Lending.Returned(Lending.Receipt(days, fine)), State()) by {
        assert fine == Fine(days, finePerDay, maxDays);
        assert members == Lending.ReleaseLoan(before.members, book.borrowedBy, book.title);
      }
      SaveData();
      r := Lending.Returned(Lending.Receipt(days, fine));
      if Lending.Valid(before) {
        Lending.ReturnKeepsValid(before, bookId, now, finePerDay, maxDays);
      }
      if Lending.LoansLinked(before) {
        Lending.ReturnKeepsLoansLinked(before, bookId, now, finePerDay, maxDays);
      }
    }

    /** The dashboard figures for the current lists. */
    function GetStats(): (r: Stats)
      reads this
      ensures r.totalBooks == |books| && r.totalMembers == |members|
      ensures r.availableBooks + r.borrowedBooks <= r.totalBooks
      ensures (forall b :: b in books ==> b.status == Available) ==> r.availableBooks == r.totalBooks
      ensures (forall b :: b in books ==> b.status != Borrowed) ==> r.borrowedBooks == 0
    {
      Queries.GetStats(books, members)
    }

    /** The books currently on loan, in catalogue order. */
    function GetRecentActivity(): (r: seq<Book>)
      reads this
      ensures forall b :: b in r <==> b in books && b.status == Borrowed
      ensures forall b :: multiset(r)[b] == if b.status == Borrowed then multiset(books)[b] else 0
      ensures |r| == GetStats().borrowedBooks
    {
      RecentActivity(books)
    }
  }
}
