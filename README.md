# Library lending store — a Dafny model

This project models the in-memory core of a small library-management web application.
A `LibrarySystem` keeps a catalogue of books and a register of members. It hands out
integer identifiers from two counters. It lends books to members and takes them back,
charging a fine per day once a loan is longer than the free period. It reports
dashboard statistics and the books currently on loan. After every successful change
it writes its books, members and counters as three documents, and it restores itself
from those documents at start-up.

Module layout:

- `Dates`: calendar days and clock instants.
  - A stored date is a whole-day number.
  - "Now" is an instant in seconds on the local clock, supplied by the caller.
  - The loan length is the day count of `now - midnight(borrow day)`, rounded down.
    This equals the difference of the two calendar days.
- `Fines`: the overdue-fine rule, with its defaults of 10 per day after 14 days.
- `Records`: the book and member records, and edits to them.
  - An edit is a patch whose absent fields are left unchanged.
- `Queries`: the list operations the store is built from:
  - order-preserving filtering;
  - first-match lookup by identifier or name;
  - removal of the first occurrence of a title;
  - statistics, recent activity and the search filters.
- `Lending`: every store operation as a function from the store before to the result and the store after.
  - The invariants the operations keep are proved as lemmas.
  - `Valid`: identifiers are distinct and below their counter, every status is one the store writes, and every loan records its holder and date.
  - `LoansLinked`: member names are unique, every loan names an enrolled member, and each member's title list matches the books on loan to them as a multiset.
- `Persistence`: the three documents, the start-up restore with its counter fallback, and the documents written by a save.
- `Library`: the class `LibrarySystem`. Its lists and counters are fields that its methods update in place.
  - Each state-changing method is proved to give the result and the new state of its specifying function:
    - `AddBook`, `UpdateBook`, `DeleteBook`, `AddMember`, `UpdateMember`, `DeleteMember` and `ReturnBook`: the `Lending` function of the same name;
    - `BorrowBook`: `Lending.Borrow`;
    - `DeleteMemberIfNoLoans`: `Lending.DeleteMemberGuarded`;
    - the constructor: `Persistence.Load`;
    - `LoadData`: no function; its contract states each field update directly, and the constructor ties them to `Persistence.Load`;
    - `SaveData`: `Persistence.Save`.
  - The query functions delegate and restate the contracts of what they call: `GetBook`, `GetMember` and `GetStats` call the `Queries` functions of the same names, and `GetRecentActivity` calls `Queries.RecentActivity`.
  - Each method other than the constructor and `LoadData` keeps `Valid` and, where the operation allows it, `LoansLinked`.
  - The constructor and `LoadData` take whatever the documents hold, which need not be `Valid`. Two lemmas say when it is:
    - `Persistence.SaveLoadRoundTrip`: documents the store wrote itself load back as the store that wrote them;
    - `Persistence.FallbackCountersAreValid`: records numbered 1..n whose books all have a known status and a recorded loan, with the counter keys missing, load valid.
  - The ghost field `disk` records the documents last written.

`return_book` in `main.py` is indented at the same level as its own `def`, so the file as
written would not import. The model follows the evidently intended method body
(main.py:129-157).

The counters fall back to one past the number of loaded records only when the metadata
document exists but lacks a key. Without `metadata.json` the counters stay at 1, even
when records were loaded (main.py:13-14, 35-39). `Persistence.MissingMetadataReissuesIds`
shows the consequence: book identifier 1 is issued a second time.

## Model

| member | source | states |
|---|---|---|
| Dates.DayOf | main.py:123 | the stored date of an instant is the day whose 86400-second span contains it |
| Dates.ElapsedDays | main.py:135-137 | the loan length is the whole days from the borrow day's midnight to now, rounded down, which equals today's day number minus the borrow day |
| Fines.FineIsClampedOverdueTimesRate | main.py:139-141 | the fine is max(0, days - maxDays) * finePerDay |
| Fines.Fine | main.py:139-141 | no fine within the free period; never negative for a non-negative rate |
| Fines.FineMonotone | main.py:139-141 | for a fixed non-negative rate, a longer loan never costs less |
| Fines.DefaultPolicyExamples | main.py:129-141 | with 10 per day after 14 days, 20 days cost 60 and 5 days cost 0 |
| Records.PatchBook | main.py:77-83 | supplied fields replace the old ones; id and loan fields are untouched; an empty edit changes nothing |
| Records.PatchMember | main.py:105-111 | supplied fields replace the old ones; id, joining date and held titles are untouched; an empty edit changes nothing |
| Records.PatchIdempotent | main.py:77-83 | applying the same edit twice equals applying it once |
| Queries.Filter | main.py:86 | keeps exactly the elements that pass, never more than there were; keeping everything returns the list |
| Queries.FilterCounts | main.py:86 | each kept element survives as many times as it occurs; every other element is gone |
| Queries.FilterAppend | main.py:86 | filtering distributes over concatenation, so the survivors stay in their original order |
| Queries.FilterKeepsIssuedIds | main.py:85-87 | removing records keeps identifiers distinct and below the counter |
| Queries.FirstIndex | main.py:74-75 | the index of the first element that matches, or none when no element matches |
| Queries.FindBook | main.py:74-75 | the first book with the identifier; none exactly when no book has it |
| Queries.FindMember | main.py:102-103 | the first member with the identifier; none exactly when no member has it |
| Queries.FindMemberByName | main.py:133 | the first member with the borrower's name; none for no name or no such member |
| Queries.GetBook | main.py:74-75 | get_book returns a book with that identifier from the catalogue, or nothing exactly when none exists |
| Queries.GetMember | main.py:102-103 | get_member returns a member with that identifier, or nothing exactly when none exists |
| Queries.RemoveFirst | main.py:151-152 | removing a present title shortens the list by one; an absent title changes nothing |
| Queries.RemoveFirstCounts | main.py:152 | removing a present title takes out exactly one copy of it |
| Queries.RemoveFirstAt | main.py:152 | the removal takes out the first occurrence and keeps the rest in order |
| Queries.OccursAt | main.py:181-187 | the substring test holds exactly when the term sits at some position of the text |
| Queries.SearchBooks | main.py:181-187 | the listed books are exactly those whose lower-cased title or author contains the lower-cased term; all books for an empty term |
| Queries.SearchMembers | main.py:224-230 | the listed members are exactly those whose lower-cased name or e-mail contains the lower-cased term; all members for an empty term |
| Queries.RecentActivity | main.py:168-169 | exactly the books on loan, with multiplicities, and as many as the borrowed count of the statistics |
| Queries.GetStats | main.py:160-166 | the totals are the list lengths; available + borrowed never exceed the total; all available gives available = total; none on loan gives borrowed = 0 |
| Queries.StatusCountsAddUp | main.py:160-166 | available + borrowed + other-status books = total books |
| Queries.StatsPartition | main.py:160-166 | available + borrowed = total exactly when every status is available or borrowed |
| Lending.AddBook | main.py:59-72 | a new available book, with no holder, borrow date, return date, loan length or fine, is appended under the current counter; the counter advances; nothing else changes |
| Lending.AddBookKeepsValid | main.py:59-72 | adding keeps the invariant, and the new identifier is above every existing one |
| Lending.UpdateBook | main.py:77-83 | succeeds exactly when the identifier exists; then only the first such book is patched; otherwise nothing changes |
| Lending.UpdateBookKeepsValid | main.py:77-83 | an edit keeps the invariant |
| Lending.DeleteBook | main.py:85-87 | exactly the books with other identifiers remain; an unknown identifier changes nothing; the counters are untouched |
| Lending.DeleteBookKeepsValid | main.py:85-87 | deletion keeps the invariant; the counter is not rewound |
| Lending.AddMember | main.py:89-100 | a new member with no books, dated today, is appended under the current counter; the counter advances |
| Lending.AddMemberKeepsValid | main.py:89-100 | enrolling keeps the invariant, and the new identifier is above every existing one |
| Lending.AddMemberKeepsLoansLinked | main.py:89-100 | enrolling under a new name keeps books and members linked |
| Lending.UpdateMember | main.py:105-111 | succeeds exactly when the identifier exists; then only the first such member is patched; otherwise nothing changes |
| Lending.UpdateMemberKeepsValid | main.py:105-111 | an edit keeps the invariant |
| Lending.DeleteMember | main.py:113-115 | exactly the members with other identifiers remain; an unknown identifier changes nothing |
| Lending.DeleteMemberGuarded | main.py:258-263 | the member is deleted exactly when they exist and hold no books; otherwise nothing changes |
| Lending.DeleteMemberKeepsValid | main.py:113-115 | both forms of member deletion keep the invariant |
| Lending.DeleteMemberGuardedKeepsLoansLinked | main.py:258-263 | the guarded deletion never leaves a loan naming a missing member |
| Lending.Borrow | main.py:117-127 | succeeds exactly when book and member exist and the book is available; then the book records the holder and today's date and the holder's list gains its title; otherwise nothing changes |
| Lending.BorrowKeepsValid | main.py:117-127 | lending keeps the invariant |
| Lending.BorrowKeepsLoansLinked | main.py:117-127 | lending keeps each member's titles equal to the books on loan to them |
| Lending.ReleaseLoan | main.py:130-152 | only the first member with the borrower's name loses one copy of the title; no other member changes |
| Lending.ReturnBook | main.py:129-157 | refused with no change unless the book exists and is on loan; otherwise it reports and records the elapsed days and the fine, makes the book available with no holder, and releases the holder's title |
| Lending.ReturnKeepsValid | main.py:129-157 | returning keeps the invariant, and on a valid store a return never meets a loan without a borrow date |
| Lending.ReturnKeepsLoansLinked | main.py:129-157 | returning keeps each member's titles equal to the books on loan to them |
| Lending.ReturnAtDefaultPolicy | main.py:129-157 | with the default policy, a loan borrowed 20 days ago returns with receipt (20, 60) and one borrowed 5 days ago with (5, 0) |
| Lending.BorrowThenReturn | main.py:117-157 | a borrow followed by a return reports the calendar days between them and leaves the book available, without a fine within the free period |
| Lending.BorrowThenReturnRestoresHoldings | main.py:117-157 | with unique names, borrow then return gives every member back the titles they held |
| Lending.AddBookKeepsLoansLinked | main.py:59-72 | cataloguing a book keeps books and members linked |
| Persistence.RestoredCounter | main.py:10-39 | the stored counter if present; loaded count + 1 if the metadata document lacks the key; 1 without the document |
| Persistence.Load | main.py:20-39 | each list is its document or empty, and the counters are restored as above |
| Persistence.Save | main.py:41-56 | all three documents are written; the list documents hold the current lists and the metadata holds both counters |
| Persistence.SaveLoadRoundTrip | main.py:41-56 | loading what was saved gives back the same store, counters included |
| Persistence.IdsIncreaseAcrossRestart | main.py:41-72 | after save and reload, a new book's identifier is above every earlier one |
| Persistence.FallbackCountersAreValid | main.py:38-39 | records numbered 1..n whose books all have status available or borrowed and record the holder and date of every loan, with the counter keys missing from the metadata document, load into a valid store |
| Persistence.MissingMetadataReissuesIds | main.py:10-39 | without a metadata document, adding a book re-issues identifier 1 and the invariant breaks |
| Library.LibrarySystem.constructor | main.py:10-18 | the state is what the documents load to |
| Library.LibrarySystem.LoadData | main.py:20-39 | each list is replaced by its document when it exists; the counters come from the metadata document with the count-plus-one fallback, and otherwise stay |
| Library.LibrarySystem.SaveData | main.py:41-56 | the documents on disk become the current state, and they load back as that state |
| Library.LibrarySystem.AddBook | main.py:59-72 | the state becomes Lending.AddBook of the old state and is saved; keeps both invariants |
| Library.LibrarySystem.GetBook | main.py:74-75 | delegates to Queries.GetBook: a book from the catalogue with that identifier, or nothing exactly when none has it |
| Library.LibrarySystem.GetMember | main.py:102-103 | delegates to Queries.GetMember: a member with that identifier, or nothing exactly when none has it |
| Library.LibrarySystem.GetStats | main.py:160-166 | delegates to Queries.GetStats: the totals are the list lengths and available + borrowed never exceed the book total |
| Library.LibrarySystem.GetRecentActivity | main.py:168-169 | delegates to Queries.RecentActivity: exactly the books on loan, as many as the borrowed count of GetStats |
| Library.LibrarySystem.UpdateBook | main.py:77-83 | result and state as Lending.UpdateBook; saved only on success; keeps the invariant |
| Library.LibrarySystem.DeleteBook | main.py:85-87 | the state becomes Lending.DeleteBook of the old state and is saved; keeps the invariant |
| Library.LibrarySystem.AddMember | main.py:89-100 | the state becomes Lending.AddMember of the old state and is saved; keeps the invariant, and keeps the link for a new name |
| Library.LibrarySystem.UpdateMember | main.py:105-111 | result and state as Lending.UpdateMember; saved only on success; keeps the invariant |
| Library.LibrarySystem.DeleteMember | main.py:113-115 | the state becomes Lending.DeleteMember of the old state and is saved; keeps the invariant |
| Library.LibrarySystem.DeleteMemberIfNoLoans | main.py:258-263 | result and state as Lending.DeleteMemberGuarded; saved only when deleted; keeps both invariants |
| Library.LibrarySystem.BorrowBook | main.py:117-127 | result and state as Lending.Borrow; saved only on success; keeps both invariants |
| Library.LibrarySystem.ReturnBook | main.py:129-157 | result and state as Lending.ReturnBook; saved only on success; keeps both invariants and never meets a missing borrow date on a valid store |

## Left out

- HTTP routes, templates, form parsing and redirects are left out. They are presentation. The member-delete guard and the two search filters are modelled.
- The transactions page (main.py:265-286) is left out. It only reshapes book fields for display.
- The demonstration seed data (main.py:308-327) is left out. It is start-up content, not behaviour.
- File-system access is left out: creating the data directory, opening files, and JSON encoding with indentation. Documents are values, and a missing file is a missing document.
- Malformed JSON and malformed date strings are not modelled.
- A failing write is not modelled. `SaveData` always succeeds.
- `datetime.now()` is replaced by an instant that the caller passes in. Dates are day numbers rather than 'YYYY-MM-DD' strings. Time zones and daylight-saving shifts are not modelled.
- Books and members are typed records rather than dictionaries with arbitrary keys.
- Queries.SearchBooks and Queries.SearchMembers: Unicode lower-casing is a function the caller supplies. It is not defined here.
- Library.LibrarySystem.UpdateBook: does not promise to keep LoansLinked. A title edit leaves the old title in the holder's list, as the code does.
- Library.LibrarySystem.UpdateMember: does not promise to keep LoansLinked. A name edit orphans the member's loans, as the code does.
- Library.LibrarySystem.DeleteBook: does not promise to keep LoansLinked. Deleting a book on loan leaves its title in the holder's list, as the code does.
- Library.LibrarySystem.DeleteMember: does not promise to keep LoansLinked. The unguarded deletion can remove a member who holds books.
- Library.LibrarySystem.AddMember: keeps LoansLinked only for a name not yet enrolled. Returns are matched by name, and the code does not check that names are unique.
- The `TypeError` that `return_book` raises for a loan without a borrow date becomes the result `MissingBorrowDate`, with nothing changed. No valid store reaches it.
