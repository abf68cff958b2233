/**
 * The durable documents behind the store: a books document, a members document
 * and a metadata document holding the two identifier counters. Each may be
 * missing; reading and writing files is not part of this model, only what the
 * store is rebuilt from.
 */
module Persistence {
  import opened Wrappers
  import opened Records
  import opened Queries
  import opened Lending

  /** The metadata document; either key may be missing from it. */
  datatype Metadata = Metadata(nextBookId: Option<int>, nextMemberId: Option<int>)

  /** The three documents as found at start-up; `None` is a document that does not exist. */
  datatype Documents = Documents(books: Option<seq<Book>>, members: Option<seq<Member>>, metadata: Option<Metadata>)

  /** The value an identifier counter starts from before anything is loaded. */
  const InitialCounter: int := 1

  /**
   * The counter restored at start-up: the stored value when the metadata document
   * has it; one past the number of loaded records when the document exists without
   * that key; and the initial value when there is no metadata document at all.
   */
  function RestoredCounter(metadataPresent: bool, stored: Option<int>, loadedCount: nat): (c: int)
    ensures stored.Some? && metadataPresent ==> c == stored.value
    ensures stored.None? && metadataPresent ==> c == loadedCount + 1
    ensures !metadataPresent ==> c == InitialCounter
  {
    if !metadataPresent then InitialCounter
    else stored.GetOr(loadedCount + 1)
  }

  /** The store rebuilt from the documents; a missing records document gives an empty list. */
  function Load(d: Documents): (s: Store)
    ensures s.books == d.books.GetOr([]) && s.members == d.members.GetOr([])
    ensures d.metadata.None? ==> s.nextBookId == InitialCounter && s.nextMemberId == InitialCounter
    ensures d.metadata.Some? ==>
      && s.nextBookId == d.metadata.value.nextBookId.GetOr(|s.books| + 1)
      && s.nextMemberId == d.metadata.value.nextMemberId.GetOr(|s.members| + 1)
  {
    var books := d.books.GetOr([]);
    var members := d.members.GetOr([]);
    var meta := d.metadata.GetOr(Metadata(None, None));
    Store(books, members,
          RestoredCounter(d.metadata.Some?, meta.nextBookId, |books|),
          RestoredCounter(d.metadata.Some?, meta.nextMemberId, |members|))
  }

  /**
   * The documents written for a store: all three exist afterwards, each list
   * document holds the list as it stands, and the metadata holds both counters.
   */
  function Save(s: Store): (d: Documents)
    ensures d.books.Some? && d.members.Some? && d.metadata.Some?
    ensures d.books.value == s.books && d.members.value == s.members
    ensures d.metadata.value.nextBookId.Some? && d.metadata.value.nextMemberId.Some?
  {
    Documents(Some(s.books), Some(s.members), Some(Metadata(Some(s.nextBookId), Some(s.nextMemberId))))
  }

  /** Saving and loading again gives back the same store, counters included. */
  lemma SaveLoadRoundTrip(s: Store)
    ensures Load(Save(s)) == s
  {
  }

  /**
   * Identifiers keep increasing across a restart: a book added after saving and
   * loading again gets an identifier above every one issued before.
   */
  lemma IdsIncreaseAcrossRestart(s: Store, title: string, author: string, isbn: string, category: string)
    requires Valid(s)
    ensures var r := AddBook(Load(Save(s)), title, author, isbn, category);
      && Valid(r)
      && forall k :: 0 <= k < |s.books| ==> s.books[k].id < r.books[|s.books|].id
  {
    SaveLoadRoundTrip(s);
    AddBookKeepsValid(s, title, author, isbn, category);
  }

  /**
   * Records numbered 1..n with the counter keys missing from the metadata
   * document load into a valid store: the fallback n + 1 is above every identifier.
   */
  lemma FallbackCountersAreValid(d: Documents)
    requires d.metadata == Some(Metadata(None, None))
    requires var books := d.books.GetOr([]);
      Distinct(BookIds(books)) && forall k :: 0 <= k < |books| ==> 1 <= books[k].id <= |books|
    requires var members := d.members.GetOr([]);
      Distinct(MemberIds(members)) && forall k :: 0 <= k < |members| ==> 1 <= members[k].id <= |members|
    requires forall b :: b in d.books.GetOr([]) ==> KnownStatus(b) && LoanRecorded(b)
    ensures Valid(Load(d))
  {
    var s := Load(d);
    forall k | 0 <= k < |s.books| ensures KnownStatus(s.books[k]) && LoanRecorded(s.books[k]) {
      assert s.books[k] in d.books.GetOr([]);
    }
  }

  /**
   * Without a metadata document the counters stay at 1, so loading records that
   * already use identifier 1 and then adding a book gives two books the same identifier.
   */
  lemma MissingMetadataReissuesIds(d: Documents, title: string, author: string, isbn: string, category: string)
    requires d.metadata.None? && d.books.Some? && |d.books.value| > 0 && d.books.value[0].id == 1
    ensures var r := AddBook(Load(d), title, author, isbn, category);
      r.books[|d.books.value|].id == r.books[0].id && !Valid(r)
  {
    var r := AddBook(Load(d), title, author, isbn, category);
    var ids := BookIds(r.books);
    assert ids[0] == ids[|d.books.value|];
  }
}
