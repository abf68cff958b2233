/** Read-only views of the store's two lists: lookups, filters and the dashboard figures. */
module Queries {
  import opened Wrappers
  import opened Records

  /** The elements of `s` that satisfy `keep`, in their order in `s` (a list comprehension with a condition). */
  function Filter<T(!new)>(s: seq<T>, keep: T -> bool): (r: seq<T>)
    ensures |r| <= |s|
    ensures forall x :: x in r <==> x in s && keep(x)
    ensures (forall k :: 0 <= k < |s| ==> keep(s[k])) ==> r == s
  {
    if s == [] then []
    else
      var rest := Filter(s[1..], keep);
      assert forall x :: x in s <==> x == s[0] || x in s[1..];
      if keep(s[0]) then [s[0]] + rest else rest
  }

  /** Filtering keeps every kept element as many times as it occurs, and no other element. */
  lemma {:induction false} FilterCounts<T(!new)>(s: seq<T>, keep: T -> bool)
    ensures forall x :: multiset(Filter(s, keep))[x] == if keep(x) then multiset(s)[x] else 0
  {
    if s != [] {
      FilterCounts(s[1..], keep);
      assert s == [s[0]] + s[1..];
      assert multiset(s) == multiset{s[0]} + multiset(s[1..]);
    }
  }

  /** Filtering a concatenation filters each part: what is kept stays in the original order. */
  lemma {:induction false} FilterAppend<T(!new)>(a: seq<T>, b: seq<T>, keep: T -> bool)
    ensures Filter(a + b, keep) == Filter(a, keep) + Filter(b, keep)
  {
    if a == [] {
      assert a + b == b;
    } else {
      var ab := a + b;
      assert ab[0] == a[0] && ab[1..] == a[1..] + b;
      FilterAppend(a[1..], b, keep);
      if keep(a[0]) {
        calc {
          Filter(ab, keep);
          [a[0]] + Filter(a[1..] + b, keep);
          [a[0]] + (Filter(a[1..], keep) + Filter(b, keep));
          ([a[0]] + Filter(a[1..], keep)) + Filter(b, keep);
        }
      } else {
        assert Filter(ab, keep) == Filter(a[1..] + b, keep);
      }
    }
  }

  /** The position of the first element satisfying `p`, if any (`next(...)` over a generator). */
  function FirstIndex<T>(s: seq<T>, p: T -> bool): (r: Option<nat>)
    ensures r.Some? ==> r.value < |s| && p(s[r.value]) && forall k :: 0 <= k < r.value ==> !p(s[k])
    ensures r.None? ==> forall k :: 0 <= k < |s| ==> !p(s[k])
  {
    if s == [] then None
    else if p(s[0]) then Some(0)
    else
      match FirstIndex(s[1..], p)
      case None => None
      case Some(i) => Some(i + 1)
  }

  /** The keys of a list of records, position by position. */
  function Keys<T, K>(s: seq<T>, key: T -> K): (ks: seq<K>)
    ensures |ks| == |s| && forall k :: 0 <= k < |s| ==> ks[k] == key(s[k])
  {
    seq(|s|, k requires 0 <= k < |s| => key(s[k]))
  }

  /** No two positions hold the same value. */
  predicate Distinct<K(==)>(ks: seq<K>) {
    forall i, j :: 0 <= i < j < |ks| ==> ks[i] != ks[j]
  }

  /** Identifiers that a counter standing at `next` could have handed out: all below it, no two equal. */
  predicate IssuedIds(ids: seq<int>, next: int) {
    (forall k :: 0 <= k < |ids| ==> ids[k] < next) && Distinct(ids)
  }

  /** Putting a record in front of records with distinct keys keeps them distinct when its own key is new. */
  lemma DistinctKeysCons<T(!new), K>(x: T, rest: seq<T>, key: T -> K)
    requires Distinct(Keys(rest, key))
    requires forall y :: y in rest ==> key(y) != key(x)
    ensures Distinct(Keys([x] + rest, key))
  {
    var ks, tail := Keys([x] + rest, key), Keys(rest, key);
    forall k | 1 <= k < |ks|
      ensures ks[k] == tail[k - 1] && ks[k] != ks[0]
    {
      assert ([x] + rest)[k] == rest[k - 1];
      assert rest[k - 1] in rest;
    }
  }

  /** Dropping records never makes two keys clash. */
  lemma {:induction false} FilterKeepsDistinctKeys<T(!new), K>(s: seq<T>, keep: T -> bool, key: T -> K)
    requires Distinct(Keys(s, key))
    ensures Distinct(Keys(Filter(s, keep), key))
  {
    if s != [] {
      var rest := s[1..];
      var ks := Keys(s, key);
      assert Keys(rest, key) == ks[1..];
      FilterKeepsDistinctKeys(rest, keep, key);
      if keep(s[0]) {
        forall y | y in Filter(rest, keep)
          ensures key(y) != key(s[0])
        {
          var j :| 0 <= j < |rest| && rest[j] == y;
          assert ks[j + 1] == key(y) && ks[0] == key(s[0]);
        }
        DistinctKeysCons(s[0], Filter(rest, keep), key);
      }
    }
  }

  /** Dropping records never makes two identifiers clash nor lifts one above the counter. */
  lemma FilterKeepsIssuedIds<T(!new)>(s: seq<T>, keep: T -> bool, idOf: T -> int, next: int)
    requires IssuedIds(Keys(s, idOf), next)
    ensures IssuedIds(Keys(Filter(s, keep), idOf), next)
  {
    FilterKeepsDistinctKeys(s, keep, idOf);
    var r := Filter(s, keep);
    forall k | 0 <= k < |r|
      ensures idOf(r[k]) < next
    {
      assert r[k] in s;
      var j :| 0 <= j < |s| && s[j] == r[k];
      assert Keys(s, idOf)[j] == idOf(r[k]);
    }
  }

  function BookId(b: Book): int { b.id }
  function MemberId(m: Member): int { m.id }
  function MemberName(m: Member): string { m.name }

  /** The identifiers of the books, in store order. */
  function BookIds(books: seq<Book>): seq<int> { Keys(books, BookId) }

  /** The identifiers of the members, in store order. */
  function MemberIds(members: seq<Member>): seq<int> { Keys(members, MemberId) }

  /** The position of the first book with identifier `id`. */
  function FindBook(books: seq<Book>, id: int): (r: Option<nat>)
    ensures r.Some? ==> r.value < |books| && books[r.value].id == id
    ensures r.Some? ==> forall k :: 0 <= k < r.value ==> books[k].id != id
    ensures r.None? <==> id !in BookIds(books)
  {
    FirstIndex(books, (b: Book) => b.id == id)
  }

  /** The position of the first member with identifier `id`. */
  function FindMember(members: seq<Member>, id: int): (r: Option<nat>)
    ensures r.Some? ==> r.value < |members| && members[r.value].id == id
    ensures r.Some? ==> forall k :: 0 <= k < r.value ==> members[k].id != id
    ensures r.None? <==> id !in MemberIds(members)
  {
    FirstIndex(members, (m: Member) => m.id == id)
  }

  /** The position of the first member whose name is `name`; an absent name matches nobody. */
  function FindMemberByName(members: seq<Member>, name: Option<string>): (r: Option<nat>)
    ensures r.Some? ==> r.value < |members| && name == Some(members[r.value].name)
    ensures r.Some? ==> forall k :: 0 <= k < r.value ==> name != Some(members[k].name)
    ensures r.None? ==> forall k :: 0 <= k < |members| ==> name != Some(members[k].name)
  {
    FirstIndex(members, (m: Member) => name == Some(m.name))
  }

  /** The first book with identifier `id`, or nothing when no book has it. */
  function GetBook(books: seq<Book>, id: int): (r: Option<Book>)
    ensures r.Some? ==> r.value in books && r.value.id == id
    ensures r.None? <==> forall b :: b in books ==> b.id != id
  {
    match FindBook(books, id)
    case None => None
    case Some(i) => Some(books[i])
  }

  /** The first member with identifier `id`, or nothing when no member has it. */
  function GetMember(members: seq<Member>, id: int): (r: Option<Member>)
    ensures r.Some? ==> r.value in members && r.value.id == id
    ensures r.None? <==> forall m :: m in members ==> m.id != id
  {
    match FindMember(members, id)
    case None => None
    case Some(i) => Some(members[i])
  }

  /** The books left after removing every book with identifier `id`. */
  function BooksWithoutId(books: seq<Book>, id: int): seq<Book> {
    Filter(books, (b: Book) => b.id != id)
  }

  /** The members left after removing every member with identifier `id`. */
  function MembersWithoutId(members: seq<Member>, id: int): seq<Member> {
    Filter(members, (m: Member) => m.id != id)
  }

  /** A title removed from a list the way list.remove does it: its first occurrence only. */
  function RemoveFirst<T(==)>(s: seq<T>, x: T): (r: seq<T>)
    ensures x !in s ==> r == s
    ensures x in s ==> |r| == |s| - 1
  {
    if s == [] then []
    else if s[0] == x then s[1..]
    else
      assert x in s[1..] <==> x in s;
      [s[0]] + RemoveFirst(s[1..], x)
  }

  /** Removing a present element takes exactly one copy of it out. */
  lemma {:induction false} RemoveFirstCounts<T>(s: seq<T>, x: T)
    requires x in s
    ensures multiset(RemoveFirst(s, x)) == multiset(s) - multiset{x}
  {
    assert s == [s[0]] + s[1..];
    if s[0] != x {
      RemoveFirstCounts(s[1..], x);
    }
  }

  /** The element removed is the first occurrence: everything before and after it stays in place. */
  lemma {:induction false} RemoveFirstAt<T>(s: seq<T>, x: T, k: nat)
    requires k < |s| && s[k] == x && forall j :: 0 <= j < k ==> s[j] != x
    ensures RemoveFirst(s, x) == s[..k] + s[k + 1..]
  {
    if k > 0 {
      var head, tail := s[0], s[1..];
      forall j | 0 <= j < k - 1
        ensures tail[j] != x
      {
        assert tail[j] == s[j + 1];
      }
      RemoveFirstAt(tail, x, k - 1);
      var before, after := tail[..k - 1], tail[k..];
      assert s[..k] == [head] + before;
      assert s[k + 1..] == after;
      calc {
        RemoveFirst(s, x);
        { assert head != x; }
        [head] + RemoveFirst(tail, x);
        [head] + (before + after);
        ([head] + before) + after;
      }
    } else {
      assert s[..k] + s[k + 1..] == s[1..];
    }
  }

  /** Whether `needle` occurs as a contiguous stretch of `hay` (Python's `in` on strings). */
  predicate Occurs(needle: string, hay: string)
    decreases |hay|
  {
    needle <= hay || (hay != [] && Occurs(needle, hay[1..]))
  }

  /** Whether `needle` sits in `hay` starting at position `i`. */
  predicate FoundAt(needle: string, hay: string, i: int)
  {
    0 <= i <= |hay| - |needle| && hay[i..i + |needle|] == needle
  }

  /** Occurs finds exactly the stretches that sit somewhere in `hay`. */
  lemma {:induction false} OccursAt(needle: string, hay: string)
    ensures Occurs(needle, hay) <==> exists i :: FoundAt(needle, hay, i)
  {
    if hay != [] {
      OccursAt(needle, hay[1..]);
      if Occurs(needle, hay[1..]) {
        var i :| FoundAt(needle, hay[1..], i);
        assert hay[i + 1..i + 1 + |needle|] == needle;
        assert FoundAt(needle, hay, i + 1);
      }
      if needle <= hay {
        assert FoundAt(needle, hay, 0);
      }
      if exists i :: FoundAt(needle, hay, i) {
        var i :| FoundAt(needle, hay, i);
        if i > 0 {
          assert hay[1..][i - 1..i - 1 + |needle|] == needle;
          assert FoundAt(needle, hay[1..], i - 1);
        } else {
          assert needle <= hay;
        }
      }
    } else {
      if |needle| == 0 {
        assert FoundAt(needle, hay, 0);
      }
      if exists i :: FoundAt(needle, hay, i) {
        assert |needle| == 0;
      }
    }
  }

  /**
   * The book list for a search term: every book when the lower-cased term is empty,
   * otherwise those whose lower-cased title or author contains it, in store order.
   * `lower` is the case folding, supplied by the caller.
   */
  function SearchBooks(books: seq<Book>, term: string, lower: string -> string): (r: seq<Book>)
    ensures forall b :: b in r <==> b in books && (Occurs(lower(term), lower(b.title)) || Occurs(lower(term), lower(b.author)))
  {
    var t := lower(term);
    if t == [] then
      books
    else Filter(books, (b: Book) => Occurs(t, lower(b.title)) || Occurs(t, lower(b.author)))
  }

  /** The member list for a search term, matching on name or e-mail address in the same way. */
  function SearchMembers(members: seq<Member>, term: string, lower: string -> string): (r: seq<Member>)
    ensures forall m :: m in r <==> m in members && (Occurs(lower(term), lower(m.name)) || Occurs(lower(term), lower(m.email)))
  {
    var t := lower(term);
    if t == [] then members
    else Filter(members, (m: Member) => Occurs(t, lower(m.name)) || Occurs(t, lower(m.email)))
  }

  predicate IsAvailable(b: Book) { b.status == Available }
  predicate IsBorrowed(b: Book) { b.status == Borrowed }
  predicate HasOtherStatus(b: Book) { b.status.Other? }

  /** The dashboard figures. */
  datatype Stats = Stats(totalBooks: nat, availableBooks: nat, borrowedBooks: nat, totalMembers: nat)

  /**
   * The dashboard figures: how many books and members there are, and how many
   * books are available and on loan; a book with any other status is in neither count.
   */
  function GetStats(books: seq<Book>, members: seq<Member>): (r: Stats)
    ensures r.totalBooks == |books| && r.totalMembers == |members|
    ensures r.availableBooks + r.borrowedBooks <= r.totalBooks
    ensures (forall b :: b in books ==> b.status == Available) ==> r.availableBooks == r.totalBooks
    ensures (forall b :: b in books ==> b.status != Borrowed) ==> r.borrowedBooks == 0
  {
    StatusCountsAddUp(books);
    var borrowed := Filter(books, IsBorrowed);
    assert borrowed != [] ==> borrowed[0] in borrowed;
    Stats(|books|, |Filter(books, IsAvailable)|, |borrowed|, |members|)
  }

  /** The books currently on loan, in store order. */
  function RecentActivity(books: seq<Book>): (r: seq<Book>)
    ensures forall b :: b in r <==> b in books && b.status == Borrowed
    ensures forall b :: multiset(r)[b] == if b.status == Borrowed then multiset(books)[b] else 0
    ensures |r| == GetStats(books, []).borrowedBooks
  {
    FilterCounts(books, IsBorrowed);
    Filter(books, IsBorrowed)
  }

  /** Every book is counted exactly once: as available, as borrowed, or under some other status. */
  lemma {:induction false} StatusCountsAddUp(books: seq<Book>)
    ensures |Filter(books, IsAvailable)| + |Filter(books, IsBorrowed)| + |Filter(books, HasOtherStatus)| == |books|
  {
    if books != [] {
      StatusCountsAddUp(books[1..]);
    }
  }

  /**
   * The available and borrowed figures add up to the book total exactly when
   * every book's status is one of the two the store writes.
   */
  lemma StatsPartition(books: seq<Book>, members: seq<Member>)
    ensures var st := GetStats(books, members);
      st.availableBooks + st.borrowedBooks == st.totalBooks
      <==> forall b :: b in books ==> b.status == Available || b.status == Borrowed
  {
    StatusCountsAddUp(books);
    var others := Filter(books, HasOtherStatus);
    if others != [] {
      assert others[0] in others;
    }
  }
}
