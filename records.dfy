/** The two kinds of record the lending store keeps: books and members. */
module Records {
  import opened Wrappers
  import opened Dates

  /**
   * The lending status of a book. The store only ever writes `Available` and
   * `Borrowed`; `Other` stands for any other text a loaded books document carries.
   * A stored 'available' or 'borrowed' is read as `Available` or `Borrowed`, so the
   * text of `Other` is never one of those two words.
   */
  datatype Status = Available | Borrowed | Other(text: string)

  /**
   * A catalog entry. `borrowedBy` names the current holder and is cleared by a
   * return; `borrowDate` is the day of the current loan and, after a return, keeps
   * the day of the latest one. `returnDate`, `daysBorrowed` and `fine` are absent
   * until the book has been returned once.
   */
  datatype Book = Book(
    id: int,
    title: string,
    author: string,
    isbn: string,
    category: string,
    status: Status,
    borrowedBy: Option<string>,
    borrowDate: Option<Day>,
    returnDate: Option<Day>,
    daysBorrowed: Option<int>,
    fine: Option<int>)

  /** A library patron; `borrowedBooks` lists the titles of the books they hold, in borrowing order. */
  datatype Member = Member(
    id: int,
    name: string,
    email: string,
    phone: string,
    membershipDate: Day,
    borrowedBooks: seq<string>)

  /** The fields an edit of a book may supply; an absent field is left as it is. */
  datatype BookPatch = BookPatch(
    title: Option<string>,
    author: Option<string>,
    isbn: Option<string>,
    category: Option<string>)

  /** The fields an edit of a member may supply; an absent field is left as it is. */
  datatype MemberPatch = MemberPatch(
    name: Option<string>,
    email: Option<string>,
    phone: Option<string>)

  /** A freshly catalogued book: available, never lent. */
  function NewBook(id: int, title: string, author: string, isbn: string, category: string): Book {
    Book(id, title, author, isbn, category, Available, None, None, None, None, None)
  }

  /** A freshly enrolled member, holding no books. */
  function NewMember(id: int, name: string, email: string, phone: string, joined: Day): Member {
    Member(id, name, email, phone, joined, [])
  }

  /** Merges an edit into a book: supplied fields replace the old ones, nothing else changes. */
  function PatchBook(b: Book, p: BookPatch): (r: Book)
    ensures p == BookPatch(None, None, None, None) ==> r == b
    ensures r.id == b.id && r.status == b.status && r.borrowedBy == b.borrowedBy && r.borrowDate == b.borrowDate
    ensures r.returnDate == b.returnDate && r.daysBorrowed == b.daysBorrowed && r.fine == b.fine
    ensures (p.title.Some? ==> r.title == p.title.value) && (p.title.None? ==> r.title == b.title)
    ensures (p.author.Some? ==> r.author == p.author.value) && (p.author.None? ==> r.author == b.author)
    ensures (p.isbn.Some? ==> r.isbn == p.isbn.value) && (p.isbn.None? ==> r.isbn == b.isbn)
    ensures (p.category.Some? ==> r.category == p.category.value) && (p.category.None? ==> r.category == b.category)
  {
    b.(title := p.title.GetOr(b.title), author := p.author.GetOr(b.author),
       isbn := p.isbn.GetOr(b.isbn), category := p.category.GetOr(b.category))
  }

  /** Merges an edit into a member: supplied fields replace the old ones, nothing else changes. */
  function PatchMember(m: Member, p: MemberPatch): (r: Member)
    ensures p == MemberPatch(None, None, None) ==> r == m
    ensures r.id == m.id && r.membershipDate == m.membershipDate && r.borrowedBooks == m.borrowedBooks
    ensures (p.name.Some? ==> r.name == p.name.value) && (p.name.None? ==> r.name == m.name)
    ensures (p.email.Some? ==> r.email == p.email.value) && (p.email.None? ==> r.email == m.email)
    ensures (p.phone.Some? ==> r.phone == p.phone.value) && (p.phone.None? ==> r.phone == m.phone)
  {
    m.(name := p.name.GetOr(m.name), email := p.email.GetOr(m.email), phone := p.phone.GetOr(m.phone))
  }

  /** Applying the same edit twice leaves the record as applying it once. */
  lemma PatchIdempotent(b: Book, p: BookPatch, m: Member, q: MemberPatch)
    ensures PatchBook(PatchBook(b, p), p) == PatchBook(b, p)
    ensures PatchMember(PatchMember(m, q), q) == PatchMember(m, q)
  {
  }
}
