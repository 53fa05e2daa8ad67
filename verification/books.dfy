/** BookUsercase: the book use cases over the book repository. The caller's
    authentication, which the source reads from the security context holder,
    is passed in explicitly. */
module Books {
  import opened Wrappers
  import opened Time
  import opened Security
  import opened StringUtils

  type BookId = int

  datatype Book = Book(
    id: BookId,
    title: string,
    author: string,
    createdAt: LocalDateTime,
    updatedAt: LocalDateTime)

  /** The exceptions the use cases throw. */
  datatype Exception =
    | IllegalArgumentException(message: string)
    | RuntimeException(message: string)

  const TITLE_AND_AUTHOR_REQUIRED := "Title and author are required"
  const BOOK_NOT_FOUND := "Book not found"
  const NOT_AUTHORIZED := "You are not authorized to update this book"

  /** The blank-field check of create and update: both fields have text. */
  predicate FieldsHaveText(title: Option<string>, author: Option<string>)
    ensures FieldsHaveText(title, author) <==>
              && title.Some? && (exists i :: 0 <= i < |title.value| && !IsWhitespace(title.value[i]))
              && author.Some? && (exists j :: 0 <= j < |author.value| && !IsWhitespace(author.value[j]))
  {
    HasText(title) && HasText(author)
  }

  /** The anyMatch of update over the caller's authorities: some authority is
      ROLE_PUBLISHER, or is ROLE_AUTHOR while the stored author is the
      caller's name. */
  function AnyAuthorityGrants(authorities: seq<string>, name: string, storedAuthor: string): (b: bool)
    ensures b <==> exists i :: 0 <= i < |authorities| &&
                     (authorities[i] == ROLE_PUBLISHER || (authorities[i] == ROLE_AUTHOR && storedAuthor == name))
  {
    if authorities == [] then false
    else authorities[0] == ROLE_PUBLISHER
         || (authorities[0] == ROLE_AUTHOR && storedAuthor == name)
         || AnyAuthorityGrants(authorities[1..], name, storedAuthor)
  }

  /** update's authorization decision for `auth` on the stored `book`. */
  predicate IsAuthorized(auth: Authentication, book: Book)
    ensures IsAuthorized(auth, book) ==> HasRole(auth, ROLE_PUBLISHER) || HasRole(auth, ROLE_AUTHOR)
    ensures HasRole(auth, ROLE_PUBLISHER) ==> IsAuthorized(auth, book)
  {
    AnyAuthorityGrants(auth.authorities, auth.name, book.author)
  }

  /** The anyMatch decision in closed form. */
  lemma AnyAuthorityGrantsIff(authorities: seq<string>, name: string, storedAuthor: string)
    ensures AnyAuthorityGrants(authorities, name, storedAuthor) <==>
              ROLE_PUBLISHER in authorities || (ROLE_AUTHOR in authorities && storedAuthor == name)
  {
  }

  /** update is authorized exactly for a publisher, or for an author who is
      the book's stored author. */
  lemma IsAuthorizedIff(auth: Authentication, book: Book)
    ensures IsAuthorized(auth, book) <==>
              HasRole(auth, ROLE_PUBLISHER) || (HasRole(auth, ROLE_AUTHOR) && book.author == auth.name)
  {
  }

  /** The book table behind BookRepository. */
  class BookRepository {
    var books: map<BookId, Book>

    /** Every book is stored under its own id. */
    ghost predicate Valid()
      reads this
    {
      forall id :: id in books ==> books[id].id == id
    }

    constructor ()
      ensures Valid() && books == map[]
    {
      books := map[];
    }

    /** findById: the stored book, or none. */
    method FindById(id: BookId) returns (r: Option<Book>)
      ensures id in books ==> r == Some(books[id])
      ensures id !in books ==> r == None
    {
      r := if id in books then Some(books[id]) else None;
    }

    /** save: the book is stored under its id, replacing any book there. */
    method Save(book: Book) returns (saved: Book)
      requires Valid()
      modifies this
      ensures Valid()
      ensures saved == book && books == old(books)[book.id := book]
    {
      books := books[book.id := book];
      saved := book;
    }
  }

  class BookUsercase {
    const bookRepository: BookRepository

    constructor (bookRepository: BookRepository)
      ensures this.bookRepository == bookRepository
    {
      this.bookRepository := bookRepository;
    }

    /** findById: the stored book for a present id, null for an absent one. */
    method FindById(id: BookId) returns (r: Option<Book>)
      ensures r.Some? <==> id in bookRepository.books
      ensures r.Some? ==> r.value == bookRepository.books[id]
    {
      r := bookRepository.FindById(id);
    }

    /** findAll: every stored book. */
    method FindAll() returns (r: set<Book>)
      requires bookRepository.Valid()
      ensures forall id :: id in bookRepository.books ==> bookRepository.books[id] in r
      ensures forall b :: b in r ==> b.id in bookRepository.books && bookRepository.books[b.id] == b
    {
      var books := bookRepository.books;
      r := set id | id in books :: books[id];
    }

    /** create: a blank title or author throws and saves nothing; otherwise
        one new book with the arguments verbatim is saved under the fresh id
        the database assigns, and no existing book changes. */
    method Create(title: Option<string>, author: Option<string>, newId: BookId,
                  createdAt: LocalDateTime, updatedAt: LocalDateTime)
      returns (r: Result<Book, Exception>)
      requires bookRepository.Valid()
      requires newId !in bookRepository.books
      modifies bookRepository
      ensures bookRepository.Valid()
      ensures !FieldsHaveText(title, author) ==>
                r == Failure(IllegalArgumentException(TITLE_AND_AUTHOR_REQUIRED))
                && bookRepository.books == old(bookRepository.books)
      ensures FieldsHaveText(title, author) ==>
                && r.Success?
                && r.value == Book(newId, title.value, author.value, createdAt, updatedAt)
                && bookRepository.books.Keys == old(bookRepository.books.Keys) + {newId}
                && bookRepository.books[newId] == r.value
                && forall id :: id in old(bookRepository.books) ==>
                     bookRepository.books[id] == old(bookRepository.books[id])
    {
      if !HasText(title) || !HasText(author) {
        return Failure(IllegalArgumentException(TITLE_AND_AUTHOR_REQUIRED));
      }
      var book := Book(newId, title.value, author.value, createdAt, updatedAt);
      book := bookRepository.Save(book);
      r := Success(book);
    }

    /** update: the fields are checked before the lookup; an absent id throws
        "Book not found"; a caller that is neither a publisher nor the stored
        book's author throws; otherwise title and author are replaced, id and
        createdAt kept, and no other book changes. */
    method Update(id: BookId, title: Option<string>, author: Option<string>,
                  auth: Authentication, updatedAt: LocalDateTime)
      returns (r: Result<Book, Exception>)
      requires bookRepository.Valid()
      modifies bookRepository
      ensures bookRepository.Valid()
      ensures !FieldsHaveText(title, author) ==>
                r == Failure(IllegalArgumentException(TITLE_AND_AUTHOR_REQUIRED))
                && bookRepository.books == old(bookRepository.books)
      ensures FieldsHaveText(title, author) && id !in old(bookRepository.books) ==>
                r == Failure(IllegalArgumentException(BOOK_NOT_FOUND))
                && bookRepository.books == old(bookRepository.books)
      ensures FieldsHaveText(title, author) && id in old(bookRepository.books)
              && !IsAuthorized(auth, old(bookRepository.books[id])) ==>
                r == Failure(RuntimeException(NOT_AUTHORIZED))
                && bookRepository.books == old(bookRepository.books)
      ensures FieldsHaveText(title, author) && id in old(bookRepository.books)
              && IsAuthorized(auth, old(bookRepository.books[id])) ==>
                && r.Success?
                && r.value.id == id
                && r.value.title == title.value && r.value.author == author.value
                && r.value.createdAt == old(bookRepository.books[id].createdAt)
                && r.value.updatedAt == updatedAt
                && bookRepository.books == old(bookRepository.books)[id := r.value]
    {
      if !HasText(title) || !HasText(author) {
        return Failure(IllegalArgumentException(TITLE_AND_AUTHOR_REQUIRED));
      }
      var found := bookRepository.FindById(id);
      if found.None? {
        return Failure(IllegalArgumentException(BOOK_NOT_FOUND));
      }
      var book := found.value;
      if !IsAuthorized(auth, book) {
        return Failure(RuntimeException(NOT_AUTHORIZED));
      }
      book := book.(title := title.value, author := author.value, updatedAt := updatedAt);
      book := bookRepository.Save(book);
      r := Success(book);
    }
  }
}
