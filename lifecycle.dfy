/**
 Properties that relate several calls of the facade: the Available ->
 Borrowed -> Available cycle of a book, duplicate rejection, and the order in
 which the guard chains report failures.
 */
module Lifecycle {
  import opened Validators
  import opened Catalog

  /** After a successful addBook, looking the ISBN up returns exactly the
      added book. */
  lemma AddedBookIsFound(s: Store, b: Book, userId: Nullable<string>)
    requires AddBook(s, NonNull(b)).status == Done
    requires ValidUserId(userId)
    ensures GetBookByIsbn(AddBook(s, NonNull(b)).store, b.isbn, userId) == Ok(b)
  {
  }

  /** Adding the same book twice: the second call reports a duplicate. */
  lemma AddTwiceRejected(s: Store, book: Nullable<Book>)
    requires AddBook(s, book).status == Done
    ensures AddBook(AddBook(s, book).store, book).status == Rejected(BookAlreadyExists)
  {
  }

  /** A book that was just added has never been borrowed, so it cannot be
      returned. */
  lemma NewBookCannotBeReturned(s: Store, b: Book)
    requires AddBook(s, NonNull(b)).status == Done
    ensures ReturnBook(AddBook(s, NonNull(b)).store, b.isbn).status == Rejected(BookWasNotBorrowed)
  {
  }

  /** Borrowing and then returning a book restores the store exactly:
      the book is Available again and no loan remains. */
  lemma {:induction false} BorrowThenReturnRestores(s: Store, isbn: Nullable<string>, userId: Nullable<string>)
    requires Valid(s)
    requires BorrowBook(s, isbn, userId).status == Done
    ensures ReturnBook(BorrowBook(s, isbn, userId).store, isbn) == Step(Done, s)
  {
    var k := isbn.value;
    var b := s.books[k];
    assert k !in s.loans;
    var t := BorrowBook(s, isbn, userId).store;
    assert t.books[k] == b.(borrowed := true);
    var r := ReturnBook(t, isbn);
    BookRestored(s.books, k);
    LoanClosed(s.loans, k, userId.value);
    assert r.store.books == s.books;
    assert r.store.loans == s.loans;
  }

  lemma BookRestored(books: map<string, Book>, k: string)
    requires k in books && !books[k].borrowed
    ensures books[k := books[k].(borrowed := true)][k := books[k].(borrowed := true).(borrowed := false)] == books
  {
  }

  lemma LoanClosed(loans: map<string, string>, k: string, userId: string)
    requires k !in loans
    ensures loans[k := userId] - {k} == loans
  {
  }

  /** A borrowed book cannot be borrowed again, by anyone registered. */
  lemma BorrowTwiceRejected(s: Store, isbn: Nullable<string>, userId: Nullable<string>, other: Nullable<string>)
    requires BorrowBook(s, isbn, userId).status == Done
    requires ValidUserId(other) && other.value in s.users
    ensures BorrowBook(BorrowBook(s, isbn, userId).store, isbn, other).status == Rejected(BookIsAlreadyBorrowed)
  {
  }

  /** While a book is borrowed, nobody is notified of its reviews and
      getBookByISBN refuses it. */
  lemma BorrowedBookIsWithheld(s: Store, isbn: Nullable<string>, userId: Nullable<string>,
                               other: Nullable<string>, fetch: ReviewFetch, delivered: bool)
    requires BorrowBook(s, isbn, userId).status == Done
    requires ValidUserId(other) && other.value in s.users
    ensures Notify(BorrowBook(s, isbn, userId).store, isbn, other, fetch, delivered) == Rejected(NotifyBookBorrowed)
    ensures GetBookByIsbn(BorrowBook(s, isbn, userId).store, isbn, other) == Err(LookupBookBorrowed)
  {
  }

  /** Registering the same user twice: the second call reports a duplicate. */
  lemma RegisterTwiceRejected(s: Store, user: Nullable<User>)
    requires RegisterUser(s, user).status == Done
    ensures RegisterUser(RegisterUser(s, user).store, user).status == Rejected(UserAlreadyExists)
  {
  }

  /** Format before existence: a malformed ISBN is reported as such by every
      operation that takes one, whatever the store and the other arguments. */
  lemma MalformedIsbnReportedFirst(s: Store, isbn: Nullable<string>, userId: Nullable<string>,
                                   fetch: ReviewFetch, delivered: bool)
    requires !ValidIsbn(isbn)
    ensures BorrowBook(s, isbn, userId).status == Rejected(InvalidIsbn)
    ensures ReturnBook(s, isbn).status == Rejected(InvalidIsbn)
    ensures Notify(s, isbn, userId, fetch, delivered) == Rejected(InvalidIsbn)
    ensures GetBookByIsbn(s, isbn, userId) == Err(InvalidIsbn)
  {
  }

  /** borrowBook looks the book up before it looks at the user ID: a missing
      book is reported even when the user ID is malformed. */
  lemma BorrowLooksUpBookBeforeUserId(s: Store, isbn: Nullable<string>, userId: Nullable<string>)
    requires ValidIsbn(isbn) && isbn.value !in s.books
    ensures BorrowBook(s, isbn, userId).status == Rejected(BookMissing)
  {
  }

  /** borrowBook checks the user ID's format once the book is found, before
      it looks the user up. */
  lemma BorrowChecksUserIdAfterBook(s: Store, isbn: Nullable<string>, userId: Nullable<string>)
    requires ValidIsbn(isbn) && isbn.value in s.books && !ValidUserId(userId)
    ensures BorrowBook(s, isbn, userId).status == Rejected(InvalidUserIdLower)
  {
  }

  /** addBook checks the book's fields in order: the ISBN whatever the rest,
      the title once the ISBN is valid, the author once both are, and the
      borrowed flag once all three are, before it looks for a duplicate. */
  lemma AddBookChecksFieldsInOrder(s: Store, b: Book)
    ensures !ValidIsbn(b.isbn) ==> AddBook(s, NonNull(b)).status == Rejected(InvalidIsbn)
    ensures ValidIsbn(b.isbn) && !ValidTitle(b.title) ==> AddBook(s, NonNull(b)).status == Rejected(InvalidTitle)
    ensures ValidIsbn(b.isbn) && ValidTitle(b.title) && !ValidAuthor(b.author) ==>
      AddBook(s, NonNull(b)).status == Rejected(InvalidAuthor)
    ensures WellFormedBook(b) && b.borrowed ==> AddBook(s, NonNull(b)).status == Rejected(InvalidBorrowedState)
  {
  }

  /** registerUser checks the user ID first, whatever the name, the channel
      and the store. */
  lemma RegisterChecksUserIdFirst(s: Store, u: User)
    requires !ValidUserId(u.id)
    ensures RegisterUser(s, NonNull(u)).status == Rejected(InvalidUserIdUpper)
  {
  }

  /** notifyUserWithBookReviews and getBookByISBN check the user ID before
      touching the store, each with its own wording. */
  lemma LookupsCheckUserIdBeforeStore(s: Store, isbn: Nullable<string>, userId: Nullable<string>,
                                      fetch: ReviewFetch, delivered: bool)
    requires ValidIsbn(isbn) && !ValidUserId(userId)
    ensures Notify(s, isbn, userId, fetch, delivered) == Rejected(InvalidUserIdLower)
    ensures GetBookByIsbn(s, isbn, userId) == Err(InvalidUserIdUpper)
  {
  }

  /** No reviews, whether the service answers null or an empty list, is one
      and the same failure, and it comes after every store check. */
  lemma MissingReviewsAreOneFailure(s: Store, isbn: Nullable<string>, userId: Nullable<string>, delivered: bool)
    requires ValidIsbn(isbn) && ValidUserId(userId)
    requires isbn.value in s.books && userId.value in s.users && !s.books[isbn.value].borrowed
    ensures Notify(s, isbn, userId, Fetched(Null), delivered) == Rejected(NoReviews)
    ensures Notify(s, isbn, userId, Fetched(NonNull([])), delivered) == Rejected(NoReviews)
  {
  }

  /** Every failure leaves the store as it was, and every operation keeps the
      store invariant, so any sequence of calls does. */
  lemma {:induction false} OperationsKeepValid(s: Store, ops: seq<Op>)
    requires Valid(s)
    ensures Valid(Run(s, ops))
    decreases |ops|
  {
    if ops != [] {
      ApplyKeepsValid(s, ops[0]);
      OperationsKeepValid(Apply(s, ops[0]), ops[1..]);
    }
  }

  lemma ApplyKeepsValid(s: Store, op: Op)
    requires Valid(s)
    ensures Valid(Apply(s, op))
  {
    match op
    case AddBookOp(book) => AddBookKeepsValid(s, book);
    case BorrowBookOp(isbn, userId) => BorrowBookKeepsValid(s, isbn, userId);
    case ReturnBookOp(isbn) => ReturnBookKeepsValid(s, isbn);
    case RegisterUserOp(user) => RegisterUserKeepsValid(s, user);
  }

  /** A call of one of the state-changing operations. */
  datatype Op =
    | AddBookOp(book: Nullable<Book>)
    | BorrowBookOp(isbn: Nullable<string>, userId: Nullable<string>)
    | ReturnBookOp(isbn: Nullable<string>)
    | RegisterUserOp(user: Nullable<User>)

  /** The store after one call. */
  function Apply(s: Store, op: Op): (t: Store)
  {
    match op
    case AddBookOp(book) => AddBook(s, book).store
    case BorrowBookOp(isbn, userId) => BorrowBook(s, isbn, userId).store
    case ReturnBookOp(isbn) => ReturnBook(s, isbn).store
    case RegisterUserOp(user) => RegisterUser(s, user).store
  }

  /** The store after a sequence of calls. */
  function Run(s: Store, ops: seq<Op>): (t: Store)
    decreases |ops|
  {
    if ops == [] then s else Run(Apply(s, ops[0]), ops[1..])
  }
}
