/**
 The Library facade as an object over the record store. Each method runs its
 guard chain step by step, returns at the first failing check, and otherwise
 updates the store's maps; each is proved to agree with the matching function
 of Catalog, whose properties are proved there and in Lifecycle.
 */
module LibraryFacade {
  import opened Validators
  import opened Catalog
  import opened Lifecycle

  class Library {
    /** The record store: books by ISBN, users by ID, open loans by ISBN. */
    var books: map<string, Book>
    var users: map<string, User>
    var loans: map<string, string>

    function State(): (s: Store)
      reads this
    {
      Store(books, users, loans)
    }

    /** A facade over a record store that already holds `db`. */
    constructor (db: Store)
      ensures State() == db
    {
      books, users, loans := db.books, db.users, db.loans;
    }

    method AddBook(book: Nullable<Book>) returns (status: Status)
      modifies this
      ensures Step(status, State()) == Catalog.AddBook(old(State()), book)
      ensures Valid(old(State())) ==> Valid(State())
    {
      AddBookKeepsValid(State(), book);
      if book.Null? {
        return Rejected(InvalidBook);
      }
      var b := book.value;
      if !ValidIsbn(b.isbn) {
        return Rejected(InvalidIsbn);
      }
      if !ValidTitle(b.title) {
        return Rejected(InvalidTitle);
      }
      if !ValidAuthor(b.author) {
        return Rejected(InvalidAuthor);
      }
      if b.borrowed {
        return Rejected(InvalidBorrowedState);
      }
      if b.isbn.value in books {
        return Rejected(BookAlreadyExists);
      }
      books := books[b.isbn.value := b];
      status := Done;
    }

    method BorrowBook(isbn: Nullable<string>, userId: Nullable<string>) returns (status: Status)
      modifies this
      ensures Step(status, State()) == Catalog.BorrowBook(old(State()), isbn, userId)
      ensures Valid(old(State())) ==> Valid(State())
    {
      BorrowBookKeepsValid(State(), isbn, userId);
      if !ValidIsbn(isbn) {
        return Rejected(InvalidIsbn);
      }
      if isbn.value !in books {
        return Rejected(BookMissing);
      }
      var book := books[isbn.value];
      if !ValidUserId(userId) {
        return Rejected(InvalidUserIdLower);
      }
      if userId.value !in users {
        return Rejected(UserMissing);
      }
      if book.borrowed {
        return Rejected(BookIsAlreadyBorrowed);
      }
      books := books[isbn.value := book.(borrowed := true)];
      loans := loans[isbn.value := userId.value];
      status := Done;
    }

    method ReturnBook(isbn: Nullable<string>) returns (status: Status)
      modifies this
      ensures Step(status, State()) == Catalog.ReturnBook(old(State()), isbn)
      ensures Valid(old(State())) ==> Valid(State())
    {
      ReturnBookKeepsValid(State(), isbn);
      if !ValidIsbn(isbn) {
        return Rejected(InvalidIsbn);
      }
      if isbn.value !in books {
        return Rejected(BookMissing);
      }
      var book := books[isbn.value];
      if !book.borrowed {
        return Rejected(BookWasNotBorrowed);
      }
      books := books[isbn.value := book.(borrowed := false)];
      loans := loans - {isbn.value};
      status := Done;
    }

    method RegisterUser(user: Nullable<User>) returns (status: Status)
      modifies this
      ensures Step(status, State()) == Catalog.RegisterUser(old(State()), user)
      ensures Valid(old(State())) ==> Valid(State())
    {
      RegisterUserKeepsValid(State(), user);
      if user.Null? {
        return Rejected(InvalidUser);
      }
      var u := user.value;
      if !ValidUserId(u.id) {
        return Rejected(InvalidUserIdUpper);
      }
      if !ValidTitle(u.name) {
        return Rejected(InvalidUserName);
      }
      if u.notificationService.Null? {
        return Rejected(InvalidUserAddress);
      }
      if u.id.value in users {
        return Rejected(UserAlreadyExists);
      }
      users := users[u.id.value := u];
      status := Done;
    }

    /** The strict notification: every failure reaches the caller. */
    method NotifyUserWithBookReviews(isbn: Nullable<string>, userId: Nullable<string>,
                                     fetch: ReviewFetch, delivered: bool) returns (status: Status)
      ensures status == Catalog.Notify(State(), isbn, userId, fetch, delivered)
    {
      if !ValidIsbn(isbn) {
        return Rejected(InvalidIsbn);
      }
      if !ValidUserId(userId) {
        return Rejected(InvalidUserIdLower);
      }
      if isbn.value !in books {
        return Rejected(BookMissing);
      }
      if userId.value !in users {
        return Rejected(NotifyUserMissing);
      }
      if books[isbn.value].borrowed {
        return Rejected(NotifyBookBorrowed);
      }
      if fetch.Unavailable? {
        return Rejected(ReviewServiceDown);
      }
      if fetch.reviews.Null? || |fetch.reviews.value| == 0 {
        return Rejected(NoReviews);
      }
      if !delivered {
        return Rejected(NotificationFailure);
      }
      status := Done;
    }

    /** Looks a book up and runs the lenient notification, whose failure is
        absorbed: the result does not depend on `fetch` or `delivered`. */
    method GetBookByIsbn(isbn: Nullable<string>, userId: Nullable<string>,
                         fetch: ReviewFetch, delivered: bool) returns (r: Result<Book>)
      ensures r == Catalog.GetBookByIsbn(State(), isbn, userId)
    {
      if !ValidIsbn(isbn) {
        return Err(InvalidIsbn);
      }
      if !ValidUserId(userId) {
        return Err(InvalidUserIdUpper);
      }
      if isbn.value !in books {
        return Err(LookupBookMissing);
      }
      var book := books[isbn.value];
      if book.borrowed {
        return Err(LookupBookBorrowed);
      }
      var notified := NotifyUserWithBookReviews(isbn, userId, fetch, delivered);
      r := Ok(book);
    }
  }

  /** A borrow-and-return session as a caller sees it through the contracts:
      a new book is added (twice), returned too early, lent to a newly
      registered user (twice), and given back. The statuses come out in that
      order, and the session ends with the book Available and the store
      still valid. */
  method LendingSession(db: Store, book: Book, user: User) returns (statuses: seq<Status>, after: Store)
    requires Valid(db)
    requires book.isbn.NonNull? && book.isbn.value !in db.books
    requires user.id.NonNull? && user.id.value !in db.users
    requires WellFormedBook(book) && !book.borrowed && WellFormedUser(user)
    ensures statuses == [Done, Rejected(BookAlreadyExists), Rejected(BookWasNotBorrowed), Done,
                         Done, Rejected(BookIsAlreadyBorrowed), Done]
    ensures Valid(after)
    ensures after.books == db.books[book.isbn.value := book]
    ensures after.users == db.users[user.id.value := user]
    ensures after.loans == db.loans
  {
    var k := book.isbn.value;
    assert k !in db.loans;
    var library := new Library(db);
    var added := library.AddBook(NonNull(book));
    assert added == Done;
    var again := library.AddBook(NonNull(book));
    assert again == Rejected(BookAlreadyExists);
    var early := library.ReturnBook(book.isbn);
    assert early == Rejected(BookWasNotBorrowed);
    var registered := library.RegisterUser(NonNull(user));
    assert registered == Done;
    assert library.books == db.books[k := book] && library.loans == db.loans;
    var borrowed := library.BorrowBook(book.isbn, user.id);
    assert borrowed == Done;
    assert library.books == db.books[k := book][k := book.(borrowed := true)];
    assert library.loans == db.loans[k := user.id.value];
    var twice := library.BorrowBook(book.isbn, user.id);
    assert twice == Rejected(BookIsAlreadyBorrowed);
    var returned := library.ReturnBook(book.isbn);
    assert returned == Done;
    BookRestored(db.books[k := book], k);
    LoanClosed(db.loans, k, user.id.value);
    statuses := [added, again, early, registered, borrowed, twice, returned];
    after := library.State();
  }
}
