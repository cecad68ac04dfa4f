/**
 The library facade as pure functions over the record store: each operation
 runs its guard chain and either fails with the call site's exact exception
 kind and message, leaving the store as it was, or performs its one state
 change. Each argument's format is checked before the store lookup that uses
 it; borrowBook looks the book up before it checks the user ID, and addBook
 checks the borrowed flag before it looks for a duplicate.
 */
module Catalog {
  import opened Validators

  /** The notification channel a user is reached through (opaque). */
  datatype Channel = Channel(handle: nat)

  datatype Book = Book(isbn: Nullable<string>, title: Nullable<string>, author: Nullable<string>, borrowed: bool)

  datatype User = User(id: Nullable<string>, name: Nullable<string>, notificationService: Nullable<Channel>)

  /** The Java exception class a failure is thrown as. */
  datatype Kind =
    | IllegalArgument
    | BookNotFound
    | UserNotRegistered
    | BookAlreadyBorrowed
    | BookNotBorrowed
    | NoReviewsFound
    | ReviewServiceUnavailable
    | NotificationFailed

  datatype Failure = Failure(kind: Kind, message: string)

  /** Outcome of an operation that returns nothing. */
  datatype Status = Done | Rejected(failure: Failure)

  /** Outcome of an operation that returns a value. */
  datatype Result<T> = Ok(value: T) | Err(failure: Failure)

  /** What the review service answers: a transient error, or a possibly-null
      list of reviews. */
  datatype ReviewFetch = Unavailable | Fetched(reviews: Nullable<seq<string>>)

  /** The record store: books by ISBN, users by ID, and the open loans
      (ISBN of a borrowed book to the ID of its borrower). */
  datatype Store = Store(books: map<string, Book>, users: map<string, User>, loans: map<string, string>)

  /** An operation's outcome together with the store after it. */
  datatype Step = Step(status: Status, store: Store)

  const InvalidBook := Failure(IllegalArgument, "Invalid book.")
  const InvalidIsbn := Failure(IllegalArgument, "Invalid ISBN.")
  const InvalidTitle := Failure(IllegalArgument, "Invalid title.")
  const InvalidAuthor := Failure(IllegalArgument, "Invalid author.")
  const InvalidBorrowedState := Failure(IllegalArgument, "Book with invalid borrowed state.")
  const BookAlreadyExists := Failure(IllegalArgument, "Book already exists.")
  const BookMissing := Failure(BookNotFound, "Book not found!")
  /** borrowBook and notifyUserWithBookReviews spell it "Id". */
  const InvalidUserIdLower := Failure(IllegalArgument, "Invalid user Id.")
  /** getBookByISBN and registerUser spell it "ID". */
  const InvalidUserIdUpper := Failure(IllegalArgument, "Invalid user ID.")
  const UserMissing := Failure(UserNotRegistered, "User not found!")
  const BookIsAlreadyBorrowed := Failure(BookAlreadyBorrowed, "Book is already borrowed!")
  const BookWasNotBorrowed := Failure(BookNotBorrowed, "Book wasn't borrowed!")
  const NotifyUserMissing := Failure(BookNotFound, "User not found!")
  const NotifyBookBorrowed := Failure(BookAlreadyBorrowed, "Book already borrowed!")
  /** The test suite never shows this message; the wording is the model's. */
  const ReviewServiceDown := Failure(ReviewServiceUnavailable, "Review service unavailable!")
  const NoReviews := Failure(NoReviewsFound, "No reviews found!")
  /** The test suite never shows this message; the wording is the model's. */
  const NotificationFailure := Failure(NotificationFailed, "Notification failed!")
  const LookupBookMissing := Failure(BookNotFound, "Book not found.")
  /** The test suite never shows this message; the wording is the model's. */
  const LookupBookBorrowed := Failure(BookAlreadyBorrowed, "Book was already borrowed!")
  const InvalidUser := Failure(IllegalArgument, "Invalid user.")
  const InvalidUserName := Failure(IllegalArgument, "Invalid user name.")
  const InvalidUserAddress := Failure(IllegalArgument, "Invalid user address.")
  const UserAlreadyExists := Failure(IllegalArgument, "User already exists.")

  /** A book whose ISBN, title and author pass their validators. */
  predicate WellFormedBook(b: Book) {
    ValidIsbn(b.isbn) && ValidTitle(b.title) && ValidAuthor(b.author)
  }

  /** A user with a valid ID, a non-empty name and a notification channel. */
  predicate WellFormedUser(u: User) {
    ValidUserId(u.id) && ValidTitle(u.name) && u.notificationService.NonNull?
  }

  /** The store invariant the facade keeps: every record is well formed and
      filed under its own key, and a book is borrowed exactly when an open
      loan to a registered user records it. */
  predicate Valid(s: Store) {
    && (forall k :: k in s.books ==> s.books[k].isbn == NonNull(k) && WellFormedBook(s.books[k]))
    && (forall k :: k in s.users ==> s.users[k].id == NonNull(k) && WellFormedUser(s.users[k]))
    && (forall k :: k in s.loans ==> k in s.books && s.books[k].borrowed && s.loans[k] in s.users)
    && (forall k :: k in s.books && s.books[k].borrowed ==> k in s.loans)
  }

  /** addBook: null book, ISBN, title, author, borrowed flag, duplicate. */
  function AddBook(s: Store, book: Nullable<Book>): (r: Step)
    ensures r.status == Done <==>
      book.NonNull? && WellFormedBook(book.value) && !book.value.borrowed && book.value.isbn.value !in s.books
    ensures r.status == Done ==> r.store == s.(books := s.books[book.value.isbn.value := book.value])
    ensures r.status != Done ==> r.store == s
  {
    if book.Null? then Step(Rejected(InvalidBook), s)
    else
      var b := book.value;
      if !ValidIsbn(b.isbn) then Step(Rejected(InvalidIsbn), s)
      else if !ValidTitle(b.title) then Step(Rejected(InvalidTitle), s)
      else if !ValidAuthor(b.author) then Step(Rejected(InvalidAuthor), s)
      else if b.borrowed then Step(Rejected(InvalidBorrowedState), s)
      else if b.isbn.value in s.books then Step(Rejected(BookAlreadyExists), s)
      else Step(Done, s.(books := s.books[b.isbn.value := b]))
  }

  /** borrowBook: ISBN format, book existence, user-ID format, user existence,
      borrowed flag; on success the book is borrowed and the loan recorded. */
  function BorrowBook(s: Store, isbn: Nullable<string>, userId: Nullable<string>): (r: Step)
    ensures r.status == Done <==>
      && ValidIsbn(isbn) && isbn.value in s.books
      && ValidUserId(userId) && userId.value in s.users
      && !s.books[isbn.value].borrowed
    ensures r.status == Done ==>
      && r.store.books == s.books[isbn.value := s.books[isbn.value].(borrowed := true)]
      && r.store.loans == s.loans[isbn.value := userId.value]
      && r.store.users == s.users
    ensures r.status != Done ==> r.store == s
  {
    if !ValidIsbn(isbn) then Step(Rejected(InvalidIsbn), s)
    else if isbn.value !in s.books then Step(Rejected(BookMissing), s)
    else if !ValidUserId(userId) then Step(Rejected(InvalidUserIdLower), s)
    else if userId.value !in s.users then Step(Rejected(UserMissing), s)
    else if s.books[isbn.value].borrowed then Step(Rejected(BookIsAlreadyBorrowed), s)
    else
      var b := s.books[isbn.value];
      Step(Done, s.(books := s.books[isbn.value := b.(borrowed := true)],
                    loans := s.loans[isbn.value := userId.value]))
  }

  /** returnBook: ISBN format, book existence, borrowed flag; on success the
      book is available again and its loan closed. */
  function ReturnBook(s: Store, isbn: Nullable<string>): (r: Step)
    ensures r.status == Done <==>
      ValidIsbn(isbn) && isbn.value in s.books && s.books[isbn.value].borrowed
    ensures r.status == Done ==>
      && r.store.books == s.books[isbn.value := s.books[isbn.value].(borrowed := false)]
      && r.store.loans == s.loans - {isbn.value}
      && r.store.users == s.users
    ensures r.status != Done ==> r.store == s
  {
    if !ValidIsbn(isbn) then Step(Rejected(InvalidIsbn), s)
    else if isbn.value !in s.books then Step(Rejected(BookMissing), s)
    else if !s.books[isbn.value].borrowed then Step(Rejected(BookWasNotBorrowed), s)
    else
      var b := s.books[isbn.value];
      Step(Done, s.(books := s.books[isbn.value := b.(borrowed := false)],
                    loans := s.loans - {isbn.value}))
  }

  /** registerUser: null user, user ID, name, notification channel, duplicate. */
  function RegisterUser(s: Store, user: Nullable<User>): (r: Step)
    ensures r.status == Done <==>
      user.NonNull? && WellFormedUser(user.value) && user.value.id.value !in s.users
    ensures r.status == Done ==> r.store == s.(users := s.users[user.value.id.value := user.value])
    ensures r.status != Done ==> r.store == s
  {
    if user.Null? then Step(Rejected(InvalidUser), s)
    else
      var u := user.value;
      if !ValidUserId(u.id) then Step(Rejected(InvalidUserIdUpper), s)
      else if !ValidTitle(u.name) then Step(Rejected(InvalidUserName), s)
      else if u.notificationService.Null? then Step(Rejected(InvalidUserAddress), s)
      else if u.id.value in s.users then Step(Rejected(UserAlreadyExists), s)
      else Step(Done, s.(users := s.users[u.id.value := u]))
  }

  /** The guard chain of notifyUserWithBookReviews, with the review fetch and
      the delivery as given outcomes. It changes nothing in the store. */
  function Notify(s: Store, isbn: Nullable<string>, userId: Nullable<string>, fetch: ReviewFetch, delivered: bool): (r: Status)
    ensures r == Done <==>
      && ValidIsbn(isbn) && ValidUserId(userId)
      && isbn.value in s.books && userId.value in s.users
      && !s.books[isbn.value].borrowed
      && fetch.Fetched? && fetch.reviews.NonNull? && |fetch.reviews.value| > 0
      && delivered
  {
    if !ValidIsbn(isbn) then Rejected(InvalidIsbn)
    else if !ValidUserId(userId) then Rejected(InvalidUserIdLower)
    else if isbn.value !in s.books then Rejected(BookMissing)
    else if userId.value !in s.users then Rejected(NotifyUserMissing)
    else if s.books[isbn.value].borrowed then Rejected(NotifyBookBorrowed)
    else if fetch.Unavailable? then Rejected(ReviewServiceDown)
    else if fetch.reviews.Null? || |fetch.reviews.value| == 0 then Rejected(NoReviews)
    else if !delivered then Rejected(NotificationFailure)
    else Done
  }

  /** getBookByISBN: ISBN format, user-ID format, existence, borrowed flag;
      then the book is returned whatever becomes of the notification. */
  function GetBookByIsbn(s: Store, isbn: Nullable<string>, userId: Nullable<string>): (r: Result<Book>)
    ensures r.Ok? <==>
      ValidIsbn(isbn) && ValidUserId(userId) && isbn.value in s.books && !s.books[isbn.value].borrowed
    ensures r.Ok? ==> r.value == s.books[isbn.value]
  {
    if !ValidIsbn(isbn) then Err(InvalidIsbn)
    else if !ValidUserId(userId) then Err(InvalidUserIdUpper)
    else if isbn.value !in s.books then Err(LookupBookMissing)
    else if s.books[isbn.value].borrowed then Err(LookupBookBorrowed)
    else Ok(s.books[isbn.value])
  }

  // ---------------------------------------------------------------------------
  // Each state-changing operation keeps the store invariant
  // ---------------------------------------------------------------------------

  lemma AddBookKeepsValid(s: Store, book: Nullable<Book>)
    ensures Valid(s) ==> Valid(AddBook(s, book).store)
  {
  }

  lemma BorrowBookKeepsValid(s: Store, isbn: Nullable<string>, userId: Nullable<string>)
    ensures Valid(s) ==> Valid(BorrowBook(s, isbn, userId).store)
  {
  }

  lemma ReturnBookKeepsValid(s: Store, isbn: Nullable<string>)
    ensures Valid(s) ==> Valid(ReturnBook(s, isbn).store)
  {
  }

  lemma RegisterUserKeepsValid(s: Store, user: Nullable<User>)
    ensures Valid(s) ==> Valid(RegisterUser(s, user).store)
  {
  }
}
