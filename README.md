# Library facade: validators, catalog and lending

This project models the `Library` facade of a small library-catalog system.
The facade has five operations:

- `addBook` puts a book in the catalog.
- `borrowBook` and `returnBook` move a book between Available and Borrowed.
- `registerUser` adds a user.
- `notifyUserWithBookReviews` sends a user the reviews of a book. `getBookByISBN` looks a book up and makes the same notification, but ignores its failure.

Every operation first runs a fixed chain of guards. The first failing guard raises an exception with a fixed message. The messages and the order of the guards are the facade's external contract. The repository's test suite fixes most messages, and it fixes two facts about the order. First, in borrowBook, returnBook, notifyUserWithBookReviews and getBookByISBN, each argument's format is checked before the store lookup that uses it. Second, borrowBook looks the book up before it checks the user ID. Where the suite leaves an order or a message open, the model chooses one, and "## Left out" lists each choice.

The project has four modules and one extra file:

- `Validators` (validators.dfy) holds the pure validators:
  - ISBN: 13 decimal digits with the ISBN-13 check digit of ISO 2108 (weights 1 and 3 alternate, and the weighted sum is a multiple of 10).
  - User ID: exactly twelve decimal digits.
  - Title: non-null and non-empty.
  - Author name: runs of letters separated by single `.`, `-`, `'` or space characters.

  Its lemmas relate the ISBN, user-ID and author validators to a reference definition:
  - the ISBN validator to the check digit, including detection of every single-digit error;
  - the user-ID validator to the twelve-digit numerals;
  - the author validator to the join of letter words by separators, in both directions.
- `Catalog` (catalog.dfy) specifies each operation as a pure function over the record store. The store has three maps: books by ISBN, users by ID, and open loans from ISBN to borrower. Each function's contract says:
  - exactly when the call succeeds;
  - what the new store is;
  - that a failure leaves the store unchanged.

  One lemma per state-changing operation proves that it keeps the store invariant `Valid`. `Valid` says every record is well formed and filed under its own key, and a book is borrowed exactly when an open loan records it.
- `Lifecycle` (lifecycle.dfy) proves properties that span several calls:
  - borrow-then-return restores the store exactly;
  - adding or registering twice is refused;
  - a new book cannot be returned;
  - each operation's guards report failures in the suite's order; a malformed ISBN is reported before any store lookup;
  - every sequence of operations keeps `Valid`.
- `LibraryFacade` (library.dfy) has the `Library` class. Its map fields are updated in place by methods that run the guard chains step by step, and each method is proved equal to its `Catalog` function.
- testvectors.dfy (module `TestVectors`) holds the test suite's concrete inputs and the failure each one must produce.

A Java `null` is `Nullable.Null`. An exception is a `Failure` value made of a `Kind` (the exception class) and its message.

## Model

| member | source | states |
|---|---|---|
| Validators.Checksum | src/test/java/ac/il/bgu/qa/TestLibrary.java:47-58 | the ISBN-13 weighted digit sum, weights 1 and 3 alternating from the first digit (partner: CheckDigit, IsbnByCheckDigit) |
| Validators.IsIsbn13 | src/test/java/ac/il/bgu/qa/TestLibrary.java:47-58 | a string is an ISBN-13 when it has 13 decimal digits and its weighted sum is a multiple of 10 (partner: IsbnByCheckDigit, SingleDigitErrorDetected) |
| Validators.ValidIsbn | src/test/java/ac/il/bgu/qa/TestLibrary.java:47-58 | the ISBN validator: non-null and an ISBN-13 |
| Validators.IsUserId | src/test/java/ac/il/bgu/qa/TestLibrary.java:167-179 | a user ID is exactly twelve decimal digits (partner: UserIdsAreNumerals) |
| Validators.ValidUserId | src/test/java/ac/il/bgu/qa/TestLibrary.java:167-179 | the user-ID validator: non-null and twelve decimal digits |
| Validators.ValidTitle | src/test/java/ac/il/bgu/qa/TestLibrary.java:61-74 | the title validator, also used for user names: non-null and non-empty (partner: TestVectors.TitleCases) |
| Validators.IsAuthorName | src/test/java/ac/il/bgu/qa/TestLibrary.java:76-90 | an author name starts and ends with a letter, has only letters and separators, and no two separators in a row (partner: AuthorNameSplitsIntoWords, JoinedWordsAreAuthorName) |
| Validators.ValidAuthor | src/test/java/ac/il/bgu/qa/TestLibrary.java:76-90 | the author validator: non-null and an author name |
| Validators.CheckDigit | src/test/java/ac/il/bgu/qa/TestLibrary.java:47-58 | the digit, below 10, that makes a 12-digit payload's weighted sum a multiple of 10 |
| Validators.IsbnByCheckDigit | src/test/java/ac/il/bgu/qa/TestLibrary.java:47-58 | a 13-digit string passes the ISBN validator exactly when its last digit is the check digit of its first twelve |
| Validators.ChecksumDifference | src/test/java/ac/il/bgu/qa/TestLibrary.java:47-58 | changing one digit changes the weighted sum by that position's weight times the change |
| Validators.SingleDigitErrorDetected | src/test/java/ac/il/bgu/qa/TestLibrary.java:47-58 | a valid ISBN with any single digit changed is rejected (as "0000000000001" is beside "0000000000000") |
| Validators.DigitChar | src/test/java/ac/il/bgu/qa/TestLibrary.java:167-179 | helper of UserIdsAreNumerals, for the numeral reference definition: the digit character of a value below 10 is a digit and has that value |
| Validators.NumeralValue | src/test/java/ac/il/bgu/qa/TestLibrary.java:167-179 | helper of UserIdsAreNumerals, for the numeral reference definition: an n-digit string denotes a number below 10^n |
| Validators.ValueOfNumeral | src/test/java/ac/il/bgu/qa/TestLibrary.java:167-179 | helper of UserIdsAreNumerals, for the numeral reference definition: reading back the zero-padded numeral of n gives n |
| Validators.NumeralOfValue | src/test/java/ac/il/bgu/qa/TestLibrary.java:167-179 | helper of UserIdsAreNumerals, for the numeral reference definition: writing out the value of a digit string at its width gives the string back |
| Validators.UserIdsAreNumerals | src/test/java/ac/il/bgu/qa/TestLibrary.java:167-179 | a string passes the user-ID validator exactly when it is the twelve-digit numeral of some number below 10^12 |
| Validators.LetterRun | src/test/java/ac/il/bgu/qa/TestLibrary.java:76-90 | the length of the longest all-letter prefix: letters before it, a non-letter at it |
| Validators.JoinSplit | src/test/java/ac/il/bgu/qa/TestLibrary.java:121-142 | cutting a string after each run of letters and joining the pieces gives the string back |
| Validators.AuthorNameTail | src/test/java/ac/il/bgu/qa/TestLibrary.java:76-90 | in a valid author name the first letter run is followed by one separator and another valid author name |
| Validators.AuthorNameSplitsIntoWords | src/test/java/ac/il/bgu/qa/TestLibrary.java:121-142 | every accepted author name is non-empty letter words joined by single separators |
| Validators.JoinedWordsAreAuthorName | src/test/java/ac/il/bgu/qa/TestLibrary.java:121-142 | every join of non-empty letter words by single separators is accepted as an author name |
| Catalog.AddBook | src/test/java/ac/il/bgu/qa/TestLibrary.java:37-142 | addBook succeeds exactly for a non-null, well-formed, unborrowed book whose ISBN is new; it then files the book under its ISBN and otherwise changes nothing |
| Catalog.BorrowBook | src/test/java/ac/il/bgu/qa/TestLibrary.java:144-228 | borrowBook succeeds exactly for a valid stored ISBN, a valid registered user ID and an unborrowed book; it then marks the book borrowed and records the loan; a failure changes nothing |
| Catalog.ReturnBook | src/test/java/ac/il/bgu/qa/TestLibrary.java:229-282 | returnBook succeeds exactly for a valid stored ISBN of a borrowed book; it then makes the book available and closes the loan; a failure changes nothing |
| Catalog.RegisterUser | src/test/java/ac/il/bgu/qa/TestLibrary.java:540-645 | registerUser succeeds exactly for a non-null user with a valid ID, a non-empty name, a notification channel and a new ID; it then files the user; a failure changes nothing |
| Catalog.Notify | src/test/java/ac/il/bgu/qa/TestLibrary.java:284-469 | the strict notification succeeds exactly when the ISBN and user ID are valid, both records exist, the book is not borrowed, the review list is non-null and non-empty, and delivery succeeds |
| Catalog.GetBookByIsbn | src/test/java/ac/il/bgu/qa/TestLibrary.java:471-538 | getBookByISBN returns the stored book exactly when the ISBN and user ID are valid and the book exists and is not borrowed |
| Catalog.AddBookKeepsValid | src/test/java/ac/il/bgu/qa/TestLibrary.java:37-142 | a successful or failed addBook keeps the store invariant |
| Catalog.BorrowBookKeepsValid | src/test/java/ac/il/bgu/qa/TestLibrary.java:144-228 | a successful or failed borrowBook keeps the store invariant: the borrowed book gets exactly one open loan, to a registered user |
| Catalog.ReturnBookKeepsValid | src/test/java/ac/il/bgu/qa/TestLibrary.java:229-282 | a successful or failed returnBook keeps the store invariant: the returned book's loan is closed |
| Catalog.RegisterUserKeepsValid | src/test/java/ac/il/bgu/qa/TestLibrary.java:540-645 | a successful or failed registerUser keeps the store invariant |
| Lifecycle.AddedBookIsFound | src/test/java/ac/il/bgu/qa/TestLibrary.java:121-142 | after a successful addBook, looking its ISBN up returns exactly the added book |
| Lifecycle.AddTwiceRejected | src/test/java/ac/il/bgu/qa/TestLibrary.java:107-120 | adding the same book again fails with "Book already exists." |
| Lifecycle.NewBookCannotBeReturned | src/test/java/ac/il/bgu/qa/TestLibrary.java:251-262 | a book just added cannot be returned: "Book wasn't borrowed!" |
| Lifecycle.BorrowThenReturnRestores | src/test/java/ac/il/bgu/qa/TestLibrary.java:208-282 | in a valid store, a successful borrow followed by a return succeeds and restores the store exactly (Available -> Borrowed -> Available) |
| Lifecycle.BorrowTwiceRejected | src/test/java/ac/il/bgu/qa/TestLibrary.java:193-206 | a borrowed book cannot be borrowed again by any registered user: "Book is already borrowed!" |
| Lifecycle.BorrowedBookIsWithheld | src/test/java/ac/il/bgu/qa/TestLibrary.java:375-395 | while a book is borrowed, notification fails with "Book already borrowed!" and getBookByISBN with "Book was already borrowed!" |
| Lifecycle.RegisterTwiceRejected | src/test/java/ac/il/bgu/qa/TestLibrary.java:629-645 | registering the same user again fails with "User already exists." |
| Lifecycle.MalformedIsbnReportedFirst | src/test/java/ac/il/bgu/qa/TestLibrary.java:144-153 | a malformed ISBN gives "Invalid ISBN." from borrow, return, notify and lookup, whatever the store and the other arguments |
| Lifecycle.BorrowLooksUpBookBeforeUserId | src/test/java/ac/il/bgu/qa/TestLibrary.java:155-165 | borrowBook reports a missing book even when the user ID is malformed |
| Lifecycle.BorrowChecksUserIdAfterBook | src/test/java/ac/il/bgu/qa/TestLibrary.java:167-179 | once the book is found, a malformed user ID gives "Invalid user Id." from borrowBook, whatever the store's users |
| Lifecycle.AddBookChecksFieldsInOrder | src/test/java/ac/il/bgu/qa/TestLibrary.java:47-106 | addBook reports "Invalid ISBN." for a bad ISBN whatever the rest, "Invalid title." for a bad title behind a valid ISBN, "Invalid author." for a bad author behind both, and "Book with invalid borrowed state." for a well-formed borrowed book |
| Lifecycle.RegisterChecksUserIdFirst | src/test/java/ac/il/bgu/qa/TestLibrary.java:598-612 | registerUser reports "Invalid user ID." for a malformed user ID whatever the name, the channel and the store |
| Lifecycle.LookupsCheckUserIdBeforeStore | src/test/java/ac/il/bgu/qa/TestLibrary.java:301-331 | with a valid ISBN, a malformed user ID is reported before any store lookup, as "Invalid user Id." by notify and "Invalid user ID." by getBookByISBN |
| Lifecycle.MissingReviewsAreOneFailure | src/test/java/ac/il/bgu/qa/TestLibrary.java:397-443 | a null review list and an empty one both give "No reviews found!" |
| Lifecycle.ApplyKeepsValid | src/test/java/ac/il/bgu/qa/TestLibrary.java:37-282 | any one addBook, borrowBook, returnBook or registerUser call keeps the store invariant |
| Lifecycle.OperationsKeepValid | src/test/java/ac/il/bgu/qa/TestLibrary.java:37-282 | every sequence of addBook, borrowBook, returnBook and registerUser calls keeps the store invariant |
| LibraryFacade.Library.constructor | src/test/java/ac/il/bgu/qa/TestLibrary.java:21-27 | a new facade sees exactly the record store it is given |
| LibraryFacade.Library.AddBook | src/test/java/ac/il/bgu/qa/TestLibrary.java:37-142 | the in-place addBook returns Catalog.AddBook's status and leaves the store it specifies |
| LibraryFacade.Library.BorrowBook | src/test/java/ac/il/bgu/qa/TestLibrary.java:144-228 | the in-place borrowBook returns Catalog.BorrowBook's status and leaves the store it specifies |
| LibraryFacade.Library.ReturnBook | src/test/java/ac/il/bgu/qa/TestLibrary.java:229-282 | the in-place returnBook returns Catalog.ReturnBook's status and leaves the store it specifies |
| LibraryFacade.Library.RegisterUser | src/test/java/ac/il/bgu/qa/TestLibrary.java:540-645 | the in-place registerUser returns Catalog.RegisterUser's status and leaves the store it specifies |
| LibraryFacade.Library.NotifyUserWithBookReviews | src/test/java/ac/il/bgu/qa/TestLibrary.java:284-469 | the strict notification reports exactly Catalog.Notify's outcome and changes nothing |
| LibraryFacade.Library.GetBookByIsbn | src/test/java/ac/il/bgu/qa/TestLibrary.java:471-538 | the lookup's result is Catalog.GetBookByIsbn's, whatever the review fetch and delivery outcomes: a notification failure is absorbed |
| LibraryFacade.LendingSession | src/test/java/ac/il/bgu/qa/TestLibrary.java:107-282 | usage scenario of the lending cycle through the class: add, add again, early return, register, borrow, borrow again, return give Done, "Book already exists.", "Book wasn't borrowed!", Done, Done, "Book is already borrowed!", Done; the store ends valid, with the book Available, the user registered and no new loan |
| TestVectors.ChecksumExpanded | src/test/java/ac/il/bgu/qa/TestLibrary.java:47-58 | the weighted sum of a 13-digit string is the sum of its digits with weights 1,3,1,3,... |
| TestVectors.IsbnAccepted | src/test/java/ac/il/bgu/qa/TestLibrary.java:67 | "0000000000000", the suite's accepted ISBN, is an ISBN; "1290000000004" is an extra check-digit example |
| TestVectors.IsbnBadCheckDigit | src/test/java/ac/il/bgu/qa/TestLibrary.java:48 | the suite's "1000000000000" and "0000000000001" fail the check digit, as does the extra example "1290000000003"; each is one digit away from an accepted ISBN |
| TestVectors.IsbnAllOnes | src/test/java/ac/il/bgu/qa/TestLibrary.java:229-238 | "1111111111111" fails the check digit |
| TestVectors.IsbnMalformed | src/test/java/ac/il/bgu/qa/TestLibrary.java:47-58 | null, "", wrong lengths and strings with non-digits are not ISBNs |
| TestVectors.IsbnCases | src/test/java/ac/il/bgu/qa/TestLibrary.java:229-238 | all ISBN cases of the suite together, including the returnBook ones |
| TestVectors.UserIdCases | src/test/java/ac/il/bgu/qa/TestLibrary.java:167-179 | "111111111111" is a user ID; null, "", 11 or 13 characters, letters and twelve spaces are not |
| TestVectors.AuthorAccepted | src/test/java/ac/il/bgu/qa/TestLibrary.java:76-90 | "a.a", "a-a", "a'a", "a a", "aa" and "AUTHOR" are accepted |
| TestVectors.AuthorRejected | src/test/java/ac/il/bgu/qa/TestLibrary.java:76-90 | null, "", "a3", "3a", "a3a", "3", "@", "-aa-", "a--a" and "a''a" are rejected |
| TestVectors.TitleCases | src/test/java/ac/il/bgu/qa/TestLibrary.java:61-74 | "TITLE" and "Test User" are accepted; null and "" are not |
| TestVectors.AddBookRejectsSuiteIsbns | src/test/java/ac/il/bgu/qa/TestLibrary.java:47-58 | every one of the suite's eight invalid ISBNs gives "Invalid ISBN." from addBook |
| TestVectors.AddBookRejectsSuiteTitles | src/test/java/ac/il/bgu/qa/TestLibrary.java:61-74 | null and "" as title give "Invalid title." from addBook |
| TestVectors.AddBookRejectsSuiteAuthors | src/test/java/ac/il/bgu/qa/TestLibrary.java:76-90 | every one of the suite's ten invalid authors gives "Invalid author." from addBook |
| TestVectors.AddBookCases | src/test/java/ac/il/bgu/qa/TestLibrary.java:37-142 | a null book gives "Invalid book.", a borrowed one "Book with invalid borrowed state.", a duplicate "Book already exists."; each of the suite's valid authors is accepted and the book filed under its ISBN |
| TestVectors.BorrowBookCases | src/test/java/ac/il/bgu/qa/TestLibrary.java:144-228 | the suite's borrowBook inputs, including all seven invalid user IDs, give each failure in order, and a successful borrow leaves the book borrowed |
| TestVectors.ReturnBookCases | src/test/java/ac/il/bgu/qa/TestLibrary.java:229-282 | the suite's returnBook inputs give each failure, and a successful return leaves the book available |
| TestVectors.NotifyCases | src/test/java/ac/il/bgu/qa/TestLibrary.java:284-443 | the suite's notification inputs give "Invalid ISBN.", "Invalid user Id.", "Book not found!", "User not found!", "Book already borrowed!" and "No reviews found!" |
| TestVectors.GetBookByIsbnCases | src/test/java/ac/il/bgu/qa/TestLibrary.java:471-538 | the suite's lookup inputs give "Invalid ISBN.", "Invalid user ID." and "Book not found." |
| TestVectors.RegisterUserCases | src/test/java/ac/il/bgu/qa/TestLibrary.java:540-645 | the suite's registerUser inputs give "Invalid user.", "Invalid user ID." (for all seven invalid user IDs), "Invalid user name.", "Invalid user address." and "User already exists." |

## Left out

- The `Library` implementation is not part of this model; only its test suite is, and most of the contract comes from that suite. The suite's wording is kept at every call site, even where call sites differ:
  - When notifyUserWithBookReviews cannot find the user, it raises the BookNotFound kind with "User not found!" (TestLibrary.java:370), not a user-not-registered failure.
  - When getBookByISBN cannot find the book, it says "Book not found." (TestLibrary.java:536), not "Book not found!".
- The suite does not fix some guard orders, and the model picks one:
  - addBook: the duplicate lookup relative to the field checks (the model checks the ISBN, title, author and borrowed flag first, then looks for a duplicate);
  - registerUser: the duplicate lookup relative to the field checks (the model checks the ID, name and notification channel first, then looks for a duplicate);
  - borrowBook: the borrowed flag relative to the user-ID check and the user lookup (the model checks the user ID and looks the user up first, then the flag);
  - notifyUserWithBookReviews: book lookup before user lookup (the model looks the book up first);
  - notifyUserWithBookReviews: the borrowed flag relative to the user lookup (the model looks the user up first, then the flag).
- The suite never shows three messages, and the model supplies them:
  - "Book was already borrowed!" (getBookByISBN on a borrowed book);
  - "Review service unavailable!" (notification when the review service is down);
  - "Notification failed!" (notification when delivery fails).
- Catalog.Notify: notification delivery is one boolean outcome (`delivered`). The retry loop is not modelled: no five-attempt bound, no "Retrying attempt n/5" lines, and no single attempt in the lenient variant. The suite's only delivery test is commented out, so it fixes none of these.
- Catalog.Notify: closing the review service exactly once on every path is not modelled. The review service is replaced by its answer (`ReviewFetch`), passed in per call.
- Catalog.Notify: the text of the notification message ("Reviews for '<title>':" followed by the reviews, one per line) is not built. Only the fact that delivery succeeded or failed matters to the outcome.
- LibraryFacade.Library.GetBookByIsbn: the diagnostic line written when the lenient notification fails is not modelled. All logging and console output is left out.
- The record store and the review service are external collaborators with no code here. The store is the three maps of `Store`. The loan map stands for the store's record of who borrowed a book; the suite never inspects that record.
- A Java `Book` is a mutable object. `borrow()` and `returnBook()` flip the flag on that very object, so anyone holding a reference to it sees the change. The model keeps books as values inside the store's map, so a caller's earlier copy of a book does not change.
- Validators.IsLetter: letters are the ASCII letters `a`-`z` and `A`-`Z`. Other Unicode letters, which Java's `Character.isLetter` would also accept, are not modelled.
- Mockito mocks, JUnit plumbing and the `@BeforeAll` output are test harness, not behaviour.
