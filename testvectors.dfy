/**
 The concrete cases the library's test suite pins down, stated against the
 model: which ISBNs, user IDs and author names the validators accept, and
 which failure each guard chain reports for the suite's inputs.
 */
module TestVectors {
  import opened Validators
  import opened Catalog
  import opened Lifecycle

  const Zeros := "0000000000000"

  /** The weighted sum of a 13-digit string, term by term. */
  lemma ChecksumExpanded(s: string)
    requires |s| == 13 && AllDigits(s)
    ensures Checksum(s) ==
      DigitValue(s[0]) + 3 * DigitValue(s[1]) + DigitValue(s[2]) + 3 * DigitValue(s[3])
      + DigitValue(s[4]) + 3 * DigitValue(s[5]) + DigitValue(s[6]) + 3 * DigitValue(s[7])
      + DigitValue(s[8]) + 3 * DigitValue(s[9]) + DigitValue(s[10]) + 3 * DigitValue(s[11])
      + DigitValue(s[12])
  {
    assert s[..13] == s;
    forall n | 0 <= n < 13
      ensures Checksum(s[..n + 1]) == Checksum(s[..n]) + Weight(n) * DigitValue(s[n])
    {
      assert s[..n + 1][..n] == s[..n];
    }
    assert s[..0] == [];
  }

  lemma IsbnAccepted()
    ensures IsIsbn13(Zeros) && IsIsbn13("1290000000004")
  {
    ChecksumExpanded(Zeros);
    ChecksumExpanded("1290000000004");
  }

  /** One wrong digit in an accepted ISBN: the single-digit error property
      rejects it without recomputing the checksum. */
  lemma IsbnBadCheckDigit()
    ensures !IsIsbn13("1000000000000") && !IsIsbn13("0000000000001")
    ensures !IsIsbn13("1290000000003")
  {
    IsbnAccepted();
    SingleDigitErrorDetected(Zeros, "1000000000000", 0);
    SingleDigitErrorDetected(Zeros, "0000000000001", 12);
    SingleDigitErrorDetected("1290000000004", "1290000000003", 12);
  }

  lemma IsbnAllOnes()
    ensures !IsIsbn13("1111111111111")
  {
    ChecksumExpanded("1111111111111");
  }

  lemma IsbnMalformed()
    ensures !ValidIsbn(Null) && !ValidIsbn(NonNull(""))
    ensures !IsIsbn13("00000000000a1") && !IsIsbn13("0---000000000001") && !IsIsbn13("a111111111111")
    ensures !IsIsbn13("00000000000000") && !IsIsbn13("000000000000") && !IsIsbn13("11111111111")
    ensures !IsIsbn13("aaaaaaaaaaaa") && !IsIsbn13("            ")
  {
    assert !IsDigit("00000000000a1"[11]);
    assert !IsDigit("a111111111111"[0]);
  }

  /** The ISBN cases of the suite: one accepted, the others rejected. */
  lemma IsbnCases()
    ensures IsIsbn13(Zeros) && IsIsbn13("1290000000004")
    ensures !ValidIsbn(Null) && !ValidIsbn(NonNull(""))
    ensures !IsIsbn13("1000000000000") && !IsIsbn13("0000000000001") && !IsIsbn13("1290000000003")
    ensures !IsIsbn13("1111111111111")
    ensures !IsIsbn13("00000000000a1") && !IsIsbn13("0---000000000001") && !IsIsbn13("a111111111111")
    ensures !IsIsbn13("00000000000000") && !IsIsbn13("000000000000") && !IsIsbn13("11111111111")
    ensures !IsIsbn13("aaaaaaaaaaaa") && !IsIsbn13("            ")
  {
    IsbnAccepted();
    IsbnBadCheckDigit();
    IsbnAllOnes();
    IsbnMalformed();
  }

  lemma UserIdCases()
    ensures IsUserId("111111111111")
    ensures !ValidUserId(Null) && !ValidUserId(NonNull(""))
    ensures !IsUserId("a111111111111") && !IsUserId("11111111111") && !IsUserId("1111111111111")
    ensures !IsUserId("aaaaaaaaaaaa") && !IsUserId("            ") && !IsUserId("123AbC111111")
  {
    assert !IsDigit("aaaaaaaaaaaa"[0]) && !IsDigit("            "[0]) && !IsDigit("123AbC111111"[3]);
  }

  lemma AuthorAccepted()
    ensures IsAuthorName("a.a") && IsAuthorName("a-a") && IsAuthorName("a'a")
    ensures IsAuthorName("a a") && IsAuthorName("aa") && IsAuthorName("AUTHOR")
  {
  }

  lemma AuthorRejected()
    ensures !ValidAuthor(Null) && !IsAuthorName("")
    ensures !IsAuthorName("a3") && !IsAuthorName("3a") && !IsAuthorName("a3a") && !IsAuthorName("3")
    ensures !IsAuthorName("@") && !IsAuthorName("-aa-")
    ensures !IsAuthorName("a--a") && !IsAuthorName("a''a")
  {
    assert !IsLetter("a3a"[1]) && !IsSeparator("a3a"[1]);
    assert IsSeparator("a--a"[2]) && IsSeparator("a--a"[1]);
    assert IsSeparator("a''a"[2]) && IsSeparator("a''a"[1]);
  }

  function TestBook(isbn: Nullable<string>, title: Nullable<string>, author: Nullable<string>, borrowed: bool): (b: Book) {
    Book(isbn, title, author, borrowed)
  }

  /** The suite's rejected inputs, each set in full. */
  const SuiteBadIsbns: set<Nullable<string>> :=
    {Null, NonNull(""), NonNull("1000000000000"), NonNull("0000000000001"), NonNull("00000000000a1"),
     NonNull("0---000000000001"), NonNull("00000000000000"), NonNull("000000000000")}
  const SuiteBadTitles: set<Nullable<string>> := {Null, NonNull("")}
  const SuiteBadAuthors: set<Nullable<string>> :=
    {Null, NonNull(""), NonNull("a3"), NonNull("3a"), NonNull("a3a"), NonNull("3"), NonNull("@"),
     NonNull("-aa-"), NonNull("a--a"), NonNull("a''a")}
  const SuiteBadUserIds: set<Nullable<string>> :=
    {Null, NonNull(""), NonNull("a111111111111"), NonNull("11111111111"), NonNull("1111111111111"),
     NonNull("aaaaaaaaaaaa"), NonNull("            ")}

  lemma TitleCases()
    ensures ValidTitle(NonNull("TITLE")) && ValidTitle(NonNull("Test User"))
    ensures forall title | title in SuiteBadTitles :: !ValidTitle(title)
  {
  }

  /** Every invalid ISBN of the suite, with the other fields left null. */
  lemma AddBookRejectsSuiteIsbns(s: Store)
    ensures forall isbn | isbn in SuiteBadIsbns ::
      AddBook(s, NonNull(TestBook(isbn, Null, Null, false))).status == Rejected(InvalidIsbn)
  {
    IsbnCases();
    forall isbn | isbn in SuiteBadIsbns
      ensures AddBook(s, NonNull(TestBook(isbn, Null, Null, false))).status == Rejected(InvalidIsbn)
    {
      AddBookChecksFieldsInOrder(s, TestBook(isbn, Null, Null, false));
    }
  }

  /** Every missing title of the suite, behind a valid ISBN. */
  lemma AddBookRejectsSuiteTitles(s: Store)
    ensures forall title | title in SuiteBadTitles ::
      AddBook(s, NonNull(TestBook(NonNull(Zeros), title, Null, false))).status == Rejected(InvalidTitle)
  {
    IsbnAccepted();
    TitleCases();
    forall title | title in SuiteBadTitles
      ensures AddBook(s, NonNull(TestBook(NonNull(Zeros), title, Null, false))).status == Rejected(InvalidTitle)
    {
      AddBookChecksFieldsInOrder(s, TestBook(NonNull(Zeros), title, Null, false));
    }
  }

  /** Every invalid author of the suite, behind a valid ISBN and title. */
  lemma AddBookRejectsSuiteAuthors(s: Store)
    ensures forall a | a in SuiteBadAuthors ::
      AddBook(s, NonNull(TestBook(NonNull(Zeros), NonNull("TITLE"), a, false))).status == Rejected(InvalidAuthor)
  {
    IsbnAccepted();
    AuthorRejected();
    forall a | a in SuiteBadAuthors
      ensures AddBook(s, NonNull(TestBook(NonNull(Zeros), NonNull("TITLE"), a, false))).status == Rejected(InvalidAuthor)
    {
      AddBookChecksFieldsInOrder(s, TestBook(NonNull(Zeros), NonNull("TITLE"), a, false));
    }
  }

  lemma AddBookCases(s: Store, author: string)
    requires author in {"a.a", "a-a", "a'a", "a a", "aa"}
    ensures AddBook(s, Null).status == Rejected(InvalidBook)
    ensures AddBook(s, NonNull(TestBook(NonNull(Zeros), NonNull("TITLE"), NonNull("AUTHOR"), true))).status == Rejected(InvalidBorrowedState)
    ensures Zeros in s.books ==>
      AddBook(s, NonNull(TestBook(NonNull(Zeros), NonNull("TITLE"), NonNull("AUTHOR"), false))).status == Rejected(BookAlreadyExists)
    ensures Zeros !in s.books ==>
      var b := TestBook(NonNull(Zeros), NonNull("TITLE"), NonNull(author), false);
      AddBook(s, NonNull(b)) == Step(Done, s.(books := s.books[Zeros := b]))
  {
    IsbnAccepted();
    AuthorAccepted();
  }

  lemma BorrowBookCases(s: Store)
    ensures BorrowBook(s, Null, NonNull("1")).status == Rejected(InvalidIsbn)
    ensures Zeros !in s.books ==> BorrowBook(s, NonNull(Zeros), NonNull("1")).status == Rejected(BookMissing)
    ensures Zeros in s.books ==> forall id | id in SuiteBadUserIds ::
      BorrowBook(s, NonNull(Zeros), id).status == Rejected(InvalidUserIdLower)
    ensures Zeros in s.books && "111111111111" !in s.users ==>
      BorrowBook(s, NonNull(Zeros), NonNull("111111111111")).status == Rejected(UserMissing)
    ensures Zeros in s.books && "111111111111" in s.users && s.books[Zeros].borrowed ==>
      BorrowBook(s, NonNull(Zeros), NonNull("111111111111")).status == Rejected(BookIsAlreadyBorrowed)
    ensures Zeros in s.books && "111111111111" in s.users && !s.books[Zeros].borrowed ==>
      BorrowBook(s, NonNull(Zeros), NonNull("111111111111")).store.books[Zeros].borrowed
  {
    IsbnCases();
    UserIdCases();
  }

  lemma ReturnBookCases(s: Store)
    ensures ReturnBook(s, NonNull("a111111111111")).status == Rejected(InvalidIsbn)
    ensures Zeros !in s.books ==> ReturnBook(s, NonNull(Zeros)).status == Rejected(BookMissing)
    ensures Zeros in s.books && !s.books[Zeros].borrowed ==> ReturnBook(s, NonNull(Zeros)).status == Rejected(BookWasNotBorrowed)
    ensures Zeros in s.books && s.books[Zeros].borrowed ==> !ReturnBook(s, NonNull(Zeros)).store.books[Zeros].borrowed
  {
    IsbnCases();
  }

  lemma NotifyCases(s: Store, fetch: ReviewFetch, delivered: bool)
    ensures Notify(s, Null, NonNull("111111111111"), fetch, delivered) == Rejected(InvalidIsbn)
    ensures Notify(s, NonNull(Zeros), Null, fetch, delivered) == Rejected(InvalidUserIdLower)
    ensures Notify(s, NonNull(Zeros), NonNull("123AbC111111"), fetch, delivered) == Rejected(InvalidUserIdLower)
    ensures Zeros !in s.books ==>
      Notify(s, NonNull(Zeros), NonNull("111111111111"), fetch, delivered) == Rejected(BookMissing)
    ensures Zeros in s.books && "111111111111" !in s.users ==>
      Notify(s, NonNull(Zeros), NonNull("111111111111"), fetch, delivered) == Rejected(NotifyUserMissing)
    ensures Zeros in s.books && "111111111111" in s.users && s.books[Zeros].borrowed ==>
      Notify(s, NonNull(Zeros), NonNull("111111111111"), fetch, delivered) == Rejected(NotifyBookBorrowed)
    ensures Zeros in s.books && "111111111111" in s.users && !s.books[Zeros].borrowed ==>
      && Notify(s, NonNull(Zeros), NonNull("111111111111"), Fetched(Null), delivered) == Rejected(NoReviews)
      && Notify(s, NonNull(Zeros), NonNull("111111111111"), Fetched(NonNull([])), delivered) == Rejected(NoReviews)
  {
    IsbnCases();
    UserIdCases();
  }

  lemma GetBookByIsbnCases(s: Store)
    ensures GetBookByIsbn(s, NonNull("0000000000001"), NonNull("111111111111")) == Err(InvalidIsbn)
    ensures GetBookByIsbn(s, NonNull(Zeros), Null) == Err(InvalidUserIdUpper)
    ensures GetBookByIsbn(s, NonNull(Zeros), NonNull("11111111111")) == Err(InvalidUserIdUpper)
    ensures Zeros !in s.books ==> GetBookByIsbn(s, NonNull(Zeros), NonNull("111111111111")) == Err(LookupBookMissing)
  {
    IsbnCases();
    UserIdCases();
  }

  lemma RegisterUserCases(s: Store, c: Channel)
    ensures RegisterUser(s, Null).status == Rejected(InvalidUser)
    ensures forall id | id in SuiteBadUserIds ::
      RegisterUser(s, NonNull(User(id, Null, Null))).status == Rejected(InvalidUserIdUpper)
    ensures RegisterUser(s, NonNull(User(NonNull("111111111111"), Null, Null))).status == Rejected(InvalidUserName)
    ensures RegisterUser(s, NonNull(User(NonNull("111111111111"), NonNull(""), Null))).status == Rejected(InvalidUserName)
    ensures RegisterUser(s, NonNull(User(NonNull("111111111111"), NonNull("Test User"), Null))).status == Rejected(InvalidUserAddress)
    ensures "111111111111" in s.users ==>
      RegisterUser(s, NonNull(User(NonNull("111111111111"), NonNull("Test User"), NonNull(c)))).status == Rejected(UserAlreadyExists)
  {
    UserIdCases();
  }
}
