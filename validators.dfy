/**
 The input validators of the library facade: ISBN-13, user ID, title and
 author name. Every validator takes a possibly-null Java string and is a pure
 predicate; the facade turns a `false` into an invalid-argument failure with
 a fixed message.
 */
module Validators {

  /** A Java reference that may be null. */
  datatype Nullable<T> = Null | NonNull(value: T)

  // ---------------------------------------------------------------------------
  // Decimal digits
  // ---------------------------------------------------------------------------

  predicate IsDigit(c: char) {
    '0' <= c <= '9'
  }

  predicate AllDigits(s: string) {
    forall i :: 0 <= i < |s| ==> IsDigit(s[i])
  }

  function DigitValue(c: char): (d: nat)
    requires IsDigit(c)
    ensures d < 10
  {
    c as int - '0' as int
  }

  function DigitChar(d: nat): (c: char)
    requires d < 10
    ensures IsDigit(c) && DigitValue(c) == d
  {
    ('0' as int + d) as char
  }

  /** Two digits with the same value are the same character. */
  lemma DigitValueInjective(c: char, c': char)
    requires IsDigit(c) && IsDigit(c') && c != c'
    ensures DigitValue(c) != DigitValue(c')
  {
  }

  // ---------------------------------------------------------------------------
  // ISBN-13 (ISO 2108): weights 1 and 3 alternate from the left,
  // and the weighted sum of all thirteen digits is a multiple of 10.
  // ---------------------------------------------------------------------------

  /** Weight of the digit at 0-based position `i`. */
  function Weight(i: nat): (w: nat) {
    if i % 2 == 0 then 1 else 3
  }

  /** Weighted digit sum of `s`, positions counted from 0 on the left. */
  function Checksum(s: string): (sum: nat)
    requires AllDigits(s)
  {
    if s == [] then 0
    else Checksum(s[..|s| - 1]) + Weight(|s| - 1) * DigitValue(s[|s| - 1])
  }

  predicate IsIsbn13(s: string) {
    |s| == 13 && AllDigits(s) && Checksum(s) % 10 == 0
  }

  /** The ISBN validator: non-null, 13 decimal digits, valid check digit. */
  predicate ValidIsbn(isbn: Nullable<string>) {
    isbn.NonNull? && IsIsbn13(isbn.value)
  }

  /** The check digit that completes a 12-digit ISBN payload. */
  function CheckDigit(payload: string): (d: nat)
    requires |payload| == 12 && AllDigits(payload)
    ensures d < 10 && (Checksum(payload) + d) % 10 == 0
  {
    (10 - Checksum(payload) % 10) % 10
  }


  /** A 13-digit string is an ISBN exactly when its last digit is the check
      digit of its first twelve. */
  lemma IsbnByCheckDigit(s: string)
    requires |s| == 13 && AllDigits(s)
    ensures IsIsbn13(s) <==> DigitValue(s[12]) == CheckDigit(s[..12])
  {
  }

  /** Changing the digit at position `i` changes the checksum by that
      position's weight times the change of the digit. */
  lemma {:induction false} ChecksumDifference(s: string, t: string, i: nat)
    requires |s| == |t| && AllDigits(s) && AllDigits(t) && i < |s|
    requires forall j :: 0 <= j < |s| && j != i ==> s[j] == t[j]
    ensures Checksum(t) - Checksum(s) == Weight(i) * (DigitValue(t[i]) - DigitValue(s[i]))
    decreases |s|
  {
    var n := |s| - 1;
    if i == n {
      assert s[..n] == t[..n];
    } else {
      ChecksumDifference(s[..n], t[..n], i);
    }
  }

  lemma WeightedChangeNotMultipleOfTen(w: nat, k: int)
    requires w == 1 || w == 3
    requires -10 < k < 10 && k != 0
    ensures (w * k) % 10 != 0
  {
  }

  /** The ISBN-13 check digit detects every single-digit error. */
  lemma SingleDigitErrorDetected(s: string, t: string, i: nat)
    requires IsIsbn13(s) && |t| == 13 && AllDigits(t) && i < 13
    requires t[i] != s[i]
    requires forall j :: 0 <= j < 13 && j != i ==> s[j] == t[j]
    ensures !IsIsbn13(t)
  {
    ChecksumDifference(s, t, i);
    DigitValueInjective(t[i], s[i]);
    var k := DigitValue(t[i]) - DigitValue(s[i]);
    WeightedChangeNotMultipleOfTen(Weight(i), k);
    ShiftByMultipleOfTen(Checksum(t), Checksum(s));
  }

  lemma ShiftByMultipleOfTen(a: int, b: int)
    requires b % 10 == 0
    ensures (a - b) % 10 == a % 10
  {
  }

  // ---------------------------------------------------------------------------
  // User IDs: exactly twelve decimal digits
  // ---------------------------------------------------------------------------

  predicate IsUserId(s: string) {
    |s| == 12 && AllDigits(s)
  }

  /** The user-ID validator. */
  predicate ValidUserId(id: Nullable<string>) {
    id.NonNull? && IsUserId(id.value)
  }

  function Pow10(n: nat): (p: nat)
    ensures p >= 1
  {
    if n == 0 then 1 else 10 * Pow10(n - 1)
  }

  /** The `width` lowest decimal digits of `n`, most significant first. */
  function Numeral(n: nat, width: nat): (s: string)
    ensures |s| == width && AllDigits(s)
  {
    if width == 0 then [] else Numeral(n / 10, width - 1) + [DigitChar(n % 10)]
  }

  /** The number a string of decimal digits denotes. */
  function NumeralValue(s: string): (n: nat)
    requires AllDigits(s)
    ensures n < Pow10(|s|)
  {
    if s == [] then 0
    else
      var high := NumeralValue(s[..|s| - 1]);
      assert high <= Pow10(|s| - 1) - 1;
      10 * high + DigitValue(s[|s| - 1])
  }

  lemma {:induction false} ValueOfNumeral(n: nat, width: nat)
    requires n < Pow10(width)
    ensures NumeralValue(Numeral(n, width)) == n
  {
    if width > 0 {
      var s := Numeral(n, width);
      assert s[..width - 1] == Numeral(n / 10, width - 1);
      ValueOfNumeral(n / 10, width - 1);
    }
  }

  lemma {:induction false} NumeralOfValue(s: string)
    requires AllDigits(s)
    ensures Numeral(NumeralValue(s), |s|) == s
  {
    if s != [] {
      var n := |s| - 1;
      var high, d := NumeralValue(s[..n]), DigitValue(s[n]);
      assert NumeralValue(s) == 10 * high + d;
      SplitLastDigit(high, d);
      NumeralOfValue(s[..n]);
      assert DigitChar(d) == s[n];
      assert s == s[..n] + [s[n]];
    }
  }

  lemma SplitLastDigit(high: nat, d: nat)
    requires d < 10
    ensures (10 * high + d) / 10 == high && (10 * high + d) % 10 == d
  {
  }

  /** The valid user IDs are exactly the zero-padded twelve-digit numerals of
      the numbers below 10^12. */
  lemma UserIdsAreNumerals(s: string)
    ensures IsUserId(s) <==> exists n: nat :: n < Pow10(12) && s == Numeral(n, 12)
  {
    if IsUserId(s) {
      NumeralOfValue(s);
      var n := NumeralValue(s);
      assert n < Pow10(12) && s == Numeral(n, 12);
    }
  }

  // ---------------------------------------------------------------------------
  // Titles
  // ---------------------------------------------------------------------------

  /** The title validator: non-null and non-empty. */
  predicate ValidTitle(title: Nullable<string>) {
    title.NonNull? && |title.value| > 0
  }

  // ---------------------------------------------------------------------------
  // Author names: runs of letters separated by single '.', '-', '\'' or ' '
  // ---------------------------------------------------------------------------

  predicate IsLetter(c: char) {
    'a' <= c <= 'z' || 'A' <= c <= 'Z'
  }

  predicate IsSeparator(c: char) {
    c == '.' || c == '-' || c == '\'' || c == ' '
  }

  /** The author rule as checked character by character: letters first and
      last, only letters and separators, and no separator right after another. */
  predicate IsAuthorName(s: string) {
    && |s| > 0
    && IsLetter(s[0])
    && IsLetter(s[|s| - 1])
    && (forall i :: 0 <= i < |s| ==> IsLetter(s[i]) || IsSeparator(s[i]))
    && (forall i :: 0 < i < |s| && IsSeparator(s[i]) ==> !IsSeparator(s[i - 1]))
  }

  /** The author validator. */
  predicate ValidAuthor(author: Nullable<string>) {
    author.NonNull? && IsAuthorName(author.value)
  }

  /** A non-empty run of letters. */
  predicate IsWord(w: string) {
    |w| > 0 && forall i :: 0 <= i < |w| ==> IsLetter(w[i])
  }

  /** words[0] seps[0] words[1] ... seps[n-1] words[n] */
  function Join(words: seq<string>, seps: seq<char>): (name: string)
    requires |words| == |seps| + 1
    decreases seps
  {
    if seps == [] then words[0]
    else words[0] + [seps[0]] + Join(words[1..], seps[1..])
  }

  /** Length of the longest prefix of `s` made of letters. */
  function LetterRun(s: string): (n: nat)
    ensures n <= |s|
    ensures forall i :: 0 <= i < n ==> IsLetter(s[i])
    ensures n < |s| ==> !IsLetter(s[n])
  {
    if s == [] || !IsLetter(s[0]) then 0 else 1 + LetterRun(s[1..])
  }

  /** Cuts `s` after each maximal run of letters: the runs and the single
      characters between them. */
  function Split(s: string): (r: (seq<string>, seq<char>))
    ensures |r.0| == |r.1| + 1
    decreases |s|
  {
    var n := LetterRun(s);
    if n == |s| then ([s], [])
    else
      var rest := Split(s[n + 1..]);
      ([s[..n]] + rest.0, [s[n]] + rest.1)
  }

  /** Splitting and joining again gives back the original string. */
  lemma {:induction false} JoinSplit(s: string)
    ensures Join(Split(s).0, Split(s).1) == s
    decreases |s|
  {
    var n := LetterRun(s);
    if n < |s| {
      var t := s[n + 1..];
      var rest := Split(t);
      JoinSplit(t);
      var words, seps := [s[..n]] + rest.0, [s[n]] + rest.1;
      assert Split(s) == (words, seps);
      assert words[1..] == rest.0 && seps[1..] == rest.1;
      calc {
        Join(words, seps);
        words[0] + [seps[0]] + Join(words[1..], seps[1..]);
        s[..n] + [s[n]] + t;
        s;
      }
    }
  }

  /** Every valid author name is a join of words by single separators. */
  lemma {:induction false} AuthorNameSplitsIntoWords(s: string)
    requires IsAuthorName(s)
    ensures forall k :: 0 <= k < |Split(s).0| ==> IsWord(Split(s).0[k])
    ensures forall k :: 0 <= k < |Split(s).1| ==> IsSeparator(Split(s).1[k])
    ensures Join(Split(s).0, Split(s).1) == s
    decreases |s|
  {
    JoinSplit(s);
    var n := LetterRun(s);
    if n < |s| {
      var t := s[n + 1..];
      AuthorNameTail(s);
      AuthorNameSplitsIntoWords(t);
      var rest := Split(t);
      var words, seps := [s[..n]] + rest.0, [s[n]] + rest.1;
      assert Split(s) == (words, seps);
      assert IsWord(s[..n]);
      forall k | 0 < k < |words|
        ensures IsWord(words[k])
      {
        assert words[k] == rest.0[k - 1];
      }
      forall k | 0 < k < |seps|
        ensures IsSeparator(seps[k])
      {
        assert seps[k] == rest.1[k - 1];
      }
    }
  }

  /** After the first run of letters of an author name comes a separator and
      then another author name. */
  lemma AuthorNameTail(s: string)
    requires IsAuthorName(s) && LetterRun(s) < |s|
    ensures IsSeparator(s[LetterRun(s)])
    ensures IsAuthorName(s[LetterRun(s) + 1..])
  {
  }

  /** Every join of words by single separators is a valid author name. */
  lemma {:induction false} JoinedWordsAreAuthorName(words: seq<string>, seps: seq<char>)
    requires |words| == |seps| + 1
    requires forall k :: 0 <= k < |words| ==> IsWord(words[k])
    requires forall k :: 0 <= k < |seps| ==> IsSeparator(seps[k])
    ensures IsAuthorName(Join(words, seps))
    decreases seps
  {
    if seps != [] {
      var w := words[0];
      var rest := Join(words[1..], seps[1..]);
      JoinedWordsAreAuthorName(words[1..], seps[1..]);
      var s := Join(words, seps);
      assert s == w + [seps[0]] + rest;
      assert IsWord(w);
      assert |s| == |w| + 1 + |rest|;
      assert s[|s| - 1] == rest[|rest| - 1];
      forall i | 0 <= i < |s|
        ensures IsLetter(s[i]) || IsSeparator(s[i])
      {
        if i < |w| {
          assert s[i] == w[i];
        } else if i > |w| {
          assert s[i] == rest[i - |w| - 1];
        }
      }
      forall i | 0 < i < |s| && IsSeparator(s[i])
        ensures !IsSeparator(s[i - 1])
      {
        if i == |w| {
          assert s[i - 1] == w[|w| - 1];
        } else if i > |w| + 1 {
          assert s[i] == rest[i - |w| - 1] && s[i - 1] == rest[i - |w| - 2];
        }
      }
    }
  }
}
