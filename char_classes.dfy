/**
 The four character classes a password can draw from, written out exactly as
 Python's `string.ascii_uppercase`, `string.ascii_lowercase`, `string.digits`
 and `string.punctuation`, and the facts about them that make the pool of
 enabled classes free of repeats.
 */
module CharClasses {
  import opened Sequences

  const AsciiUppercase: string := "ABCDEFGHIJKLMNOPQRSTUVWXYZ"
  const AsciiLowercase: string := "abcdefghijklmnopqrstuvwxyz"
  const DigitChars: string := "0123456789"
  const Punctuation: string := "!\"#$%&'()*+,-./:;<=>?@[\\]^_`{|}~"

  datatype CharClass = Uppercase | Lowercase | Digit | Symbol

  /** The characters of a class, in the order Python lists them. */
  function Chars(c: CharClass): (s: string)
    ensures |s| == match c
                   case Uppercase => 26
                   case Lowercase => 26
                   case Digit => 10
                   case Symbol => 32
  {
    match c
    case Uppercase => AsciiUppercase
    case Lowercase => AsciiLowercase
    case Digit => DigitChars
    case Symbol => Punctuation
  }

  /** The band of code points that holds a class: letters, digits, and the
      printable ASCII characters that are neither. */
  predicate InBand(c: CharClass, ch: char) {
    match c
    case Uppercase => 'A' <= ch <= 'Z'
    case Lowercase => 'a' <= ch <= 'z'
    case Digit => '0' <= ch <= '9'
    case Symbol => '!' <= ch <= '~' && !('A' <= ch <= 'Z') && !('a' <= ch <= 'z') && !('0' <= ch <= '9')
  }

  /** Code points strictly increase from each character to the next. */
  predicate Ascending(s: string) {
    forall i :: 0 < i < |s| ==> s[i - 1] < s[i]
  }

  lemma {:induction false} AscendingOrdered(s: string, i: nat, j: nat)
    requires Ascending(s)
    requires i < j < |s|
    ensures s[i] < s[j]
    decreases j - i
  {
    if i + 1 < j {
      AscendingOrdered(s, i, j - 1);
    }
  }

  lemma AscendingDistinct(s: string)
    requires Ascending(s)
    ensures Distinct(s)
  {
    forall i, j | 0 <= i < j < |s| ensures s[i] != s[j] {
      AscendingOrdered(s, i, j);
    }
  }

  /** A class is listed in increasing code-point order, inside its band. */
  predicate LaidOut(c: CharClass) {
    Ascending(Chars(c)) && forall ch :: ch in Chars(c) ==> InBand(c, ch)
  }

  // One lemma per literal keeps each proof obligation small.
  lemma UppercaseLaidOut()
    ensures LaidOut(Uppercase)
  {
  }

  lemma LowercaseLaidOut()
    ensures LaidOut(Lowercase)
  {
  }

  lemma DigitLaidOut()
    ensures LaidOut(Digit)
  {
  }

  lemma SymbolLaidOut()
    ensures LaidOut(Symbol)
  {
    PunctuationAscending();
    PunctuationInBand();
  }

  lemma PunctuationAscending()
    ensures Ascending(Punctuation)
  {
    assert forall i :: 0 < i < 16 ==> Punctuation[i - 1] < Punctuation[i];
    assert forall i :: 16 <= i < 32 ==> Punctuation[i - 1] < Punctuation[i];
  }

  lemma PunctuationInBand()
    ensures forall ch :: ch in Punctuation ==> InBand(Symbol, ch)
  {
  }

  lemma ClassLayout(c: CharClass)
    ensures LaidOut(c)
  {
    match c
    case Uppercase => UppercaseLaidOut();
    case Lowercase => LowercaseLaidOut();
    case Digit => DigitLaidOut();
    case Symbol => SymbolLaidOut();
  }

  /** No class lists a character twice. */
  lemma ClassHasNoRepeats(c: CharClass)
    ensures Distinct(Chars(c))
  {
    ClassLayout(c);
    AscendingDistinct(Chars(c));
  }

  /** Two different classes share no character. */
  lemma ClassesDisjoint(c: CharClass, d: CharClass, ch: char)
    requires c != d
    requires ch in Chars(c)
    ensures ch !in Chars(d)
  {
    ClassLayout(c);
    ClassLayout(d);
  }
}
