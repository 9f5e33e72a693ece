/** The character classes of the protocol code, each given by the text of its characters. */
module Alphabet {
  import opened Bytes

  const UPPER := "ABCDEFGHIJKLMNOPQRSTUVWXYZ"
  const LOWER := "abcdefghijklmnopqrstuvwxyz"
  const DECIMAL := "0123456789"
  const HEX_UPPER := "0123456789ABCDEF"
  const HEX_LOWER := "0123456789abcdef"

  /** The fifteen symbols of a token in section 5.6.2 of RFC 9110. */
  const SYMBOLS := "!#$%&'*+-.^_`|~"

  /** The visible characters of ASCII that are no letter, no digit and no symbol of a token. */
  const DELIMITERS := "\"(),/:;<=>?@[\\]{}"

  predicate In(b: Byte, text: string) {
    b as char in text
  }

  predicate Letter(b: Byte) {
    In(b, UPPER) || In(b, LOWER)
  }

  predicate IsTokenChar(b: Byte) {
    Letter(b) || In(b, DECIMAL) || In(b, SYMBOLS)
  }

  /** A character that is seen when it is printed, or a byte beyond ASCII. */
  predicate IsVisible(b: Byte) {
    IsTokenChar(b) || In(b, DELIMITERS) || b >= 128
  }

  /** What a field value may hold: visible characters, spaces and tabs. */
  predicate IsText(b: Byte) {
    IsVisible(b) || In(b, " \t")
  }

  /** One of the two bytes is the letter k in lower case, the other one in upper case. */
  predicate CasesOf(a: Byte, b: Byte, k: nat)
    requires k < 26
  {
    || (LOWER[k] as int == a && UPPER[k] as int == b)
    || (UPPER[k] as int == a && LOWER[k] as int == b)
  }

  predicate SameLetter(a: Byte, b: Byte) {
    a == b || exists k :: 0 <= k < 26 && CasesOf(a, b, k)
  }

  predicate SameText(a: seq<Byte>, b: seq<Byte>) {
    |a| == |b| && forall i :: 0 <= i < |a| ==> SameLetter(a[i], b[i])
  }

  /** The byte is the hexadecimal digit for k, in one of its cases. */
  predicate HexChar(b: Byte, k: nat) {
    k < 16 && (b == HEX_LOWER[k] as int || b == HEX_UPPER[k] as int)
  }

  // ---------------------------------------------------------------- the classes as ranges

  lemma UpperRange(b: Byte)
    ensures In(b, UPPER) <==> 65 <= b <= 90
  {
  }

  lemma LowerRange(b: Byte)
    ensures In(b, LOWER) <==> 97 <= b <= 122
  {
  }

  lemma LetterRange(b: Byte)
    ensures In(b, UPPER) <==> 65 <= b <= 90
    ensures In(b, LOWER) <==> 97 <= b <= 122
  {
    hide In;
    UpperRange(b);
    LowerRange(b);
  }

  lemma LetterCases(k: nat)
    requires k < 26
    ensures UPPER[k] as int == 65 + k && LOWER[k] as int == 97 + k
  {
  }

  lemma TokenRange(b: Byte)
    ensures In(b, DECIMAL) <==> 48 <= b <= 57
    ensures In(b, SYMBOLS) <==>
              || b == 33 || 35 <= b <= 39 || b == 42 || b == 43 || b == 45 || b == 46
              || 94 <= b <= 96 || b == 124 || b == 126
  {
  }

  lemma DelimiterRange(b: Byte)
    ensures In(b, DELIMITERS) <==>
              || b == 34 || b == 40 || b == 41 || b == 44 || b == 47 || 58 <= b <= 64
              || 91 <= b <= 93 || b == 123 || b == 125
  {
  }

  lemma BlankRange(b: Byte)
    ensures In(b, " \t") <==> b == SP || b == HT
  {
  }

  lemma VisibleRange(b: Byte)
    ensures IsVisible(b) <==> b > SP && b != DEL
    ensures IsText(b) <==> b == HT || (b >= SP && b != DEL)
  {
    LetterRange(b);
    TokenRange(b);
    DelimiterRange(b);
    BlankRange(b);
  }

  lemma HexCharRange(b: Byte, k: nat)
    ensures HexChar(b, k) <==> DecodeHex(b) == k
  {
    if k < 16 {
      HexTexts(k);
    }
  }

  lemma HexTexts(k: nat)
    requires k < 16
    ensures HEX_LOWER[k] as int == (if k < 10 then 48 + k else 87 + k)
    ensures HEX_UPPER[k] as int == (if k < 10 then 48 + k else 55 + k)
  {
  }

  lemma SameLetterRange(a: Byte, b: Byte)
    ensures SameLetter(a, b) <==> a == b || (65 <= a <= 90 && b == a + 32) || (65 <= b <= 90 && a == b + 32)
  {
    if 65 <= a <= 90 && b == a + 32 {
      LetterCases(a - 65);
      assert CasesOf(a, b, a - 65);
    } else if 65 <= b <= 90 && a == b + 32 {
      LetterCases(b - 65);
      assert CasesOf(a, b, b - 65);
    } else if SameLetter(a, b) && a != b {
      var k :| 0 <= k < 26 && CasesOf(a, b, k);
      LetterCases(k);
    }
  }

  // ---------------------------------------------------------------- the digits of a chunk size

  /** Each of the sixteen digits in either case has its value, and every other byte is no digit. */
  lemma HexAlphabet(b: Byte)
    ensures forall k :: 0 <= k < 16 ==> (HexChar(b, k) <==> DecodeHex(b) == k)
    ensures (forall k :: 0 <= k < 16 ==> !HexChar(b, k)) <==> DecodeHex(b) == -1
  {
    hide DecodeHex, HexChar;
    forall k | 0 <= k < 16
      ensures HexChar(b, k) <==> DecodeHex(b) == k
    {
      HexCharRange(b, k);
    }
    if DecodeHex(b) != -1 {
      assert HexChar(b, DecodeHex(b));
    }
  }

  // ---------------------------------------------------------------- the characters that have names

  lemma NamedCharacters()
    ensures Ascii("\t") == [HT] && Ascii("\n") == [LF] && Ascii("\r") == [CR]
    ensures Ascii(" ") == [SP] && Ascii(":") == [COLON]
    ensures Ascii("\r\n") == [CR, LF] && Ascii(": ") == [COLON, SP]
  {
  }
}
