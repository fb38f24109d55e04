/**
  Base32 without bit strings: the encoding is the number its bytes spell in base 256, shifted left to
  a whole number of letters and written in base 32; a text is read back the same way.
 */
module Base32Numbers {
  import opened Base32
  import opened Text
  import opened Wrappers

  /** The number the bytes spell in base 256, most significant first. */
  function Spelled(bytes: seq<bv8>): nat {
    if bytes == [] then 0 else 256 * Spelled(bytes[..|bytes| - 1]) + bytes[|bytes| - 1] as nat
  }

  /** The letters stand for 0 to 25, the digits from 2 on for 26 to 31. */
  function Digit(c: char): int {
    if 'A' <= c <= 'Z' then c as int - 'A' as int else 26 + c as int - '2' as int
  }

  /** The number a text spells in base 32. */
  function Read(text: string): int {
    if text == "" then 0 else 32 * Read(text[..|text| - 1]) + Digit(text[|text| - 1])
  }

  predicate IsBase32(text: string) {
    forall c :: c in text ==> 'A' <= c <= 'Z' || '2' <= c <= '7'
  }

  function Power2(n: nat): (p: nat)
    ensures p > 0
  {
    if n == 0 then 1 else 2 * Power2(n - 1)
  }

  // ----- Bit strings as numbers -----

  lemma Twice(a: nat, p: nat)
    ensures a * (2 * p) == 2 * (a * p)
  {
  }

  lemma {:induction false} NumberOfTwo(a: Bits, b: Bits)
    ensures Number(a + b) == Number(a) * Power2(|b|) + Number(b)
    decreases |b|
  {
    if b == [] {
      assert a + b == a;
    } else {
      var n := |b| - 1;
      assert (a + b)[..|a + b| - 1] == a + b[..n];
      NumberOfTwo(a, b[..n]);
      assert Number(a + b) == 2 * Number(a + b[..n]) + Number(b) - 2 * Number(b[..n]);
      hide Number;
      Twice(Number(a), Power2(n));
    }
  }

  lemma {:induction false} NumberOfZeros(n: nat)
    ensures Number(Zeros(n)) == 0
  {
    if n > 0 {
      NumberOfZeros(n - 1);
      assert Zeros(n)[..n - 1] == Zeros(n - 1);
    }
  }

  lemma {:induction false} NumberBelow(bits: Bits)
    ensures Number(bits) < Power2(|bits|)
  {
    if bits != [] {
      NumberBelow(bits[..|bits| - 1]);
    }
  }

  lemma HalfOfByte(v: bv32)
    requires v < 256
    ensures v as nat == 2 * (Half(v) as nat) + One(Odd(v)) && Half(v) < 256
  {
    assert v == (v >> 1) * 2 + (v & 1);
  }

  lemma {:induction false} NumberOfLow(v: bv32, n: nat)
    requires v < 256 && v as nat < Power2(n)
    ensures Number(LowBits(v, n)) == v as nat
    decreases n
  {
    hide Half, Odd;
    if n > 0 {
      HalfOfByte(v);
      NumberOfLow(Half(v), n - 1);
      assert LowBits(v, n)[..n - 1] == LowBits(Half(v), n - 1);
    }
  }

  lemma NumberOfByte(b: bv8)
    ensures Number(ByteBits(b)) == b as nat
  {
    assert Power2(8) == 256;
    var v := b as bv32;
    assert v < 256 && v as nat == b as nat;
    NumberOfLow(v, 8);
  }

  lemma {:induction false} NumberOfBytes(bytes: seq<bv8>)
    ensures Number(BitsOf(bytes)) == Spelled(bytes)
  {
    hide ByteBits, Number;
    if bytes == [] {
      assert Number([]) == 0 by { NumberOfZeros(0); assert Zeros(0) == []; }
    } else {
      var n := |bytes| - 1;
      NumberOfBytes(bytes[..n]);
      BitsOfAppend(bytes[..n], [bytes[n]]);
      assert bytes == bytes[..n] + [bytes[n]];
      LettersOfNone();
      assert BitsOf([bytes[n]]) == ByteBits(bytes[n]);
      NumberOfTwo(BitsOf(bytes[..n]), ByteBits(bytes[n]));
      NumberOfByte(bytes[n]);
      assert |ByteBits(bytes[n])| == 8 by { assert |BitsOf([bytes[n]])| == 8; }
      assert Power2(8) == 256;
    }
  }

  // ----- Letters as numbers -----

  lemma DigitOfLetter(group: Bits)
    requires |group| == 5
    ensures var c := Letter(group); ('A' <= c <= 'Z' || '2' <= c <= '7') && Digit(c) == Number(group)
  {
    hide Number;
    NumberBound(group);
    LetterCode(Number(group));
  }

  lemma {:induction false} NumberOfLetters(bits: Bits)
    requires |bits| % 5 == 0
    ensures Read(Letters(bits)) == Number(bits) && IsBase32(Letters(bits))
    decreases |bits|
  {
    hide Letter, Number, Digit;
    if bits == [] {
      assert Number([]) == 0 by { NumberOfZeros(0); assert Zeros(0) == []; }
    } else {
      var front, group := bits[..|bits| - 5], bits[|bits| - 5..];
      assert bits == front + group;
      NumberOfLetters(front);
      LettersAppend(front, group);
      NumberOfTwo(front, group);
      DigitOfLetter(group);
      assert Power2(5) == 32;
      assert Letters(bits)[..|Letters(bits)| - 1] == Letters(front);
    }
  }

  /**
    The encoding has eight bits a byte, five a letter, rounded up, all in the alphabet, and spells
    the number of the bytes shifted left by the bits the last letter has over.
   */
  lemma EncodingSpellsTheBytes(bytes: seq<bv8>)
    ensures var text := Encoding(bytes);
            && 8 * |bytes| <= 5 * |text| < 8 * |bytes| + 5 && IsBase32(text)
            && Read(text) == Spelled(bytes) * Power2(5 * |text| - 8 * |bytes|)
  {
    var bits := BitsOf(bytes);
    var over := Missing(|bits|);
    NumberOfLetters(Padded(bits));
    NumberOfTwo(bits, Zeros(over));
    NumberOfZeros(over);
    NumberOfBytes(bytes);
    hide Number, Letters, BitsOf;
  }

  // ----- Reading back -----

  /** The number without its `over` low bits. */
  predicate IsFront(front: nat, number: int, over: nat) {
    front * Power2(over) <= number < (front + 1) * Power2(over)
  }

  lemma FrontIsLeft(front: nat, rest: nat, over: nat)
    requires rest < Power2(over)
    ensures IsFront(front, front * Power2(over) + rest, over)
  {
    hide Power2;
    Next(front, Power2(over));
  }

  lemma LettersAreBase32(c: char)
    ensures IsLetter(c) <==> 'A' <= c <= 'Z' || '2' <= c <= '7'
    ensures IsLetter(c) ==> IndexOf(c) == Digit(c) && 0 <= IndexOf(c) < 32
  {
    if IsLetter(c) {
      LetterCode(IndexOf(c));
    } else {
      var index := Digit(c);
      if 'A' <= c <= 'Z' || '2' <= c <= '7' {
        LetterCode(index);
      }
    }
  }

  lemma {:induction false} NumberOfText(text: string)
    requires OnlyLetters(text)
    ensures Number(TextBits(text)) == Read(text)
  {
    hide Number, IndexBits, IsLetter, Digit, IndexOf;
    if text == "" {
      assert Number([]) == 0 by { NumberOfZeros(0); assert Zeros(0) == []; }
    } else {
      var n := |text| - 1;
      var c := text[n];
      assert OnlyLetters(text[..n]);
      NumberOfText(text[..n]);
      assert text == text[..n] + [c];
      LettersAreBase32(c);
      TextBitsNext(text[..n], c);
      NumberOfTwo(TextBits(text[..n]), IndexBits(IndexOf(c)));
      NumberOfIndexBits(IndexOf(c));
      assert Power2(5) == 32;
    }
  }

  /**
    A text decodes exactly when all of it is in the alphabet, to as many bytes as it has whole ones,
    spelling its number without the bits that are over.
   */
  lemma DecodingSpellsTheText(text: string)
    ensures Decoding(text).Ok? <==> IsBase32(text)
    ensures Decoding(text).Ok? ==>
              var bytes := Decoding(text).value;
              && 8 * |bytes| <= 5 * |text| < 8 * |bytes| + 8
              && IsFront(Spelled(bytes), Read(text), 5 * |text| - 8 * |bytes|)
  {
    hide Number, Read, Bytes, Spelled, TextBits, OnlyLetters, IsBase32, IsFront;
    OnlyLettersIff(text);
    if OnlyLetters(text) {
      NumberOfText(text);
      WholeBytes(TextBits(text));
    }
  }

  lemma OnlyLettersIff(text: string)
    ensures OnlyLetters(text) <==> IsBase32(text)
  {
    hide IsLetter;
    forall c ensures IsLetter(c) <==> 'A' <= c <= 'Z' || '2' <= c <= '7' {
      LettersAreBase32(c);
    }
    assert forall i :: 0 <= i < |text| ==> text[i] in text;
  }

  lemma WholeBytes(bits: Bits)
    ensures IsFront(Spelled(Bytes(bits)), Number(bits), |bits| - 8 * |Bytes(bits)|)
  {
    hide Number, Bytes, BitsOf, Spelled, Power2, IsFront;
    var k := 8 * (|bits| / 8);
    BitsOfBytes(bits);
    NumberOfBytes(Bytes(bits));
    assert bits == bits[..k] + bits[k..];
    NumberOfTwo(bits[..k], bits[k..]);
    NumberBelow(bits[k..]);
    FrontIsLeft(Spelled(Bytes(bits)), Number(bits[k..]), |bits| - k);
  }

  lemma Next(a: nat, p: nat)
    ensures (a + 1) * p == a * p + p
  {
  }

  /** Of the ASCII characters white space, letters of either case and the digits from 2 to 7 are accepted. */
  lemma AcceptedAscii(c: char, upper: char -> string)
    requires UppersAscii(upper) && c as int < 128
    ensures Acceptable(c, upper) <==>
            c in " \t\n\r" || c as int in {11, 12} || 'A' <= c <= 'Z' || 'a' <= c <= 'z' || '2' <= c <= '7'
  {
    AcceptableAscii(c, upper);
    LettersAreBase32(AsciiUpper(c));
    hide IsLetter, Acceptable;
  }
}
