/**
  Base32 of authenticator secrets over a 32-bit accumulator that is never masked.
  The loops are proved against the bit-string definition of section 6 of RFC 4648, without padding.
 */
module Base32 {
  import opened Text
  import opened Wrappers

  const ALPHABET := "ABCDEFGHIJKLMNOPQRSTUVWXYZ234567"

  datatype Base32Error = PersistenceFailure

  // ----- Bit strings -----

  type Bits = seq<bool>

  function Half(v: bv32): bv32 {
    v >> 1
  }

  function Double(v: bv32): bv32 {
    v << 1
  }

  predicate Odd(v: bv32) {
    v & 1 == 1
  }

  /** The `n` low bits of a word, most significant first. */
  function LowBits(v: bv32, n: nat): (bits: Bits)
    ensures |bits| == n
    decreases n
  {
    if n == 0 then [] else LowBits(Half(v), n - 1) + [Odd(v)]
  }

  function ByteBits(b: bv8): Bits {
    LowBits(b as bv32, 8)
  }

  /** The bits of all bytes, one after the other. */
  function BitsOf(bytes: seq<bv8>): (bits: Bits)
    ensures |bits| == 8 * |bytes|
  {
    if bytes == [] then [] else ByteBits(bytes[0]) + BitsOf(bytes[1..])
  }

  function Zeros(n: nat): (bits: Bits)
    ensures |bits| == n && forall i :: 0 <= i < n ==> !bits[i]
  {
    seq(n, _ => false)
  }

  /** How far a length is from the next multiple of five. */
  function Missing(n: nat): (m: nat)
    ensures m < 5 && (n + m) % 5 == 0
  {
    (5 - n % 5) % 5
  }

  /** Zero bits on the right up to a multiple of five. */
  function Padded(bits: Bits): (padded: Bits)
    ensures |padded| % 5 == 0
  {
    bits + Zeros(Missing(|bits|))
  }

  /** A bit string read as a number. */
  function Number(bits: Bits): nat {
    if bits == [] then 0 else 2 * Number(bits[..|bits| - 1]) + (if bits[|bits| - 1] then 1 else 0)
  }

  lemma {:induction false} NumberBound(bits: Bits)
    requires |bits| == 5
    ensures Number(bits) < 32
  {
    assert bits[..4][..3] == bits[..3] && bits[..3][..2] == bits[..2] && bits[..2][..1] == bits[..1]
        && bits[..1][..0] == [];
    assert Number(bits[..1]) < 2;
    assert Number(bits[..2]) < 4;
    assert Number(bits[..3]) < 8;
    assert Number(bits[..4]) < 16;
  }

  function Letter(group: Bits): char
    requires |group| == 5
  {
    NumberBound(group);
    ALPHABET[Number(group)]
  }

  /** Every group of five bits becomes the letter it numbers. */
  function Letters(bits: Bits): (text: string)
    ensures |text| == |bits| / 5
  {
    if |bits| < 5 then "" else [Letter(bits[..5])] + Letters(bits[5..])
  }

  /** The encoding of section 6, unpadded. */
  function Encoding(bytes: seq<bv8>): string {
    Letters(Padded(BitsOf(bytes)))
  }

  // ----- The accumulator -----

  /** A logical right shift, one bit at a time. */
  function ShiftRight(v: bv32, n: nat): bv32
    decreases n
  {
    if n == 0 then v else ShiftRight(Half(v), n - 1)
  }

  function ShiftLeft(v: bv32, n: nat): bv32
    decreases n
  {
    if n == 0 then v else ShiftLeft(Double(v), n - 1)
  }

  lemma {:induction false} SplitLow(v: bv32, n: nat, k: nat)
    requires k <= n
    ensures LowBits(v, n) == LowBits(ShiftRight(v, k), n - k) + LowBits(v, k)
    decreases k
  {
    hide Half, Odd;
    if k == 0 {
    } else {
      SplitLow(Half(v), n - 1, k - 1);
    }
  }

  /** The words agree on their low `n` bits. */
  predicate Agree(v: bv32, w: bv32, n: nat)
    decreases n
  {
    n == 0 || (Odd(v) == Odd(w) && Agree(Half(v), Half(w), n - 1))
  }

  /** Only the low `n` bits matter: whatever was shifted further up is never read. */
  lemma {:induction false} OnlyLowBitsMatter(v: bv32, w: bv32, n: nat)
    requires Agree(v, w, n)
    ensures LowBits(v, n) == LowBits(w, n)
    decreases n
  {
    hide Half, Odd;
    if n == 0 {
    } else {
      OnlyLowBitsMatter(Half(v), Half(w), n - 1);
    }
  }

  lemma {:induction false} AgreeLess(v: bv32, w: bv32, n: nat, k: nat)
    requires k <= n && Agree(v, w, n)
    ensures Agree(v, w, k)
    decreases n
  {
    hide Half, Odd;
    if k > 0 {
      AgreeLess(Half(v), Half(w), n - 1, k - 1);
    }
  }

  /** The low `n` bits of the mask are set. */
  predicate Covers(mask: bv32, n: nat)
    decreases n
  {
    n == 0 || (Odd(mask) && Covers(Half(mask), n - 1))
  }

  predicate SameUnder(v: bv32, w: bv32, mask: bv32) {
    v & mask == w & mask
  }

  lemma HalvesAgree(v: bv32, w: bv32, mask: bv32)
    requires Odd(mask) && SameUnder(v, w, mask)
    ensures Odd(v) == Odd(w) && SameUnder(Half(v), Half(w), Half(mask))
  {
  }

  lemma {:induction false} AgreeUnder(v: bv32, w: bv32, mask: bv32, n: nat)
    requires Covers(mask, n) && SameUnder(v, w, mask)
    ensures Agree(v, w, n)
    decreases n
  {
    hide Half, Odd, SameUnder;
    if n > 0 {
      HalvesAgree(v, w, mask);
      AgreeUnder(Half(v), Half(w), Half(mask), n - 1);
    }
  }

  lemma HalvedMasks()
    ensures Half(255) == 127 && Half(127) == 63 && Half(63) == 31 && Half(31) == 15
    ensures Half(15) == 7 && Half(7) == 3 && Half(3) == 1
    ensures Odd(255) && Odd(127) && Odd(63) && Odd(31) && Odd(15) && Odd(7) && Odd(3) && Odd(1)
  {
  }

  lemma MasksCover()
    ensures Covers(31, 5) && Covers(255, 8)
  {
    HalvedMasks();
    hide Half, Odd;
    assert Covers(3, 2) && Covers(15, 4);
    assert Covers(63, 6);
  }

  /** Halving eight times. */
  lemma EightHalves(v: bv32)
    ensures Half(Half(Half(Half(Half(Half(Half(Half(v)))))))) == v >> 8
    ensures Half(Half(Half(Half(Half(v))))) == v >> 5
  {
  }

  /** The shifts by a variable count are the machine's, for every count the loops reach. */
  lemma ShiftsAreShifts(v: bv32, n: nat)
    requires n <= 7
    ensures ShiftRight(v, n) == match n
              case 0 => v case 1 => v >> 1 case 2 => v >> 2 case 3 => v >> 3 case 4 => v >> 4
              case 5 => v >> 5 case 6 => v >> 6 case _ => v >> 7
    ensures ShiftLeft(v, n) == match n
              case 0 => v case 1 => v << 1 case 2 => v << 2 case 3 => v << 3 case 4 => v << 4
              case 5 => v << 5 case 6 => v << 6 case _ => v << 7
  {
    RightShifts(v);
    LeftShifts(v);
    RepeatedShifts(v);
    hide ShiftRight, ShiftLeft, Half, Double;
  }

  lemma RepeatedShifts(v: bv32)
    ensures Half(v) == v >> 1 && Half(Half(v)) == v >> 2 && Half(Half(Half(v))) == v >> 3
    ensures Half(Half(Half(Half(v)))) == v >> 4 && Half(Half(Half(Half(Half(v))))) == v >> 5
    ensures Half(Half(Half(Half(Half(Half(v)))))) == v >> 6 && Half(Half(Half(Half(Half(Half(Half(v))))))) == v >> 7
    ensures Double(v) == v << 1 && Double(Double(v)) == v << 2 && Double(Double(Double(v))) == v << 3
    ensures Double(Double(Double(Double(v)))) == v << 4 && Double(Double(Double(Double(Double(v))))) == v << 5
    ensures Double(Double(Double(Double(Double(Double(v)))))) == v << 6
    ensures Double(Double(Double(Double(Double(Double(Double(v))))))) == v << 7
  {
  }

  lemma RightShifts(v: bv32)
    ensures ShiftRight(v, 0) == v && ShiftRight(v, 1) == Half(v) && ShiftRight(v, 2) == Half(Half(v))
    ensures ShiftRight(v, 3) == Half(Half(Half(v))) && ShiftRight(v, 4) == Half(Half(Half(Half(v))))
    ensures ShiftRight(v, 5) == Half(Half(Half(Half(Half(v)))))
    ensures ShiftRight(v, 6) == Half(Half(Half(Half(Half(Half(v))))))
    ensures ShiftRight(v, 7) == Half(Half(Half(Half(Half(Half(Half(v)))))))
  {
    hide Half;
  }

  lemma LeftShifts(v: bv32)
    ensures ShiftLeft(v, 0) == v && ShiftLeft(v, 1) == Double(v) && ShiftLeft(v, 2) == Double(Double(v))
    ensures ShiftLeft(v, 3) == Double(Double(Double(v))) && ShiftLeft(v, 4) == Double(Double(Double(Double(v))))
    ensures ShiftLeft(v, 5) == Double(Double(Double(Double(Double(v)))))
    ensures ShiftLeft(v, 6) == Double(Double(Double(Double(Double(Double(v))))))
    ensures ShiftLeft(v, 7) == Double(Double(Double(Double(Double(Double(Double(v)))))))
  {
    hide Double;
  }

  lemma ShiftRightUnrolled(v: bv32)
    ensures ShiftRight(v, 8) == Half(Half(Half(Half(Half(Half(Half(Half(v))))))))
    ensures ShiftRight(v, 5) == Half(Half(Half(Half(Half(v)))))
  {
    hide Half;
    var a := Half(v);
    var b := Half(a);
    var c := Half(b);
    var d := Half(c);
    var e := Half(d);
    var f := Half(e);
    var g := Half(f);
    assert ShiftRight(f, 2) == Half(g);
    assert ShiftRight(d, 4) == ShiftRight(f, 2);
    assert ShiftRight(b, 6) == ShiftRight(d, 4);
    assert ShiftRight(v, 8) == ShiftRight(b, 6);
    assert ShiftRight(d, 1) == e;
    assert ShiftRight(b, 3) == ShiftRight(d, 1);
    assert ShiftRight(v, 5) == ShiftRight(b, 3);
  }

  /** Shifting a byte in appends its bits, whatever the old upper bits were. */
  lemma PushByte(v: bv32, b: bv8, n: nat)
    requires n <= 8
    ensures LowBits((v << 8) | (b as bv32), n + 8) == LowBits(v, n) + ByteBits(b)
  {
    hide LowBits, ShiftRight, Covers, Agree, Half, Odd;
    var w := (v << 8) | (b as bv32);
    SplitLow(w, n + 8, 8);
    ShiftRightUnrolled(w);
    EightHalves(w);
    MasksCover();
    AgreeUnder(w >> 8, v, 255, 8);
    AgreeLess(w >> 8, v, 8, n);
    OnlyLowBitsMatter(w >> 8, v, n);
    AgreeUnder(w, b as bv32, 255, 8);
    OnlyLowBitsMatter(w, b as bv32, 8);
  }

  /** Shifting an index in appends its five bits. */
  lemma PushIndex(v: bv32, index: bv32, n: nat)
    requires n <= 8 && index < 32
    ensures LowBits((v << 5) | index, n + 5) == LowBits(v, n) + LowBits(index, 5)
  {
    hide LowBits, ShiftRight, Covers, Agree, Half, Odd;
    var w := (v << 5) | index;
    SplitLow(w, n + 5, 5);
    ShiftRightUnrolled(w);
    EightHalves(w);
    MasksCover();
    AgreeUnder(w >> 5, v, 255, 8);
    AgreeLess(w >> 5, v, 8, n);
    OnlyLowBitsMatter(w >> 5, v, n);
    AgreeUnder(w, index, 31, 5);
    OnlyLowBitsMatter(w, index, 5);
  }

  function One(bit: bool): nat {
    if bit then 1 else 0
  }

  lemma NumberUnrolled(g: Bits)
    requires |g| == 5
    ensures Number(g) == 16 * One(g[0]) + 8 * One(g[1]) + 4 * One(g[2]) + 2 * One(g[3]) + One(g[4])
  {
    assert g[..4][..3] == g[..3] && g[..3][..2] == g[..2] && g[..2][..1] == g[..1] && g[..1][..0] == [];
    assert Number(g[..1]) == One(g[0]);
    assert Number(g[..2]) == 2 * Number(g[..1]) + One(g[1]);
    assert Number(g[..3]) == 2 * Number(g[..2]) + One(g[2]);
    assert Number(g[..4]) == 2 * Number(g[..3]) + One(g[3]);
  }

  lemma LowUnrolled(v: bv32)
    ensures LowBits(v, 5)
            == [Odd(Half(Half(Half(Half(v))))), Odd(Half(Half(Half(v)))), Odd(Half(Half(v))), Odd(Half(v)), Odd(v)]
  {
    hide Half, Odd;
    var a := Half(v);
    var b := Half(a);
    var c := Half(b);
    var d := Half(c);
    assert LowBits(c, 2) == [Odd(d), Odd(c)];
    assert LowBits(a, 4) == LowBits(c, 2) + [Odd(b), Odd(a)];
  }

  /** The number of the five low bits of a word. */
  lemma NumberOfFive(v: bv32)
    ensures Number(LowBits(v, 5)) == (v & 31) as nat
  {
    LowUnrolled(v);
    NumberUnrolled(LowBits(v, 5));
    hide LowBits, Number;
    FiveBits(v);
  }

  lemma FiveBits(v: bv32)
    ensures 16 * One(Odd(Half(Half(Half(Half(v)))))) + 8 * One(Odd(Half(Half(Half(v))))) + 4 * One(Odd(Half(Half(v))))
          + 2 * One(Odd(Half(v))) + One(Odd(v)) == (v & 31) as nat
  {
    var x := v & 31;
    assert Odd(v) == Odd(x) && Odd(Half(v)) == Odd(Half(x)) && Odd(Half(Half(v))) == Odd(Half(Half(x)));
    assert Odd(Half(Half(Half(v)))) == Odd(Half(Half(Half(x))))
        && Odd(Half(Half(Half(Half(v))))) == Odd(Half(Half(Half(Half(x)))));
    assert x <= 31;
  }

  lemma LowUnrolledByte(v: bv32)
    ensures LowBits(v, 8)
         == [Odd(Half(Half(Half(Half(Half(Half(Half(v)))))))), Odd(Half(Half(Half(Half(Half(Half(v))))))),
             Odd(Half(Half(Half(Half(Half(v)))))), Odd(Half(Half(Half(Half(v))))), Odd(Half(Half(Half(v)))),
             Odd(Half(Half(v))), Odd(Half(v)), Odd(v)]
  {
    hide Half, Odd;
    LowThree(v);
    hide LowBits;
    SplitLow(v, 8, 3);
    LowUnrolled(Half(Half(Half(v))));
  }

  lemma LowThree(v: bv32)
    ensures LowBits(v, 3) == [Odd(Half(Half(v))), Odd(Half(v)), Odd(v)]
    ensures ShiftRight(v, 3) == Half(Half(Half(v)))
  {
    hide Half, Odd;
    var a := Half(v);
    assert LowBits(a, 2) == [Odd(Half(a)), Odd(a)];
    assert ShiftRight(a, 2) == Half(Half(a));
  }

  /** Zero bits shifted in on the right. */
  lemma {:induction false} PushZeros(v: bv32, n: nat, k: nat)
    requires n + k <= 8
    ensures LowBits(ShiftLeft(v, k), n + k) == LowBits(v, n) + Zeros(k)
    decreases k
  {
    hide LowBits, ShiftLeft, Double, Zeros;
    LeftStep(v, k);
    if k == 0 {
    } else {
      PushZeros(Double(v), n + 1, k - 1);
      PushZero(v, n);
      assert LowBits(v, n) + [false] + Zeros(k - 1) == LowBits(v, n) + ([false] + Zeros(k - 1));
    }
  }

  lemma LeftStep(v: bv32, k: nat)
    ensures k == 0 ==> ShiftLeft(v, k) == v && Zeros(k) == []
    ensures k > 0 ==> ShiftLeft(v, k) == ShiftLeft(Double(v), k - 1) && [false] + Zeros(k - 1) == Zeros(k)
  {
    hide Double;
  }

  lemma PushZero(v: bv32, n: nat)
    requires n <= 7
    ensures LowBits(Double(v), n + 1) == LowBits(v, n) + [false]
  {
    hide Covers, Agree;
    DoubledHalf(v);
    hide Half, Odd, Double;
    MasksCover();
    AgreeUnder(Half(Double(v)), v, 255, 8);
    AgreeLess(Half(Double(v)), v, 8, n);
    OnlyLowBitsMatter(Half(Double(v)), v, n);
  }

  lemma DoubledHalf(v: bv32)
    ensures SameUnder(Half(Double(v)), v, 255) && !Odd(Double(v))
  {
  }

  // ----- Encoding -----

  lemma {:induction false} BitsOfAppend(bytes: seq<bv8>, more: seq<bv8>)
    ensures BitsOf(bytes + more) == BitsOf(bytes) + BitsOf(more)
  {
    if bytes == [] {
      assert bytes + more == more;
    } else {
      assert (bytes + more)[1..] == bytes[1..] + more;
      BitsOfAppend(bytes[1..], more);
    }
  }

  lemma BitsOfNext(bytes: seq<bv8>, i: nat)
    requires i < |bytes|
    ensures BitsOf(bytes[..i + 1]) == BitsOf(bytes[..i]) + ByteBits(bytes[i])
  {
    assert bytes[..i + 1] == bytes[..i] + [bytes[i]];
    BitsOfAppend(bytes[..i], [bytes[i]]);
    assert BitsOf([bytes[i]]) == ByteBits(bytes[i]) + BitsOf([]);
  }

  lemma {:induction false} LettersAppend(bits: Bits, group: Bits)
    requires |bits| % 5 == 0 && |group| == 5
    ensures Letters(bits + group) == Letters(bits) + [Letter(group)]
  {
    hide Letter;
    if bits == [] {
      assert bits + group == group && group[..5] == group && group[5..] == [];
    } else {
      assert (bits + group)[..5] == bits[..5] && (bits + group)[5..] == bits[5..] + group;
      LettersAppend(bits[5..], group);
    }
  }

  /** The letter written for the five low bits of a word. */
  lemma LetterOfWord(v: bv32)
    ensures (v & 31) as nat < 32
    ensures ALPHABET[(v & 31) as nat] == Letter(LowBits(v, 5))
  {
    NumberOfFive(v);
    NumberBound(LowBits(v, 5));
  }

  /** Writing the next five of the pending bits. */
  lemma WriteGroup(written: Bits, value: bv32, bits: nat)
    requires |written| % 5 == 0 && bits >= 5
    ensures var group := LowBits(ShiftRight(value, bits - 5), 5);
            && (ShiftRight(value, bits - 5) & 31) as nat < 32
            && written + LowBits(value, bits) == (written + group) + LowBits(value, bits - 5)
            && Letters(written + group) == Letters(written) + [ALPHABET[(ShiftRight(value, bits - 5) & 31) as nat]]
  {
    hide LowBits, ShiftRight, Letters, Letter;
    var shifted := ShiftRight(value, bits - 5);
    LetterOfWord(shifted);
    SplitLow(value, bits, bits - 5);
    LettersAppend(written, LowBits(shifted, 5));
  }

  /** Writing the last bits, filled up with zeros. */
  lemma WriteRest(written: Bits, value: bv32, bits: nat)
    requires |written| % 5 == 0 && 0 < bits < 5
    ensures Letters(Padded(written + LowBits(value, bits))) == Letters(written)
            + [Letter(LowBits(ShiftLeft(value, 5 - bits), 5))]
  {
    hide LowBits, ShiftLeft, Letters, Letter, Padded, Zeros;
    var group := LastGroup(value, bits);
    RestLetters(written, LowBits(value, bits), group);
  }

  /** The last pending bits and zeros are the low bits of the word shifted left. */
  lemma LastGroup(value: bv32, bits: nat) returns (group: Bits)
    requires 0 < bits < 5
    ensures group == LowBits(ShiftLeft(value, 5 - bits), 5)
            && group == LowBits(value, bits) + Zeros(5 - |LowBits(value, bits)|)
  {
    hide LowBits, ShiftLeft;
    PushZeros(value, bits, 5 - bits);
    group := LowBits(ShiftLeft(value, 5 - bits), 5);
  }

  lemma RestLetters(written: Bits, rest: Bits, group: Bits)
    requires |written| % 5 == 0 && 0 < |rest| < 5 && group == rest + Zeros(5 - |rest|)
    ensures Letters(Padded(written + rest)) == Letters(written) + [Letter(group)]
  {
    hide Letters, Letter, Padded;
    RestIsPadded(written, rest, group);
    LettersAppend(written, group);
  }

  lemma RestIsPadded(written: Bits, rest: Bits, group: Bits)
    requires |written| % 5 == 0 && 0 < |rest| < 5 && group == rest + Zeros(5 - |rest|)
    ensures Padded(written + rest) == written + group
  {
    assert Missing(|written + rest|) == 5 - |rest|;
    hide Missing, Zeros;
    assert (written + rest) + Zeros(5 - |rest|) == written + group;
  }

  lemma WrittenIsPadded(written: Bits)
    requires |written| % 5 == 0
    ensures Padded(written) == written
  {
  }

  /** The encoder, proved to compute the encoding of section 6 for every input. */
  method Base32Encode(input: seq<bv8>) returns (output: string)
    ensures output == Encoding(input)
  {
    hide LowBits, ShiftRight, ShiftLeft, BitsOf, Letters, Letter, Padded;
    var bits: nat := 0;
    var value: bv32 := 0;
    output := "";
    ghost var written: Bits := [];
    LettersOfNone();
    for i := 0 to |input|
      invariant bits < 5 && |written| % 5 == 0
      invariant BitsOf(input[..i]) == written + LowBits(value, bits)
      invariant output == Letters(written)
    {
      BitsOfNext(input, i);
      PushByte(value, input[i], bits);
      value := (value << 8) | (input[i] as bv32);
      bits := bits + 8;
      while bits >= 5
        invariant bits <= 12 && |written| % 5 == 0
        invariant BitsOf(input[..i + 1]) == written + LowBits(value, bits)
        invariant output == Letters(written)
      {
        WriteGroup(written, value, bits);
        written := written + LowBits(ShiftRight(value, bits - 5), 5);
        output := output + [ALPHABET[(ShiftRight(value, bits - 5) & 31) as nat]];
        bits := bits - 5;
      }
    }
    assert input[..|input|] == input;
    if bits > 0 {
      WriteRest(written, value, bits);
      LetterOfWord(ShiftLeft(value, 5 - bits));
      output := output + [ALPHABET[(ShiftLeft(value, 5 - bits) & 31) as nat]];
    } else {
      assert written + LowBits(value, bits) == written;
      WrittenIsPadded(written);
    }
  }

  lemma LettersOfNone()
    ensures Letters([]) == "" && BitsOf([]) == [] && forall v :: LowBits(v, 0) == []
  {
  }

  /** Eight bits a byte, five bits a letter, rounded up. */
  lemma EncodingLength(bytes: seq<bv8>)
    ensures |Encoding(bytes)| == (8 * |bytes| + 4) / 5
  {
  }

  // ----- Decoding -----

  /** The first place of a character, or -1. */
  function Position(text: string, c: char): (k: int)
    ensures -1 <= k < |text|
    ensures k >= 0 ==> text[k] == c
    ensures k < 0 <==> c !in text
  {
    if text == "" then -1
    else if text[0] == c then 0
    else
      var rest := Position(text[1..], c);
      if rest < 0 then -1 else rest + 1
  }

  function IndexOf(c: char): int {
    Position(ALPHABET, c)
  }

  /** The five bits an index stands for. */
  function IndexBits(index: nat): (bits: Bits)
    ensures |bits| == 5
  {
    [index / 16 % 2 == 1, index / 8 % 2 == 1, index / 4 % 2 == 1, index / 2 % 2 == 1, index % 2 == 1]
  }

  predicate IsLetter(c: char) {
    c in ALPHABET
  }

  predicate OnlyLetters(text: string) {
    forall i :: 0 <= i < |text| ==> IsLetter(text[i])
  }

  /** The bits of all letters, one after the other. */
  function TextBits(text: string): (bits: Bits)
    requires OnlyLetters(text)
    ensures |bits| == 5 * |text|
  {
    if text == "" then [] else IndexBits(IndexOf(text[0])) + TextBits(text[1..])
  }

  function ByteOf(bits: Bits): bv8
    requires |bits| == 8
  {
      (if bits[0] then 128 else 0) | (if bits[1] then 64 else 0) | (if bits[2] then 32 else 0)
      | (if bits[3] then 16 else 0)
    | (if bits[4] then 8 else 0) | (if bits[5] then 4 else 0) | (if bits[6] then 2 else 0) | (if bits[7] then 1 else 0)
  }

  /** Every group of eight bits becomes a byte; an incomplete last group is dropped. */
  function Bytes(bits: Bits): (bytes: seq<bv8>)
    ensures |bytes| == |bits| / 8
  {
    if |bits| < 8 then [] else [ByteOf(bits[..8])] + Bytes(bits[8..])
  }

  function Decoding(text: string): Result<seq<bv8>, Base32Error> {
    if OnlyLetters(text) then Ok(Bytes(TextBits(text))) else Err(PersistenceFailure)
  }

  function WithoutPadding(text: string): string {
    if text != "" && text[|text| - 1] == '=' then WithoutPadding(text[..|text| - 1]) else text
  }

  function WithoutSpaces(text: string): string {
    if text == "" then ""
    else if IsSpace(text[0]) then WithoutSpaces(text[1..])
    else [text[0]] + WithoutSpaces(text[1..])
  }

  function UpperCase(text: string, upper: char -> string): string {
    if text == "" then "" else upper(text[0]) + UpperCase(text[1..], upper)
  }

  /** Padding stripped first, then white space, then upper case; `upper` maps one character. */
  function Normalized(text: string, upper: char -> string): string {
    UpperCase(WithoutSpaces(WithoutPadding(text)), upper)
  }

  lemma {:induction false} NumberIsInjective(a: Bits, b: Bits)
    requires |a| == |b| && Number(a) == Number(b)
    ensures a == b
  {
    if a == [] {
    } else {
      NumberIsInjective(a[..|a| - 1], b[..|b| - 1]);
    }
  }

  lemma NumberOfIndexBits(index: nat)
    requires index < 32
    ensures Number(IndexBits(index)) == index
  {
    NumberUnrolled(IndexBits(index));
  }

  lemma IndexBitsOfWord(index: nat)
    requires index < 32
    ensures index as bv32 < 32 && LowBits(index as bv32, 5) == IndexBits(index)
  {
    hide LowBits, Number, IndexBits;
    var word := index as bv32;
    assert word < 32;
    assert word & 31 == word;
    NumberOfFive(word);
    NumberOfIndexBits(index);
    NumberIsInjective(LowBits(word, 5), IndexBits(index));
  }

  /** A group survives the way through its letter. */
  lemma LetterKeepsGroup(group: Bits)
    requires |group| == 5
    ensures IsLetter(Letter(group)) && IndexBits(IndexOf(Letter(group))) == group
  {
    hide Number, IndexBits, Position;
    NumberBound(group);
    LettersAreDistinct(Number(group), IndexOf(Letter(group)));
    NumberOfIndexBits(Number(group));
    NumberIsInjective(group, IndexBits(Number(group)));
  }

  lemma LettersAreDistinct(i: nat, j: nat)
    requires i < 32 && j < 32 && ALPHABET[i] == ALPHABET[j]
    ensures i == j
  {
    LetterCode(i);
    LetterCode(j);
  }

  lemma LetterCode(i: nat)
    requires i < 32
    ensures ALPHABET[i] as int == if i < 26 then 65 + i else 24 + i
  {
  }

  /** The byte pushed for the eight low bits of a word. */
  lemma ByteOfWord(v: bv32)
    ensures (v & 255) as bv8 == ByteOf(LowBits(v, 8))
  {
    LowUnrolledByte(v);
    hide LowBits;
    ByteFromBits(v);
  }

  lemma ByteFromBits(v: bv32)
    ensures (v & 255) as bv8
         == ByteOf([Odd(Half(Half(Half(Half(Half(Half(Half(v)))))))), Odd(Half(Half(Half(Half(Half(Half(v))))))),
                    Odd(Half(Half(Half(Half(Half(v)))))), Odd(Half(Half(Half(Half(v))))), Odd(Half(Half(Half(v)))),
                    Odd(Half(Half(v))), Odd(Half(v)), Odd(v)])
  {
  }

  lemma ByteKeepsBits(b: bv8)
    ensures ByteOf(ByteBits(b)) == b
  {
    hide LowBits, ByteOf;
    ByteOfWord(b as bv32);
  }

  lemma BitsKeepByte(bits: Bits)
    requires |bits| == 8
    ensures ByteBits(ByteOf(bits)) == bits
  {
    LowUnrolledByte(ByteOf(bits) as bv32);
    hide LowBits;
  }

  lemma BytesUnfold(bits: Bits)
    requires |bits| >= 8
    ensures Bytes(bits) == [ByteOf(bits[..8])] + Bytes(bits[8..])
  {
  }

  lemma {:induction false} GroupsAppend(bits: Bits, more: Bits, n: nat)
    requires |bits| == 8 * n
    ensures Bytes(bits + more) == Bytes(bits) + Bytes(more)
    decreases n
  {
    hide ByteOf, Bytes;
    if n == 0 {
      IncompleteByte(bits);
      assert bits + more == more;
    } else {
      assert (bits + more)[..8] == bits[..8] && (bits + more)[8..] == bits[8..] + more;
      BytesUnfold(bits);
      BytesUnfold(bits + more);
      GroupsAppend(bits[8..], more, n - 1);
    }
  }

  lemma BytesAppend(bits: Bits, more: Bits)
    requires |bits| % 8 == 0
    ensures Bytes(bits + more) == Bytes(bits) + Bytes(more)
  {
    hide Bytes;
    GroupsAppend(bits, more, |bits| / 8);
  }

  lemma BytesNext(bits: Bits, group: Bits)
    requires |bits| % 8 == 0 && |group| == 8
    ensures Bytes(bits + group) == Bytes(bits) + [ByteOf(group)]
  {
    hide ByteOf;
    BytesAppend(bits, group);
    assert group[..8] == group && group[8..] == [];
    assert Bytes(group) == [ByteOf(group)] + Bytes([]);
  }

  lemma {:induction false} TextBitsNext(text: string, c: char)
    requires OnlyLetters(text + [c])
    ensures OnlyLetters(text) && IsLetter(c)
    ensures TextBits(text + [c]) == TextBits(text) + IndexBits(IndexOf(c))
  {
    hide IndexBits, IndexOf, IsLetter;
    IndexOfLetter(c);
    assert (text + [c])[|text|] == c;
    assert forall i :: 0 <= i < |text| ==> text[i] == (text + [c])[i];
    if text == "" {
      assert text + [c] == [c];
      assert TextBits([c]) == IndexBits(IndexOf(c)) + TextBits("");
    } else {
      assert (text + [c])[1..] == text[1..] + [c];
      assert OnlyLetters(text[1..] + [c]);
      TextBitsNext(text[1..], c);
    }
  }

  /** The byte pushed from eight or more pending bits. */
  lemma PushedByte(used: Bits, value: bv32, bits: nat)
    requires |used| % 8 == 0 && bits >= 8
    ensures var group := LowBits(ShiftRight(value, bits - 8), 8);
            && used + LowBits(value, bits) == (used + group) + LowBits(value, bits - 8)
            && Bytes(used + group) == Bytes(used) + [(ShiftRight(value, bits - 8) & 255) as bv8]
  {
    hide LowBits, ShiftRight, Bytes, ByteOf;
    var shifted := ShiftRight(value, bits - 8);
    SplitLow(value, bits, bits - 8);
    ByteOfWord(shifted);
    BytesNext(used, LowBits(shifted, 8));
  }

  /** The index of a letter shifted into the word appends the letter's bits. */
  lemma PushLetter(text: string, i: nat, used: Bits, value: bv32, bits: nat)
    requires i < |text| && OnlyLetters(text[..i + 1]) && bits <= 8
    requires OnlyLetters(text[..i]) && TextBits(text[..i]) == used + LowBits(value, bits)
    ensures 0 <= IndexOf(text[i]) < 32
    ensures TextBits(text[..i + 1]) == used + LowBits((value << 5) | (IndexOf(text[i]) as bv32), bits + 5)
  {
    hide LowBits, IndexBits, TextBits, IndexOf, OnlyLetters, IsLetter;
    assert text[..i + 1] == text[..i] + [text[i]];
    TextBitsNext(text[..i], text[i]);
    IndexOfLetter(text[i]);
    PushIndexBits(value, IndexOf(text[i]), bits);
  }

  lemma PushIndexBits(value: bv32, index: nat, bits: nat)
    requires index < 32 && bits <= 8
    ensures LowBits((value << 5) | (index as bv32), bits + 5) == LowBits(value, bits) + IndexBits(index)
  {
    hide LowBits, IndexBits;
    IndexBitsOfWord(index);
    PushIndex(value, index as bv32, bits);
  }

  lemma IndexOfLetter(c: char)
    ensures -1 <= IndexOf(c) < 32
    ensures IndexOf(c) >= 0 <==> IsLetter(c)
  {
  }

  lemma StopsAtOther(text: string, i: nat)
    requires i < |text| && IndexOf(text[i]) < 0
    ensures Decoding(text) == Err(PersistenceFailure)
  {
    hide IsLetter, IndexOf;
    IndexOfLetter(text[i]);
  }

  lemma LetterRead(text: string, i: nat)
    requires i < |text| && OnlyLetters(text[..i]) && IndexOf(text[i]) >= 0
    ensures OnlyLetters(text[..i + 1])
  {
    hide IsLetter, IndexOf;
    IndexOfLetter(text[i]);
    assert forall j :: 0 <= j < i ==> text[..i + 1][j] == text[..i][j];
  }

  /** The bits left over at the end make no byte. */
  lemma AllRead(text: string, used: Bits, value: bv32, bits: nat)
    requires OnlyLetters(text) && TextBits(text) == used + LowBits(value, bits) && |used| % 8 == 0 && bits < 8
    ensures Decoding(text) == Ok(Bytes(used))
  {
    hide LowBits, Bytes, TextBits, OnlyLetters;
    BytesAppend(used, LowBits(value, bits));
    IncompleteByte(LowBits(value, bits));
    assert Bytes(used) + [] == Bytes(used);
  }

  /** The decoder, proved to decode exactly the texts of letters, bit by bit. */
  method Base32Decode(input: string, upper: char -> string) returns (r: Result<seq<bv8>, Base32Error>)
    ensures r == Decoding(Normalized(input, upper))
  {
    hide LowBits, ShiftRight, TextBits, Bytes, ByteOf, IndexOf, Normalized, OnlyLetters, Decoding;
    var text := Normalized(input, upper);
    var bits: nat := 0;
    var value: bv32 := 0;
    var bytes: seq<bv8> := [];
    ghost var used: Bits := [];
    BytesOfNone();
    for i := 0 to |text|
      invariant bits < 8 && |used| % 8 == 0
      invariant OnlyLetters(text[..i]) && TextBits(text[..i]) == used + LowBits(value, bits)
      invariant bytes == Bytes(used)
    {
      var index := IndexOf(text[i]);
      if index < 0 {
        StopsAtOther(text, i);
        return Err(PersistenceFailure);
      }
      LetterRead(text, i);
      PushLetter(text, i, used, value, bits);
      value := (value << 5) | (index as bv32);
      bits := bits + 5;
      if bits >= 8 {
        PushedByte(used, value, bits);
        used := used + LowBits(ShiftRight(value, bits - 8), 8);
        bytes := bytes + [(ShiftRight(value, bits - 8) & 255) as bv8];
        bits := bits - 8;
      }
    }
    assert text[..|text|] == text;
    AllRead(text, used, value, bits);
    r := Ok(bytes);
  }

  lemma BytesOfNone()
    ensures Bytes([]) == [] && OnlyLetters("") && TextBits("") == [] && forall v :: LowBits(v, 0) == []
  {
  }

  lemma IncompleteByte(bits: Bits)
    requires |bits| < 8
    ensures Bytes(bits) == []
  {
  }

  // ----- Round trips -----

  lemma {:induction false} LettersKeepBits(bits: Bits)
    requires |bits| % 5 == 0
    ensures OnlyLetters(Letters(bits)) && TextBits(Letters(bits)) == bits
    decreases |bits|
  {
    hide Letter, IndexBits, Position;
    if bits == [] {
    } else {
      LettersKeepBits(bits[5..]);
      LetterKeepsGroup(bits[..5]);
      assert Letters(bits)[1..] == Letters(bits[5..]);
      assert bits == bits[..5] + bits[5..];
    }
  }

  lemma {:induction false} BytesKeepBytes(bytes: seq<bv8>, rest: Bits)
    requires |rest| < 8
    ensures Bytes(BitsOf(bytes) + rest) == bytes
  {
    hide ByteOf, LowBits, ByteBits;
    if bytes == [] {
      assert BitsOf(bytes) + rest == rest;
    } else {
      var bits := BitsOf(bytes) + rest;
      assert bits[..8] == ByteBits(bytes[0]) && bits[8..] == BitsOf(bytes[1..]) + rest;
      ByteKeepsBits(bytes[0]);
      BytesKeepBytes(bytes[1..], rest);
    }
  }

  /** Decoding undoes encoding for every byte sequence. */
  lemma DecodeInvertsEncode(bytes: seq<bv8>)
    ensures Decoding(Encoding(bytes)) == Ok(bytes)
  {
    hide Letters, TextBits, Bytes, BitsOf;
    LettersKeepBits(Padded(BitsOf(bytes)));
    BytesKeepBytes(bytes, Zeros(Missing(|BitsOf(bytes)|)));
  }

  function AsciiUpper(c: char): char {
    if 'a' <= c <= 'z' then (c as int - 32) as char else c
  }

  /** Upper-casing as the platform does it on ASCII; other characters may map to anything. */
  ghost predicate UppersAscii(upper: char -> string) {
    forall c: char :: c as int < 128 ==> upper(c) == [AsciiUpper(c)]
  }

  /** The text spells the code in any mix of cases, with white space anywhere. */
  predicate Spells(text: string, code: string) {
    if text == "" then code == ""
    else if IsSpace(text[0]) then Spells(text[1..], code)
    else code != "" && text[0] as int < 128 && AsciiUpper(text[0]) == code[0] && Spells(text[1..], code[1..])
  }

  function Equals(n: nat): string {
    seq(n, _ => '=')
  }

  lemma {:induction false} PaddingIsStripped(text: string, n: nat)
    requires text == "" || text[|text| - 1] != '='
    ensures WithoutPadding(text + Equals(n)) == text
  {
    if n == 0 {
      assert text + Equals(n) == text;
    } else {
      assert (text + Equals(n))[..|text + Equals(n)| - 1] == text + Equals(n - 1);
      PaddingIsStripped(text, n - 1);
    }
  }

  lemma {:induction false} SpelledTextHasNoPadding(text: string, code: string)
    requires Spells(text, code) && OnlyLetters(code)
    ensures forall i :: 0 <= i < |text| ==> text[i] != '='
  {
    if text == "" {
    } else if IsSpace(text[0]) {
      SpelledTextHasNoPadding(text[1..], code);
      assert forall i :: 0 < i < |text| ==> text[i] == text[1..][i - 1];
    } else {
      SpelledTextHasNoPadding(text[1..], code[1..]);
      assert forall i :: 0 < i < |text| ==> text[i] == text[1..][i - 1];
      assert IsLetter(code[0]);
    }
  }

  lemma {:induction false} SpelledTextNormalizes(text: string, code: string, upper: char -> string)
    requires Spells(text, code) && UppersAscii(upper)
    ensures UpperCase(WithoutSpaces(text), upper) == code
  {
    hide IsSpace;
    if text == "" {
    } else if IsSpace(text[0]) {
      SpelledTextNormalizes(text[1..], code, upper);
    } else {
      SpelledTextNormalizes(text[1..], code[1..], upper);
      assert WithoutSpaces(text)[1..] == WithoutSpaces(text[1..]);
      assert code == [code[0]] + code[1..];
    }
  }

  /** Any spelling of an encoding, padded with any number of '=', decodes to the same bytes. */
  lemma AnySpellingDecodes(bytes: seq<bv8>, text: string, n: nat, upper: char -> string)
    requires Spells(text, Encoding(bytes)) && UppersAscii(upper)
    ensures Decoding(Normalized(text + Equals(n), upper)) == Ok(bytes)
  {
    hide Encoding, Decoding, Spells, IsLetter;
    DecodeInvertsEncode(bytes);
    assert OnlyLetters(Encoding(bytes)) by {
      EncodingHasOnlyLetters(bytes);
    }
    SpelledTextHasNoPadding(text, Encoding(bytes));
    PaddingIsStripped(text, n);
    SpelledTextNormalizes(text, Encoding(bytes), upper);
  }

  lemma EncodingHasOnlyLetters(bytes: seq<bv8>)
    ensures OnlyLetters(Encoding(bytes))
  {
    LettersKeepBits(Padded(BitsOf(bytes)));
  }

  /** The bits that do not fill a byte. */
  function LeftOver(text: string): Bits
    requires OnlyLetters(text)
  {
    TextBits(text)[8 * (5 * |text| / 8)..]
  }

  lemma {:induction false} BitsOfBytes(bits: Bits)
    ensures BitsOf(Bytes(bits)) == bits[..8 * (|bits| / 8)]
    decreases |bits|
  {
    hide ByteOf, ByteBits;
    if |bits| < 8 {
    } else {
      BitsOfBytes(bits[8..]);
      BitsKeepByte(bits[..8]);
      assert Bytes(bits)[1..] == Bytes(bits[8..]);
      assert bits[..8 * (|bits| / 8)] == bits[..8] + bits[8..][..8 * (|bits[8..]| / 8)];
    }
  }

  lemma {:induction false} TextKeepsLetters(text: string)
    requires OnlyLetters(text)
    ensures Letters(TextBits(text)) == text
  {
    hide Letter, IndexBits, IndexOf, IsLetter;
    if text == "" {
    } else {
      IndexOfLetter(text[0]);
      TextKeepsLetters(text[1..]);
      LetterOfIndex(text[0]);
      assert TextBits(text)[..5] == IndexBits(IndexOf(text[0])) && TextBits(text)[5..] == TextBits(text[1..]);
      assert text == [text[0]] + text[1..];
    }
  }

  lemma LetterOfIndex(c: char)
    requires IsLetter(c)
    ensures 0 <= IndexOf(c) < 32 && Letter(IndexBits(IndexOf(c))) == c
  {
    hide IndexBits, Number;
    NumberOfIndexBits(IndexOf(c));
  }

  /**
    Encoding undoes decoding exactly when the left-over bits are fewer than a letter's and all
    zero; otherwise several texts decode to the same bytes.
   */
  lemma EncodeInvertsDecodeIff(text: string)
    requires OnlyLetters(text)
    ensures Encoding(Decoding(text).value) == text
       <==> |LeftOver(text)| < 5 && forall i :: 0 <= i < |LeftOver(text)| ==> !LeftOver(text)[i]
  {
    hide TextBits, Bytes, BitsOf, Letters, IsLetter;
    var bits := TextBits(text);
    var whole := bits[..8 * (|bits| / 8)];
    BitsOfBytes(bits);
    TextKeepsLetters(text);
    LettersKeepBits(Padded(whole));
    PaddedBack(bits, |whole|);
  }

  lemma PaddedBack(bits: Bits, k: nat)
    requires |bits| % 5 == 0 && k <= |bits|
    ensures Padded(bits[..k]) == bits <==> |bits| - k < 5 && forall i :: 0 <= i < |bits[k..]| ==> !bits[k..][i]
  {
    var whole, rest := bits[..k], bits[k..];
    assert bits == whole + rest;
    if Padded(whole) == bits {
      assert rest == Zeros(Missing(k));
    }
  }

  /** White space, or a character whose upper case is made of letters. */
  predicate Acceptable(c: char, upper: char -> string) {
    IsSpace(c) || OnlyLetters(upper(c))
  }

  predicate AllAcceptable(text: string, upper: char -> string) {
    forall i :: 0 <= i < |text| ==> Acceptable(text[i], upper)
  }

  lemma LettersOfTwo(a: string, b: string)
    ensures OnlyLetters(a + b) <==> OnlyLetters(a) && OnlyLetters(b)
  {
    hide IsLetter;
    if OnlyLetters(a + b) {
      assert forall i :: 0 <= i < |a| ==> (a + b)[i] == a[i];
      assert forall i :: 0 <= i < |b| ==> (a + b)[|a| + i] == b[i];
    }
  }

  lemma AcceptableFirst(text: string, upper: char -> string)
    requires text != ""
    ensures AllAcceptable(text, upper) <==> Acceptable(text[0], upper) && AllAcceptable(text[1..], upper)
  {
    hide Acceptable;
    assert forall i :: 0 < i < |text| ==> text[i] == text[1..][i - 1];
  }

  lemma {:induction false} NormalizedLettersIff(text: string, upper: char -> string)
    ensures OnlyLetters(UpperCase(WithoutSpaces(text), upper)) <==> AllAcceptable(text, upper)
  {
    hide IsSpace, IsLetter;
    if text == "" {
    } else {
      hide OnlyLetters, AllAcceptable;
      NormalizedLettersIff(text[1..], upper);
      AcceptableFirst(text, upper);
      if !IsSpace(text[0]) {
        assert WithoutSpaces(text)[0] == text[0] && WithoutSpaces(text)[1..] == WithoutSpaces(text[1..]);
        LettersOfTwo(upper(text[0]), UpperCase(WithoutSpaces(text[1..]), upper));
      }
    }
  }

  /**
    A text is accepted exactly when, after its trailing '=' are gone, every character is white space
    or becomes letters in upper case; so it is refused when '=' is followed by white space.
   */
  lemma DecodeFailsIff(text: string, upper: char -> string)
    ensures Decoding(Normalized(text, upper)).Err? <==> !AllAcceptable(WithoutPadding(text), upper)
  {
    hide AllAcceptable, OnlyLetters;
    NormalizedLettersIff(WithoutPadding(text), upper);
  }

  /** Of the ASCII characters, exactly white space and the letters in either case are acceptable. */
  lemma AcceptableAscii(c: char, upper: char -> string)
    requires UppersAscii(upper) && c as int < 128
    ensures Acceptable(c, upper) <==> IsSpace(c) || IsLetter(AsciiUpper(c))
  {
    hide IsSpace, IsLetter;
    assert OnlyLetters([AsciiUpper(c)]) <==> IsLetter([AsciiUpper(c)][0]);
  }
}
