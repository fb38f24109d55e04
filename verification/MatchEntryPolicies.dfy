/** The entry requirement read from a match's immutable ruleset snapshot. */
module MatchEntryPolicies {
  import opened Wrappers

  /** A JSON value as far as the parser looks at it. */
  datatype Field = Undefined | Text(text: string) | Boolean(flag: bool) | OtherField

  datatype EntryValue = EntryNotObject | EntryObject(assetCode: Field, amountPerParticipant: Field, required: Field)

  datatype Configuration = NotAnObject | WithoutEntry | WithEntry(entry: EntryValue)

  datatype Requirement = Requirement(amount: nat, required: bool)

  datatype PolicyError = MatchInvalid

  predicate IsDigit(c: char) {
    '0' <= c <= '9'
  }

  /** The pattern of a canonical decimal of at most thirteen digits. */
  predicate IsAmount(s: string) {
    s == "0" || (0 < |s| <= 13 && '1' <= s[0] <= '9' && forall i :: 0 < i < |s| ==> IsDigit(s[i]))
  }

  function DecimalValue(s: string): (n: nat)
    requires forall i :: 0 <= i < |s| ==> IsDigit(s[i])
  {
    if s == "" then 0
    else
      var last := s[|s| - 1];
      assert IsDigit(last);
      10 * DecimalValue(s[..|s| - 1]) + (last as nat - '0' as nat)
  }

  function ParseEntry(entry: EntryValue): Result<Requirement, PolicyError> {
    match entry
    case EntryNotObject => Err(MatchInvalid)
    case EntryObject(assetCode, amountPerParticipant, required) =>
      if assetCode != Text("ARENA_POINT") || !amountPerParticipant.Text? || !IsAmount(amountPerParticipant.text) then
        Err(MatchInvalid)
      else
        var amount := DecimalValue(amountPerParticipant.text);
        match required
        case Undefined => Ok(Requirement(amount, amount > 0))
        case Boolean(flag) => if flag == (amount > 0) then Ok(Requirement(amount, flag)) else Err(MatchInvalid)
        case _ => Err(MatchInvalid)
  }

  function ParseRequirement(configuration: Configuration): Result<Requirement, PolicyError> {
    match configuration
    case NotAnObject => Ok(Requirement(0, false))
    case WithoutEntry => Ok(Requirement(0, false))
    case WithEntry(entry) => ParseEntry(entry)
  }

  lemma {:induction false} DecimalBound(s: string)
    requires forall i :: 0 <= i < |s| ==> IsDigit(s[i])
    ensures DecimalValue(s) < Pow10(|s|)
    ensures s != "" && s[0] != '0' ==> Pow10(|s| - 1) <= DecimalValue(s)
  {
    if s == "" {
    } else {
      DecimalBound(s[..|s| - 1]);
      if |s| == 1 {
        assert s[..0] == "";
      }
    }
  }

  function Pow10(n: nat): nat {
    if n == 0 then 1 else 10 * Pow10(n - 1)
  }

  lemma {:induction false} Pow10Monotonic(m: nat, n: nat)
    requires m <= n
    ensures 1 <= Pow10(m) <= Pow10(n)
  {
    if m == n {
      if m > 0 {
        Pow10Monotonic(m - 1, n - 1);
      }
    } else {
      Pow10Monotonic(m, n - 1);
    }
  }

  /**
    Whatever the configuration, a parsed requirement is required exactly when the stake is
    positive, and the stake stays below ten to the thirteenth; the parse fails exactly on a
    malformed entry or a flag that contradicts the amount.
   */
  lemma RequiredExactlyWhenPositive(configuration: Configuration)
    ensures ParseRequirement(configuration).Ok? ==>
              var r := ParseRequirement(configuration).value;
              (r.required <==> r.amount > 0) && r.amount < 10_000_000_000_000
    ensures ParseRequirement(configuration).Err? <==>
              && configuration.WithEntry?
              && (|| configuration.entry.EntryNotObject?
                  || configuration.entry.assetCode != Text("ARENA_POINT")
                  || !configuration.entry.amountPerParticipant.Text?
                  || !IsAmount(configuration.entry.amountPerParticipant.text)
                  || configuration.entry.required.Text?
                  || configuration.entry.required.OtherField?
                  || configuration.entry.required == Boolean(configuration.entry.amountPerParticipant.text == "0"))
  {
    if configuration.WithEntry? && configuration.entry.EntryObject? && configuration.entry.amountPerParticipant.Text? {
      var s := configuration.entry.amountPerParticipant.text;
      if IsAmount(s) {
        DecimalBound(s);
        Pow10Monotonic(|s|, 13);
        Pow10Monotonic(|s| - 1, 13);
        TenToTheThirteenth();
        assert "0"[..0] == "";
        assert s == "0" ==> DecimalValue(s) == 0;
      }
    }
  }

  // ----- The stake is the number its text spells -----

  /** The canonical decimal text of a number, by repeated division. */
  function Decimal(n: nat): (text: string)
    ensures text != "" && forall i :: 0 <= i < |text| ==> '0' <= text[i] <= '9'
  {
    var last := ['0' + (n % 10) as char];
    if n < 10 then last else Decimal(n / 10) + last
  }

  lemma {:induction false} DecimalReadsBack(n: nat)
    ensures DecimalValue(Decimal(n)) == n
  {
    var text := Decimal(n);
    if n < 10 {
      assert text[..0] == "";
    } else {
      DecimalReadsBack(n / 10);
      assert text[..|text| - 1] == Decimal(n / 10);
    }
  }

  /** Only zero begins with a zero. */
  lemma {:induction false} DecimalHasNoLeadingZero(n: nat)
    ensures Decimal(n)[0] == '0' <==> n == 0
  {
    if n >= 10 {
      DecimalHasNoLeadingZero(n / 10);
      assert Decimal(n)[0] == Decimal(n / 10)[0];
    }
  }

  /** A digit text without a leading zero is the decimal text of the number it spells. */
  lemma {:induction false} TextSpellsItsValue(s: string)
    requires s != "" && forall i :: 0 <= i < |s| ==> IsDigit(s[i])
    requires s[0] != '0' || |s| == 1
    ensures Decimal(DecimalValue(s)) == s
  {
    var init, last := s[..|s| - 1], s[|s| - 1];
    assert IsDigit(last);
    var digit := last as nat - '0' as nat;
    assert '0' + digit as char == last;
    assert s == init + [last];
    if |s| == 1 {
      assert init == "" && DecimalValue(s) == digit;
    } else {
      TextSpellsItsValue(init);
      DecimalBound(init);
      assert DecimalValue(init) >= Pow10(|init| - 1) >= 1 by {
        Pow10Monotonic(0, |init| - 1);
      }
      assert DecimalValue(s) == 10 * DecimalValue(init) + digit;
      assert DecimalValue(s) / 10 == DecimalValue(init) && DecimalValue(s) % 10 == digit;
    }
  }

  lemma TenToTheThirteenth()
    ensures Pow10(13) == 10_000_000_000_000
  {
    assert Pow10(4) == 10_000;
    assert Pow10(8) == 100_000_000;
    assert Pow10(12) == 1_000_000_000_000;
  }

  /** The accepted texts are exactly the decimal texts of the numbers below ten to the thirteenth. */
  lemma AmountsAreDecimals(s: string)
    ensures IsAmount(s) <==> exists n: nat :: n < 10_000_000_000_000 && s == Decimal(n)
  {
    TenToTheThirteenth();
    if IsAmount(s) {
      var n := DecimalValue(s);
      TextSpellsItsValue(s);
      DecimalBound(s);
      Pow10Monotonic(|s|, 13);
      assert n < 10_000_000_000_000 && s == Decimal(n);
    }
    if n: nat :| n < 10_000_000_000_000 && s == Decimal(n) {
      DecimalHasNoLeadingZero(n);
      DecimalReadsBack(n);
      if n > 0 {
        DecimalBound(s);
        if |s| > 13 {
          Pow10Monotonic(13, |s| - 1);
        }
      }
    }
  }

  /** The snapshot asks for a stake of `n` points from every participant. */
  predicate AsksFor(configuration: Configuration, n: nat) {
    match configuration
    case NotAnObject => n == 0
    case WithoutEntry => n == 0
    case WithEntry(EntryNotObject) => false
    case WithEntry(EntryObject(assetCode, amountPerParticipant, required)) =>
      && assetCode == Text("ARENA_POINT")
      && n < 10_000_000_000_000 && amountPerParticipant == Text(Decimal(n))
      && (required == Undefined || required == Boolean(n > 0))
  }

  /** The parser reads a stake of `n` exactly where the snapshot spells one, and nothing else. */
  lemma StakeIsSpelled(configuration: Configuration, n: nat)
    ensures ParseRequirement(configuration) == Ok(Requirement(n, n > 0)) <==> AsksFor(configuration, n)
    ensures ParseRequirement(configuration).Ok? ==>
              AsksFor(configuration, ParseRequirement(configuration).value.amount)
  {
    hide Decimal, DecimalValue;
    RequiredExactlyWhenPositive(configuration);
    if configuration.WithEntry? && configuration.entry.EntryObject? && configuration.entry.amountPerParticipant.Text? {
      var s := configuration.entry.amountPerParticipant.text;
      AmountsAreDecimals(s);
      DecimalReadsBack(n);
      if IsAmount(s) {
        TextSpellsItsValue(s);
        if s == "0" {
          DecimalHasNoLeadingZero(0);
        }
      }
    }
  }

  /** No snapshot asks for two stakes. */
  lemma StakeIsUnique(configuration: Configuration, m: nat, n: nat)
    requires AsksFor(configuration, m) && AsksFor(configuration, n)
    ensures m == n
  {
    DecimalReadsBack(m);
    DecimalReadsBack(n);
  }
}
