/**
 * The Money value object: an amount in integer cents that is never negative and an
 * upper-cased currency code, parsed from a localized price string and formatted back
 * as "1.499,00 EUR".
 *
 * PHP's `(float)` cast and `round()` are modelled with exact decimals: the cast reads
 * the longest `digits[.digits]` prefix as a `real`, and rounding is half away from zero.
 */
module ValueObjects {
  import opened Wrappers

  /** The two exceptions Money throws: the constructor's negative check, and an unparsable price. */
  datatype MoneyError = NegativeAmount | CannotParse(raw: string)

  /**
   * A Money value as the private constructor builds it: the amount is never negative and the
   * currency has been through `strtoupper`, so it holds no ASCII lower-case letter.
   */
  datatype Money = Money(amountInCents: nat, currency: Currency)

  /** A currency code with no ASCII lower-case letter. */
  type Currency = c: string | IsUpperCased(c) witness ""

  predicate IsUpperCased(c: string) { forall i :: 0 <= i < |c| ==> !('a' <= c[i] <= 'z') }

  // ---------------------------------------------------------------------------
  // Characters

  predicate IsDigit(c: char) { '0' <= c <= '9' }

  /** The characters the price normaliser keeps: digits, comma and period. */
  predicate IsPriceChar(c: char) { IsDigit(c) || c == ',' || c == '.' }

  /** PHP's default `trim()` set: space, tab, newline, carriage return, NUL, vertical tab. */
  predicate IsTrimChar(c: char) {
    c == ' ' || c == '\t' || c == '\n' || c == '\r' || c == '\0' || c == '\U{0B}'
  }

  predicate AllDigits(s: string) { forall i :: 0 <= i < |s| ==> IsDigit(s[i]) }

  predicate NoPriceChar(s: string) { forall i :: 0 <= i < |s| ==> !IsPriceChar(s[i]) }

  /** `strtoupper` on one character: ASCII letters only. */
  function UpperChar(c: char): char {
    if 'a' <= c <= 'z' then (c as int - 32) as char else c
  }

  /** `strtoupper`: works character by character, changing only ASCII lower-case letters. */
  function StrToUpper(s: string): (r: string)
    ensures |r| == |s|
    ensures forall i :: 0 <= i < |s| ==> r[i] == UpperChar(s[i])
  {
    if s == [] then [] else [UpperChar(s[0])] + StrToUpper(s[1..])
  }

  /** Upper-casing leaves a string of digits as it is. */
  lemma UpperOfDigitString(s: string)
    requires AllDigits(s)
    ensures StrToUpper(s) == s
  {
  }

  /** A currency is stored in upper case: no ASCII lower-case letter is left, and upper-casing again changes nothing. */
  lemma CurrencyIsUpperCase(currency: string)
    ensures forall i :: 0 <= i < |currency| ==> !('a' <= StrToUpper(currency)[i] <= 'z')
    ensures StrToUpper(StrToUpper(currency)) == StrToUpper(currency)
  {
    UpperCasedIsFixed(StrToUpper(currency));
  }

  /** `strtoupper` leaves a string without ASCII lower-case letters as it is. */
  lemma {:induction false} UpperCasedIsFixed(s: string)
    requires IsUpperCased(s)
    ensures StrToUpper(s) == s
  {
    if s != [] {
      UpperCasedIsFixed(s[1..]);
      assert s == [s[0]] + s[1..];
    }
  }

  // ---------------------------------------------------------------------------
  // The string operations of the normaliser

  /** `preg_replace('/[^0-9,\.]/u', '', s)`: keep only digits, commas and periods. */
  function KeepPriceChars(s: string): (r: string)
    ensures |r| <= |s|
  {
    if s == [] then []
    else (if IsPriceChar(s[0]) then [s[0]] else []) + KeepPriceChars(s[1..])
  }

  /** `str_replace(c, '', s)` for a single character. */
  function RemoveChar(s: string, c: char): (r: string)
    ensures |r| <= |s|
  {
    if s == [] then []
    else (if s[0] == c then [] else [s[0]]) + RemoveChar(s[1..], c)
  }

  /** `str_replace(a, b, s)` for single characters. */
  function ReplaceChar(s: string, a: char, b: char): (r: string)
    ensures |r| == |s|
  {
    if s == [] then []
    else [if s[0] == a then b else s[0]] + ReplaceChar(s[1..], a, b)
  }

  function TrimStart(s: string): string {
    if s != [] && IsTrimChar(s[0]) then TrimStart(s[1..]) else s
  }

  function TrimEnd(s: string): string {
    if s != [] && IsTrimChar(s[|s| - 1]) then TrimEnd(s[..|s| - 1]) else s
  }

  /** PHP's `trim()`. */
  function Trim(s: string): string {
    TrimEnd(TrimStart(s))
  }

  /** The filter keeps only digits, commas and periods. */
  lemma {:induction false} KeptArePriceChars(s: string)
    ensures forall i :: 0 <= i < |KeepPriceChars(s)| ==> IsPriceChar(KeepPriceChars(s)[i])
  {
    if s != [] {
      KeptArePriceChars(s[1..]);
    }
  }

  /** The filter leaves nothing exactly when there is no digit, comma or period. */
  lemma {:induction false} KeepEmpty(s: string)
    ensures KeepPriceChars(s) == [] <==> NoPriceChar(s)
  {
    if s != [] {
      KeepEmpty(s[1..]);
      assert NoPriceChar(s) <==> !IsPriceChar(s[0]) && NoPriceChar(s[1..]);
    }
  }

  /** `str_replace` removes every occurrence. */
  lemma {:induction false} RemovedIsAbsent(s: string, c: char)
    ensures forall i :: 0 <= i < |RemoveChar(s, c)| ==> RemoveChar(s, c)[i] != c
  {
    if s != [] {
      RemovedIsAbsent(s[1..], c);
    }
  }

  /** The filter keeps the order of what it keeps: filtering a concatenation concatenates the filtered parts. */
  lemma {:induction false} KeepConcat(a: string, b: string)
    ensures KeepPriceChars(a + b) == KeepPriceChars(a) + KeepPriceChars(b)
  {
    if a != [] {
      assert (a + b)[1..] == a[1..] + b;
      KeepConcat(a[1..], b);
    } else {
      assert a + b == b;
    }
  }

  lemma {:induction false} KeepAll(s: string)
    requires forall i :: 0 <= i < |s| ==> IsPriceChar(s[i])
    ensures KeepPriceChars(s) == s
  {
    if s != [] {
      KeepAll(s[1..]);
    }
  }

  /** Removing a character keeps the order of the rest: it distributes over concatenation. */
  lemma {:induction false} RemoveConcat(a: string, b: string, c: char)
    ensures RemoveChar(a + b, c) == RemoveChar(a, c) + RemoveChar(b, c)
  {
    if a != [] {
      assert (a + b)[1..] == a[1..] + b;
      RemoveConcat(a[1..], b, c);
    } else {
      assert a + b == b;
    }
  }

  lemma RemoveSingle(c: char, x: char)
    ensures RemoveChar([c], x) == if c == x then [] else [c]
  {
    assert [c][1..] == [];
  }

  lemma {:induction false} RemoveCharKeepsOthers(s: string, c: char, i: nat)
    requires i < |RemoveChar(s, c)|
    ensures RemoveChar(s, c)[i] in s
  {
    if s[0] == c {
      RemoveCharKeepsOthers(s[1..], c, i);
    } else if i > 0 {
      RemoveCharKeepsOthers(s[1..], c, i - 1);
    }
  }

  lemma {:induction false} RemoveAbsent(s: string, c: char)
    requires forall i :: 0 <= i < |s| ==> s[i] != c
    ensures RemoveChar(s, c) == s
  {
    if s != [] {
      RemoveAbsent(s[1..], c);
    }
  }

  /** Replacing a character keeps the order: it distributes over concatenation. */
  lemma {:induction false} ReplaceConcat(a: string, b: string, x: char, y: char)
    ensures ReplaceChar(a + b, x, y) == ReplaceChar(a, x, y) + ReplaceChar(b, x, y)
  {
    if a != [] {
      assert (a + b)[1..] == a[1..] + b;
      ReplaceConcat(a[1..], b, x, y);
    } else {
      assert a + b == b;
    }
  }

  /** `str_replace` of one character by another works in place: each `x` becomes `y` where it stands. */
  lemma {:induction false} ReplaceCharInPlace(s: string, x: char, y: char)
    ensures |ReplaceChar(s, x, y)| == |s|
    ensures forall i :: 0 <= i < |s| ==> ReplaceChar(s, x, y)[i] == if s[i] == x then y else s[i]
  {
    if s != [] {
      ReplaceCharInPlace(s[1..], x, y);
    }
  }

  lemma {:induction false} ReplaceAbsent(s: string, x: char, y: char)
    requires forall i :: 0 <= i < |s| ==> s[i] != x
    ensures ReplaceChar(s, x, y) == s
  {
    if s != [] {
      ReplaceAbsent(s[1..], x, y);
    }
  }

  lemma {:induction false} TrimStartKeeps(s: string)
    ensures KeepPriceChars(TrimStart(s)) == KeepPriceChars(s)
  {
    if s != [] && IsTrimChar(s[0]) {
      TrimStartKeeps(s[1..]);
    }
  }

  lemma {:induction false} TrimEndKeeps(s: string)
    ensures KeepPriceChars(TrimEnd(s)) == KeepPriceChars(s)
  {
    if s != [] && IsTrimChar(s[|s| - 1]) {
      var init := s[..|s| - 1];
      assert s == init + [s[|s| - 1]];
      KeepConcat(init, [s[|s| - 1]]);
      TrimEndKeeps(init);
    }
  }

  /** The `trim()` before the character filter never changes what the filter keeps. */
  lemma TrimKeepsPriceChars(s: string)
    ensures KeepPriceChars(Trim(s)) == KeepPriceChars(s)
  {
    TrimStartKeeps(s);
    TrimEndKeeps(TrimStart(s));
  }

  /** The filter keeps every digit, comma and period as often as it occurs, and nothing else. */
  lemma {:induction false} KeepPriceCharsCounts(s: string)
    ensures forall c :: multiset(KeepPriceChars(s))[c] == if IsPriceChar(c) then multiset(s)[c] else 0
  {
    if s != [] {
      KeepPriceCharsCounts(s[1..]);
      assert s == [s[0]] + s[1..];
    }
  }

  lemma {:induction false} TrimStartShape(s: string)
    ensures |TrimStart(s)| <= |s| && TrimStart(s) == s[|s| - |TrimStart(s)|..]
    ensures forall k :: 0 <= k < |s| - |TrimStart(s)| ==> IsTrimChar(s[k])
    ensures TrimStart(s) == [] || !IsTrimChar(TrimStart(s)[0])
  {
    if s != [] && IsTrimChar(s[0]) {
      TrimStartShape(s[1..]);
      assert s[1..][|s[1..]| - |TrimStart(s)|..] == s[|s| - |TrimStart(s)|..];
      forall k | 1 <= k < |s| - |TrimStart(s)|
        ensures IsTrimChar(s[k])
      {
        assert s[k] == s[1..][k - 1];
      }
    }
  }

  lemma {:induction false} TrimStartCounts(s: string)
    ensures forall c :: !IsTrimChar(c) ==> multiset(TrimStart(s))[c] == multiset(s)[c]
  {
    if s != [] && IsTrimChar(s[0]) {
      TrimStartCounts(s[1..]);
      forall c | !IsTrimChar(c)
        ensures multiset(s)[c] == multiset(s[1..])[c]
      {
        CountAtHead(s, c);
      }
    }
  }

  lemma {:induction false} TrimEndShape(s: string)
    ensures |TrimEnd(s)| <= |s| && TrimEnd(s) == s[..|TrimEnd(s)|]
    ensures forall k :: |TrimEnd(s)| <= k < |s| ==> IsTrimChar(s[k])
    ensures TrimEnd(s) == [] || !IsTrimChar(TrimEnd(s)[|TrimEnd(s)| - 1])
  {
    if s != [] && IsTrimChar(s[|s| - 1]) {
      TrimEndShape(s[..|s| - 1]);
    }
  }

  lemma {:induction false} TrimEndCounts(s: string)
    ensures forall c :: !IsTrimChar(c) ==> multiset(TrimEnd(s))[c] == multiset(s)[c]
  {
    if s != [] && IsTrimChar(s[|s| - 1]) {
      TrimEndCounts(s[..|s| - 1]);
      forall c | !IsTrimChar(c)
        ensures multiset(s)[c] == multiset(s[..|s| - 1])[c]
      {
        CountAtLast(s, c);
      }
    }
  }

  /** How often `x` occurs in a non-empty string: in all but the last character, plus at the last. */
  lemma CountAtLast(s: string, x: char)
    requires s != []
    ensures multiset(s)[x] == multiset(s[..|s| - 1])[x] + if s[|s| - 1] == x then 1 else 0
  {
    assert s == s[..|s| - 1] + [s[|s| - 1]];
  }

  /** `trim()` keeps every character that is not a trim character as often as it occurs. */
  lemma TrimCounts(s: string)
    ensures forall c :: !IsTrimChar(c) ==> multiset(Trim(s))[c] == multiset(s)[c]
  {
    TrimStartCounts(s);
    TrimEndCounts(TrimStart(s));
  }

  /**
   * `trim()` cuts only at the two ends: the result is the slice of `s` that starts where
   * `TrimStart` stopped, everything cut before and after it is a trim character, no trim character is left at either end, and
   * every other character is kept as often as it occurs.
   */
  lemma TrimShape(s: string)
    ensures |TrimStart(s)| <= |s| && |Trim(s)| <= |TrimStart(s)|
    ensures Trim(s) == s[|s| - |TrimStart(s)|..|s| - |TrimStart(s)| + |Trim(s)|]
    ensures forall k :: 0 <= k < |s| - |TrimStart(s)| ==> IsTrimChar(s[k])
    ensures forall k :: |s| - |TrimStart(s)| + |Trim(s)| <= k < |s| ==> IsTrimChar(s[k])
    ensures Trim(s) == [] || (!IsTrimChar(Trim(s)[0]) && !IsTrimChar(Trim(s)[|Trim(s)| - 1]))
    ensures forall c :: !IsTrimChar(c) ==> multiset(Trim(s))[c] == multiset(s)[c]
  {
    TrimStartShape(s);
    var t := TrimStart(s);
    TrimEndShape(t);
    TrimCounts(s);
    assert Trim(s) == t[..|Trim(s)|];
    SliceOfSuffix(s, t, |s| - |t|, |Trim(s)|);
  }

  /** A prefix of the suffix `t` of `s` is a slice of `s`, and what follows it in `t` follows it in `s`. */
  lemma SliceOfSuffix(s: string, t: string, i: nat, n: nat)
    requires i + n <= |s| && t == s[i..]
    ensures t[..n] == s[i..i + n]
    ensures forall k :: i + n <= k < |s| ==> s[k] == t[k - i]
  {
  }

  lemma {:induction false} RemoveCharCounts(s: string, c: char)
    ensures forall x :: multiset(RemoveChar(s, c))[x] == if x == c then 0 else multiset(s)[x]
  {
    if s != [] {
      RemoveCharCounts(s[1..], c);
      assert s == [s[0]] + s[1..];
    }
  }

  lemma {:induction false} ReplaceCharCounts(s: string, a: char, b: char)
    requires a != b
    ensures multiset(ReplaceChar(s, a, b))[a] == 0
    ensures multiset(ReplaceChar(s, a, b))[b] == multiset(s)[b] + multiset(s)[a]
    ensures forall x :: x != a && x != b ==> multiset(ReplaceChar(s, a, b))[x] == multiset(s)[x]
  {
    ReplaceCharDrops(s, a, b);
    ReplaceCharMoves(s, a, b);
    forall x | x != a && x != b
      ensures multiset(ReplaceChar(s, a, b))[x] == multiset(s)[x]
    {
      ReplaceCharKeeps(s, a, b, x);
    }
  }

  /** How often `x` occurs in a non-empty string: at the head, plus in the rest. */
  lemma CountAtHead(s: string, x: char)
    requires s != []
    ensures multiset(s)[x] == multiset(s[1..])[x] + if s[0] == x then 1 else 0
  {
    assert s == [s[0]] + s[1..];
  }

  /** After the replacement no `a` is left. */
  lemma {:induction false} ReplaceCharDrops(s: string, a: char, b: char)
    requires a != b
    ensures multiset(ReplaceChar(s, a, b))[a] == 0
  {
    if s != [] {
      ReplaceCharDrops(s[1..], a, b);
      assert ReplaceChar(s, a, b) == [if s[0] == a then b else s[0]] + ReplaceChar(s[1..], a, b);
    }
  }

  /** Every `a` turns into a `b`: the `b`s are the old `b`s and the old `a`s. */
  lemma {:induction false} ReplaceCharMoves(s: string, a: char, b: char)
    requires a != b
    ensures multiset(ReplaceChar(s, a, b))[b] == multiset(s)[b] + multiset(s)[a]
  {
    if s != [] {
      ReplaceCharMoves(s[1..], a, b);
      CountAtHead(s, a);
      CountAtHead(s, b);
      assert ReplaceChar(s, a, b) == [if s[0] == a then b else s[0]] + ReplaceChar(s[1..], a, b);
    }
  }

  /** Every other character occurs as often as before. */
  lemma {:induction false} ReplaceCharKeeps(s: string, a: char, b: char, x: char)
    requires x != a && x != b
    ensures multiset(ReplaceChar(s, a, b))[x] == multiset(s)[x]
  {
    if s != [] {
      ReplaceCharKeeps(s[1..], a, b, x);
      CountAtHead(s, x);
      assert ReplaceChar(s, a, b) == [if s[0] == a then b else s[0]] + ReplaceChar(s[1..], a, b);
    }
  }

  /**
   * The string handed to the cast: unchanged without a comma; with one, the periods are dropped
   * and then each comma becomes a period where it stands, so no comma is left, there are as many
   * periods as there were commas, and every other character is kept in order.
   */
  lemma DecimalStringMeaning(normalized: string)
    ensures ',' !in normalized ==> DecimalString(normalized) == normalized
    ensures ',' in normalized ==> |DecimalString(normalized)| == |RemoveChar(normalized, '.')|
    ensures ',' in normalized ==> forall i :: 0 <= i < |DecimalString(normalized)| ==>
              DecimalString(normalized)[i] == if RemoveChar(normalized, '.')[i] == ',' then '.' else RemoveChar(normalized, '.')[i]
    ensures ',' in normalized ==> ',' !in DecimalString(normalized)
    ensures ',' in normalized ==> multiset(DecimalString(normalized))['.'] == multiset(normalized)[',']
    ensures forall c :: c != ',' && c != '.' ==> multiset(DecimalString(normalized))[c] == multiset(normalized)[c]
  {
    if ',' in normalized {
      RemoveCharCounts(normalized, '.');
      ReplaceCharCounts(RemoveChar(normalized, '.'), ',', '.');
      ReplaceCharInPlace(RemoveChar(normalized, '.'), ',', '.');
      assert multiset(DecimalString(normalized))[','] == 0;
    }
  }

  // ---------------------------------------------------------------------------
  // Numbers

  function DigitValue(c: char): nat {
    if IsDigit(c) then c as int - '0' as int else 0
  }

  function DigitChar(d: nat): (c: char)
    requires d < 10
    ensures IsDigit(c) && DigitValue(c) == d
  {
    ('0' as int + d) as char
  }

  function Pow10(n: nat): (p: nat)
    ensures p >= 1
  {
    if n == 0 then 1 else 10 * Pow10(n - 1)
  }

  /** The value of a decimal digit string, most significant digit first. */
  function DigitsValue(s: string): nat {
    if s == [] then 0 else DigitsValue(s[..|s| - 1]) * 10 + DigitValue(s[|s| - 1])
  }

  lemma {:induction false} DigitsValueConcat(a: string, b: string)
    ensures DigitsValue(a + b) == DigitsValue(a) * Pow10(|b|) + DigitsValue(b)
  {
    if b != [] {
      var b' := b[..|b| - 1];
      assert (a + b)[..|a + b| - 1] == a + b';
      DigitsValueConcat(a, b');
      ShiftDigit(DigitsValue(a), Pow10(|b'|), DigitsValue(b'), DigitValue(b[|b| - 1]));
    } else {
      assert a + b == a;
    }
  }

  lemma ShiftDigit(x: int, p: int, y: int, c: int)
    ensures (x * p + y) * 10 + c == x * (10 * p) + (y * 10 + c)
  {
  }

  /** The longest prefix of `s` made of digits. */
  function LeadingDigits(s: string): (r: string)
    ensures r <= s
    ensures AllDigits(r)
    ensures |r| == |s| || !IsDigit(s[|r|])
  {
    if s != [] && IsDigit(s[0]) then [s[0]] + LeadingDigits(s[1..]) else []
  }

  lemma {:induction false} LeadingDigitsOfDigits(a: string, b: string)
    requires AllDigits(a)
    requires b == [] || !IsDigit(b[0])
    ensures LeadingDigits(a + b) == a
  {
    if a != [] {
      assert (a + b)[1..] == a[1..] + b;
      LeadingDigitsOfDigits(a[1..], b);
    } else {
      assert a + b == b;
    }
  }

  /**
   * PHP's `(float)` cast of a string of digits and periods, as an exact decimal: the longest
   * prefix `digits[.digits]` is read, so "1.2.3" gives 1.2, "5." gives 5 and "." gives 0.
   */
  function FloatCast(s: string): (x: real)
    ensures x >= 0.0
  {
    var whole := LeadingDigits(s);
    var rest := s[|whole|..];
    var fraction := if rest != [] && rest[0] == '.' then LeadingDigits(rest[1..]) else [];
    DigitsValue(whole) as real + DigitsValue(fraction) as real / Pow10(|fraction|) as real
  }

  /** PHP's `round()` to an integer: to the nearest integer, halves away from zero. */
  function RoundHalfAwayFromZero(x: real): (r: int)
    ensures x >= 0.0 ==> r as real - 0.5 <= x < r as real + 0.5
    ensures x < 0.0 ==> r as real - 0.5 < x <= r as real + 0.5
  {
    if x >= 0.0 then (x + 0.5).Floor else -((-x + 0.5).Floor)
  }

  lemma {:induction false} DigitsValueBound(s: string)
    ensures DigitsValue(s) < Pow10(|s|)
  {
    if s != [] {
      DigitsValueBound(s[..|s| - 1]);
    }
  }

  /** The cast's whole part is the value of the leading digits; the fraction adds less than one. */
  lemma FloatCastWholePart(s: string)
    ensures DigitsValue(LeadingDigits(s)) as real <= FloatCast(s) < DigitsValue(LeadingDigits(s)) as real + 1.0
  {
    var whole := LeadingDigits(s);
    var rest := s[|whole|..];
    var fraction := if rest != [] && rest[0] == '.' then LeadingDigits(rest[1..]) else [];
    DigitsValueBound(fraction);
    FractionBelowOne(DigitsValue(fraction) as real, Pow10(|fraction|) as real);
  }

  /** A price without a fraction: the cast reads its digits exactly. */
  lemma {:induction false} CastOfWhole(x: string)
    requires AllDigits(x)
    ensures FloatCast(x) == DigitsValue(x) as real
  {
    assert x + [] == x;
    LeadingDigitsOfDigits(x, []);
    assert x[|LeadingDigits(x)|..] == [];
    assert DigitsValue([]) == 0 && Pow10(0) == 1;
  }

  lemma FractionBelowOne(v: real, p: real)
    requires 0.0 <= v < p
    ensures 0.0 <= v / p < 1.0
  {
  }

  // ---------------------------------------------------------------------------
  // Construction and parsing

  /** The private constructor: a negative amount is rejected; the currency is upper-cased. */
  function NewMoney(amountInCents: int, currency: string): (r: Result<Money, MoneyError>)
    ensures r.Failure? <==> amountInCents < 0
    ensures r.Failure? ==> r.error == NegativeAmount
    ensures r.Success? ==> r.value.amountInCents == amountInCents && r.value.currency == StrToUpper(currency)
  {
    if amountInCents < 0 then Failure(NegativeAmount) else Success(Money(amountInCents, StrToUpper(currency)))
  }

  /** `Money::fromCents`: fails exactly for a negative amount, otherwise keeps the amount as given. */
  function FromCents(amountInCents: int, currency: string := "EUR"): (r: Result<Money, MoneyError>)
    ensures r.Failure? <==> amountInCents < 0
    ensures r.Success? ==> r.value.amountInCents == amountInCents && r.value.currency == StrToUpper(currency)
  {
    NewMoney(amountInCents, currency)
  }

  /** The string handed to the `(float)` cast: in comma mode periods are dropped and commas become periods. */
  function DecimalString(normalized: string): string {
    if ',' in normalized then ReplaceChar(RemoveChar(normalized, '.'), ',', '.') else normalized
  }

  /**
   * `Money::fromLocalizedString`: fails exactly when the input holds no digit, comma or
   * period, never with the negative-amount error, and keeps the upper-cased currency.
   */
  function FromLocalizedString(rawPrice: string, currency: string := "EUR"): (r: Result<Money, MoneyError>)
    ensures r.Failure? <==> NoPriceChar(rawPrice)
    ensures r.Failure? ==> r.error == CannotParse(rawPrice)
    ensures r.Success? ==> r.value.currency == StrToUpper(currency)
  {
    TrimKeepsPriceChars(rawPrice);
    KeepEmpty(rawPrice);
    var normalized := KeepPriceChars(Trim(rawPrice));
    if normalized == [] then
      Failure(CannotParse(rawPrice))
    else
      NewMoney(ParseCents(normalized), currency)
  }

  function ParseCents(normalized: string): int {
    RoundHalfAwayFromZero(FloatCast(DecimalString(normalized)) * 100.0)
  }

  // ---------------------------------------------------------------------------
  // Formatting

  /** The decimal digits of `n`, no leading zero. */
  function NatDigits(n: nat): (s: string)
    ensures s != [] && AllDigits(s) && DigitsValue(s) == n
  {
    if n < 10 then [DigitChar(n)] else NatDigits(n / 10) + [DigitChar(n % 10)]
  }

  /** `n` in exactly `width` digits, padded with zeros. */
  function PadDigits(n: nat, width: nat): (s: string)
    requires n < Pow10(width)
    ensures |s| == width && AllDigits(s) && DigitsValue(s) == n
  {
    if width == 0 then []
    else
      assert n / 10 < Pow10(width - 1);
      PadDigits(n / 10, width - 1) + [DigitChar(n % 10)]
  }

  /** The integer part of `number_format(..., ',', '.')`: groups of three digits separated by periods. */
  function GroupThousands(n: nat): string {
    if n < 1000 then NatDigits(n)
    else GroupThousands(n / 1000) + "." + PadDigits(n % 1000, 3)
  }

  /** A number below 10^k has at most k digits, and only 0 is written with a leading zero. */
  lemma {:induction false} NatDigitsShape(n: nat, k: nat)
    requires 1 <= k && n < Pow10(k)
    ensures |NatDigits(n)| <= k
    ensures NatDigits(n)[0] == '0' <==> n == 0
  {
    assert Pow10(1) == 10;
    if n >= 10 {
      NatDigitsShape(n / 10, k - 1);
    }
  }

  /**
   * Where `number_format` puts its thousands separators: a '.' stands exactly at the positions
   * followed by a multiple of four characters (a period and three digits per group), the first
   * group has one to three digits, and it starts with '0' only for the number 0, which is
   * written as the single digit "0".
   */
  lemma {:induction false} GroupThousandsLayout(n: nat)
    ensures |GroupThousands(n)| % 4 != 0
    ensures forall i :: 0 <= i < |GroupThousands(n)| ==>
              (GroupThousands(n)[i] == '.' <==> 0 < i && (|GroupThousands(n)| - i) % 4 == 0)
    ensures GroupThousands(n) != [] && (GroupThousands(n)[0] == '0' <==> n == 0)
    ensures n == 0 ==> GroupThousands(n) == "0"
  {
    if n < 1000 {
      assert Pow10(3) == 1000;
      NatDigitsShape(n, 3);
    } else {
      GroupThousandsLayout(n / 1000);
      GroupLayoutStep(GroupThousands(n / 1000), PadDigits(n % 1000, 3));
    }
  }

  /** Appending a period and a three-digit group keeps the separator layout. */
  lemma GroupLayoutStep(head: string, tail: string)
    requires |head| % 4 != 0
    requires forall i :: 0 <= i < |head| ==> (head[i] == '.' <==> 0 < i && (|head| - i) % 4 == 0)
    requires AllDigits(tail) && |tail| == 3
    ensures |head + "." + tail| % 4 != 0
    ensures forall i :: 0 <= i < |head + "." + tail| ==>
              ((head + "." + tail)[i] == '.' <==> 0 < i && (|head + "." + tail| - i) % 4 == 0)
  {
    var g := head + "." + tail;
    forall i | 0 <= i < |g|
      ensures g[i] == '.' <==> 0 < i && (|g| - i) % 4 == 0
    {
      if i < |head| {
        assert g[i] == head[i];
      } else if i > |head| {
        assert g[i] == tail[i - |head| - 1];
      }
    }
  }

  /** The integer part consists of digits and group separators only. */
  lemma {:induction false} GroupThousandsChars(n: nat)
    ensures forall i :: 0 <= i < |GroupThousands(n)| ==> IsDigit(GroupThousands(n)[i]) || GroupThousands(n)[i] == '.'
  {
    if n >= 1000 {
      GroupThousandsChars(n / 1000);
      var head, tail := GroupThousands(n / 1000), PadDigits(n % 1000, 3);
      assert GroupThousands(n) == head + "." + tail;
    }
  }

  /** Dropping the group separators leaves exactly the digits of `n`. */
  lemma {:induction false} GroupThousandsDigits(n: nat)
    ensures AllDigits(RemoveChar(GroupThousands(n), '.'))
    ensures DigitsValue(RemoveChar(GroupThousands(n), '.')) == n
  {
    if n < 1000 {
      RemoveAbsent(NatDigits(n), '.');
    } else {
      GroupThousandsDigits(n / 1000);
      GroupDigitsStep(GroupThousands(n / 1000), PadDigits(n % 1000, 3));
    }
  }

  lemma {:induction false} RemoveDotsOfGroup(head: string, tail: string)
    requires AllDigits(tail)
    ensures RemoveChar(head + "." + tail, '.') == RemoveChar(head, '.') + tail
  {
    RemoveConcat(head + ".", tail, '.');
    RemoveConcat(head, ".", '.');
    RemoveSingle('.', '.');
    RemoveAbsent(tail, '.');
    assert RemoveChar(head, '.') + [] == RemoveChar(head, '.');
  }

  /** One more group: dropping the separators of "<head>.<tail>" appends the three digits of `tail`. */
  lemma {:induction false} GroupDigitsStep(head: string, tail: string)
    requires AllDigits(RemoveChar(head, '.'))
    requires AllDigits(tail) && |tail| == 3
    ensures AllDigits(RemoveChar(head + "." + tail, '.'))
    ensures DigitsValue(RemoveChar(head + "." + tail, '.')) == DigitsValue(RemoveChar(head, '.')) * 1000 + DigitsValue(tail)
  {
    var x := RemoveChar(head, '.');
    RemoveDotsOfGroup(head, tail);
    DigitsValueConcat(x, tail);
    assert Pow10(3) == 1000;
  }

  /** `formatted()` with its default of two decimals: "1.499,00 EUR". */
  function Formatted(m: Money): string {
    Layout(GroupThousands(m.amountInCents / 100), PadDigits(m.amountInCents % 100, 2), m.currency)
  }

  /** The layout of a formatted amount: grouped integer part, decimal comma, cents, a space and the currency. */
  function Layout(whole: string, cents: string, currency: string): string {
    whole + "," + cents + " " + currency
  }

  /** `formatted()` of 32900 cents in EUR. */
  lemma FormattedExample()
    ensures Formatted(Money(32900, "EUR")) == "329,00 EUR"
  {
  }

  /** `formatted()` of 149900 cents in EUR: a thousands separator and the decimal comma. */
  lemma FormattedThousandsExample(m: Money)
    requires m == Money(149900, "EUR")
    ensures Formatted(m) == "1.499,00 EUR"
  {
    assert m.amountInCents / 100 == 1499 && m.amountInCents % 100 == 0;
    GroupThousandsExample();
    NoCentsExample();
    FormattedOfParts(m, "1.499", "00");
    assert "1.499" + "," + "00" + " " + "EUR" == "1.499,00 EUR";
  }

  /** No cents are written as two zeros. */
  lemma NoCentsExample()
    ensures PadDigits(0, 2) == "00"
  {
    assert PadDigits(0, 1) == "0";
  }

  /** `formatted()` from its already known parts: the grouped whole units and the two cent digits. */
  lemma FormattedOfParts(m: Money, whole: string, cents: string)
    requires GroupThousands(m.amountInCents / 100) == whole
    requires PadDigits(m.amountInCents % 100, 2) == cents
    ensures Formatted(m) == whole + "," + cents + " " + m.currency
  {
  }

  /** `formatted()` of 50 cents in EUR: no whole unit is written as "0". */
  lemma FormattedCentsOnlyExample()
    ensures Formatted(Money(50, "EUR")) == "0,50 EUR"
  {
    assert PadDigits(50, 2) == "50" by {
      assert PadDigits(5, 1) == "5";
    }
  }

  /** The grouping of 1499: one period before the last three digits. */
  lemma GroupThousandsExample()
    ensures GroupThousands(1499) == "1.499"
  {
    assert NatDigits(1) == "1";
    assert PadDigits(499, 3) == "499";
  }

  /** Inputs without a digit, comma or period are rejected: "", "abc" and "€". */
  lemma UnparsableExamples()
    ensures FromLocalizedString("").Failure?
    ensures FromLocalizedString("abc").Failure?
    ensures FromLocalizedString("€").Failure?
  {
    assert NoPriceChar("abc");
    assert NoPriceChar("€");
  }

  lemma TrimNothing(s: string)
    requires s != [] && !IsTrimChar(s[0]) && !IsTrimChar(s[|s| - 1])
    ensures Trim(s) == s
  {
  }

  /** The filter keeps a price set between text without digits, commas or periods. */
  lemma KeepBetween(prefix: string, number: string, suffix: string)
    requires NoPriceChar(prefix) && NoPriceChar(suffix)
    requires forall i :: 0 <= i < |number| ==> IsPriceChar(number[i])
    ensures KeepPriceChars(prefix + number + suffix) == number
  {
    KeepConcat(prefix + number, suffix);
    KeepConcat(prefix, number);
    KeepEmpty(prefix);
    KeepEmpty(suffix);
    KeepAll(number);
    assert [] + number + [] == number;
  }

  /** "EUR" is already upper case. */
  lemma UpperEur()
    ensures StrToUpper("EUR") == "EUR"
  {
    assert forall i :: 0 <= i < 3 ==> !('a' <= "EUR"[i] <= 'z');
  }

  lemma TwoDigitsValue(s: string)
    requires |s| == 2
    ensures DigitsValue(s) == 10 * DigitValue(s[0]) + DigitValue(s[1])
  {
    assert s[..1][..0] == [] && s[..1][0] == s[0];
    assert DigitsValue(s[..1]) == DigitValue(s[0]);
  }

  lemma ThreeDigitsValue(s: string)
    requires |s| == 3
    ensures DigitsValue(s) == 100 * DigitValue(s[0]) + 10 * DigitValue(s[1]) + DigitValue(s[2])
  {
    TwoDigitsValue(s[..2]);
  }

  /** The cents spelled by a three-digit whole part and two fraction digits. */
  lemma DigitsExample(x: string, d: string, cents: int)
    requires |x| == 3 && |d| == 2
    requires cents == 100 * (100 * DigitValue(x[0]) + 10 * DigitValue(x[1]) + DigitValue(x[2]))
                      + 10 * DigitValue(d[0]) + DigitValue(d[1])
    ensures DigitsValue(x) * 100 + DigitsValue(d) == cents
  {
    ThreeDigitsValue(x);
    TwoDigitsValue(d);
  }

  lemma NormalizedPeriodExample(raw: string)
    requires raw == "€329.00"
    ensures KeepPriceChars(Trim(raw)) == "329" + "." + "00"
  {
    assert raw == "€" + "329.00" + [];
    TrimNothing(raw);
    KeepBetween("€", "329.00", []);
  }

  lemma NormalizedWholeExample(raw: string)
    requires raw == "€329"
    ensures KeepPriceChars(Trim(raw)) == "329"
  {
    assert raw == "€" + "329" + [];
    TrimNothing(raw);
    KeepBetween("€", "329", []);
  }

  lemma NormalizedTrailingWordsExample(raw: string)
    requires raw == "€719.10 in shoptok"
    ensures KeepPriceChars(Trim(raw)) == "719" + "." + "10"
  {
    assert raw == "€" + "719.10" + " in shoptok";
    TrimNothing(raw);
    KeepBetween("€", "719.10", " in shoptok");
  }

  lemma NormalizedCommaExample(raw: string)
    requires raw == "€1,499.00"
    ensures KeepPriceChars(Trim(raw)) == "1,499.00"
  {
    assert raw == "€" + "1,499.00" + [];
    TrimNothing(raw);
    KeepBetween("€", "1,499.00", []);
  }

  /** The example "€329.00" parses to 32900 cents. */
  lemma ParseExamplePeriod(raw: string)
    requires raw == "€329.00"
    ensures FromLocalizedString(raw) == Success(Money(32900, "EUR"))
  {
    var x, d := "329", "00";
    NormalizedPeriodExample(raw);
    DigitsExample(x, d, 32900);
    PeriodModeParse(raw, "EUR", x, d);
    UpperEur();
  }

  /** A price without decimals: "€329" parses to 32900 cents. */
  lemma ParseExampleWhole(raw: string)
    requires raw == "€329"
    ensures FromLocalizedString(raw) == Success(Money(32900, "EUR"))
  {
    var x := "329";
    NormalizedWholeExample(raw);
    ThreeDigitsValue(x);
    WholeModeParse(raw, "EUR", x);
    UpperEur();
  }

  /** The example "€719.10 in shoptok" parses to 71910 cents: the words after the price are dropped. */
  lemma ParseExampleTrailingWords(raw: string)
    requires raw == "€719.10 in shoptok"
    ensures FromLocalizedString(raw) == Success(Money(71910, "EUR"))
  {
    var x, d := "719", "10";
    NormalizedTrailingWordsExample(raw);
    DigitsExample(x, d, 71910);
    PeriodModeParse(raw, "EUR", x, d);
    UpperEur();
  }

  /** In comma mode "1,499.00" loses its period and its comma becomes the decimal point. */
  lemma CommaExampleDecimal(normalized: string)
    requires normalized == "1,499.00"
    ensures DecimalString(normalized) == "1" + "." + "49900"
  {
    assert normalized[1] == ',';
    assert normalized == "1,499" + "." + "00";
    RemoveDotsOfGroup("1,499", "00");
    RemoveAbsent("1,499", '.');
    assert "1,499" + "00" == "1" + "," + "49900";
    ReplaceCommaOfNumber("1", "49900");
  }

  lemma CommaExampleCast(fraction: string)
    requires fraction == "49900"
    ensures FloatCast("1" + "." + fraction) == 1.499
    ensures RoundHalfAwayFromZero(FloatCast("1" + "." + fraction) * 100.0) == 150
  {
    CastOfDecimal("1", fraction);
    assert DigitsValue("1") == 1 by {
      assert "1"[..0] == [];
    }
    assert fraction == "499" + "00";
    DigitsValueConcat("499", "00");
    ThreeDigitsValue("499");
    TwoDigitsValue("00");
    assert Pow10(2) == 100 && Pow10(5) == 100000;
  }

  /**
   * The example "€1,499.00" parses to 150 cents: the comma switches to comma mode, the period
   * is dropped as a thousands separator, and the text is read as 1.49900.
   */
  lemma ParseExampleCommaThenPeriod(raw: string)
    requires raw == "€1,499.00"
    ensures FromLocalizedString(raw) == Success(Money(150, "EUR"))
  {
    var normalized, decimal := "1,499.00", "1" + "." + "49900";
    NormalizedCommaExample(raw);
    CommaExampleDecimal(normalized);
    CommaExampleCast("49900");
    ParseSteps(raw, "EUR", normalized, decimal, 150);
    UpperEur();
  }

  // ---------------------------------------------------------------------------
  // Properties

  /** `fromLocalizedString` can never reach the constructor's negative check. */
  lemma ParsedAmountNeverNegative(rawPrice: string, currency: string)
    ensures FromLocalizedString(rawPrice, currency) != Failure(NegativeAmount)
  {
  }

  /** The character filter keeps a formatted number part whole. */
  lemma {:induction false} KeepNumberPart(g: string, d: string)
    requires forall i :: 0 <= i < |g| ==> IsDigit(g[i]) || g[i] == '.'
    requires AllDigits(d)
    ensures KeepPriceChars(g + "," + d) == g + "," + d
  {
    KeepAll(g + "," + d);
  }

  /** The character filter applied to "<number> <currency>" keeps the number and what the currency contributes. */
  lemma {:induction false} KeepFormatted(g: string, d: string, u: string)
    requires forall i :: 0 <= i < |g| ==> IsDigit(g[i]) || g[i] == '.'
    requires AllDigits(d)
    ensures KeepPriceChars(Trim(Layout(g, d, u))) == g + "," + d + KeepPriceChars(u)
  {
    var number := g + "," + d;
    TrimKeepsPriceChars(number + " " + u);
    KeepConcat(number + " ", u);
    KeepConcat(number, " ");
    KeepNumberPart(g, d);
    assert KeepPriceChars(" ") == [];
  }

  /** Removing the periods of "<grouped digits>,<digits>" touches only the grouped part. */
  lemma {:induction false} RemoveDotsOfNumber(g: string, d: string)
    requires AllDigits(d)
    ensures RemoveChar(g + "," + d, '.') == RemoveChar(g, '.') + "," + d
  {
    RemoveConcat(g + ",", d, '.');
    RemoveConcat(g, ",", '.');
    RemoveSingle(',', '.');
    RemoveAbsent(d, '.');
  }

  /** Replacing the only comma of "<digits>,<digits>" by a period. */
  lemma {:induction false} ReplaceCommaOfNumber(x: string, d: string)
    requires forall i :: 0 <= i < |x| ==> x[i] != ','
    requires AllDigits(d)
    ensures ReplaceChar(x + "," + d, ',', '.') == x + "." + d
  {
    ReplaceConcat(x + ",", d, ',', '.');
    ReplaceConcat(x, ",", ',', '.');
    ReplaceAbsent(x, ',', '.');
    ReplaceAbsent(d, ',', '.');
  }

  /** Removing the periods of a string with no comma leaves no comma. */
  lemma RemoveKeepsNoComma(g: string)
    requires forall i :: 0 <= i < |g| ==> IsDigit(g[i]) || g[i] == '.'
    ensures forall i :: 0 <= i < |RemoveChar(g, '.')| ==> RemoveChar(g, '.')[i] != ','
  {
    var x := RemoveChar(g, '.');
    forall i | 0 <= i < |x| ensures x[i] != ',' {
      RemoveCharKeepsOthers(g, '.', i);
    }
  }

  /** In comma mode the group separators vanish and the decimal comma becomes a period. */
  lemma {:induction false} CommaModeOfFormatted(g: string, d: string)
    requires forall i :: 0 <= i < |g| ==> IsDigit(g[i]) || g[i] == '.'
    requires AllDigits(d)
    ensures DecimalString(g + "," + d) == RemoveChar(g, '.') + "." + d
  {
    assert (g + "," + d)[|g|] == ',';
    RemoveDotsOfNumber(g, d);
    RemoveKeepsNoComma(g);
    ReplaceCommaOfNumber(RemoveChar(g, '.'), d);
  }

  /** The cast reads `x` as the whole part and the two digits `d` as the fraction. */
  lemma {:induction false} CastOfDecimal(x: string, d: string)
    requires AllDigits(x) && AllDigits(d)
    ensures FloatCast(x + "." + d) == DigitsValue(x) as real + DigitsValue(d) as real / Pow10(|d|) as real
  {
    var decimal := x + "." + d;
    assert decimal == x + ("." + d);
    LeadingDigitsOfDigits(x, "." + d);
    assert decimal[|x|..] == "." + d;
    assert ("." + d)[1..] == d;
    LeadingDigitsOfDigits(d, []);
    assert d + [] == d;
  }

  /**
   * The cast reads digits, one period and digits, and ignores whatever follows that is not a
   * digit: "1.2.3" reads as 1.2 and "." as 0.
   */
  lemma {:induction false} CastStopsAtNonDigit(x: string, d: string, rest: string)
    requires AllDigits(x) && AllDigits(d)
    requires rest == [] || !IsDigit(rest[0])
    ensures FloatCast(x + "." + d + rest) == DigitsValue(x) as real + DigitsValue(d) as real / Pow10(|d|) as real
  {
    var decimal := x + "." + d + rest;
    assert decimal == x + ("." + d + rest);
    LeadingDigitsOfDigits(x, "." + d + rest);
    assert decimal[|x|..] == "." + d + rest;
    assert ("." + d + rest)[1..] == d + rest;
    LeadingDigitsOfDigits(d, rest);
  }

  /** Removing the periods from digits and periods leaves digits only. */
  lemma RemoveDotsLeavesDigits(g: string)
    requires forall i :: 0 <= i < |g| ==> IsDigit(g[i]) || g[i] == '.'
    ensures AllDigits(RemoveChar(g, '.'))
  {
    var x := RemoveChar(g, '.');
    RemovedIsAbsent(g, '.');
    forall i | 0 <= i < |x| ensures IsDigit(x[i]) {
      RemoveCharKeepsOthers(g, '.', i);
    }
  }

  /** `fromLocalizedString` once the filtered string, the cast string and the rounded cents are known. */
  lemma {:induction false} ParseSteps(rawPrice: string, currency: string, normalized: string, decimal: string, cents: int)
    requires KeepPriceChars(Trim(rawPrice)) == normalized && normalized != []
    requires DecimalString(normalized) == decimal
    requires RoundHalfAwayFromZero(FloatCast(decimal) * 100.0) == cents
    ensures ParseCents(normalized) == cents
    ensures FromLocalizedString(rawPrice, currency) == NewMoney(cents, currency)
  {
  }

  /**
   * Period mode: when the filtered price is "<digits>.<two digits>" (no comma), the period is the
   * decimal point; "€329.00" gives 32900 cents and "€719.10 in shoptok" gives 71910.
   */
  lemma {:induction false} PeriodModeParse(rawPrice: string, currency: string, x: string, d: string)
    requires KeepPriceChars(Trim(rawPrice)) == x + "." + d
    requires AllDigits(x) && AllDigits(d) && |d| == 2
    ensures FromLocalizedString(rawPrice, currency) == NewMoney(DigitsValue(x) * 100 + DigitsValue(d), currency)
  {
    var normalized := x + "." + d;
    assert DecimalString(normalized) == normalized by {
      assert forall i :: 0 <= i < |normalized| ==> normalized[i] != ',';
    }
    var cents := DigitsValue(x) * 100 + DigitsValue(d);
    CentsOfTwoDecimals(x, d);
    assert normalized != [] && RoundHalfAwayFromZero(FloatCast(normalized) * 100.0) == cents;
    ParseSteps(rawPrice, currency, normalized, normalized, cents);
  }

  /** A whole price: when the filtered price is only digits, it is that many units, in cents. */
  lemma {:induction false} WholeModeParse(rawPrice: string, currency: string, x: string)
    requires KeepPriceChars(Trim(rawPrice)) == x
    requires x != [] && AllDigits(x)
    ensures FromLocalizedString(rawPrice, currency) == NewMoney(DigitsValue(x) * 100, currency)
  {
    assert DecimalString(x) == x by {
      assert forall i :: 0 <= i < |x| ==> x[i] != ',';
    }
    var cents := DigitsValue(x) * 100;
    CastOfWhole(x);
    assert FloatCast(x) * 100.0 == cents as real;
    assert RoundHalfAwayFromZero(FloatCast(x) * 100.0) == cents;
    ParseSteps(rawPrice, currency, x, x, cents);
  }

  /**
   * Comma mode: when the filtered price is "<digits and periods>,<two digits>", the periods are
   * thousands separators and the comma is the decimal point; "1.499,00" gives 149900 cents.
   */
  lemma {:induction false} CommaModeParse(rawPrice: string, currency: string, g: string, d: string)
    requires KeepPriceChars(Trim(rawPrice)) == g + "," + d
    requires forall i :: 0 <= i < |g| ==> IsDigit(g[i]) || g[i] == '.'
    requires AllDigits(d) && |d| == 2
    ensures FromLocalizedString(rawPrice, currency)
         == NewMoney(DigitsValue(RemoveChar(g, '.')) * 100 + DigitsValue(d), currency)
  {
    var x := RemoveChar(g, '.');
    RemoveDotsLeavesDigits(g);
    CommaModeOfFormatted(g, d);
    CentsOfTwoDecimals(x, d);
    ParseSteps(rawPrice, currency, g + "," + d, x + "." + d, DigitsValue(x) * 100 + DigitsValue(d));
  }

  /** The filter reduces a layout with a currency free of digits, commas and periods to its number. */
  lemma {:induction false} NormalizedLayout(g: string, d: string, u: string)
    requires forall i :: 0 <= i < |g| ==> IsDigit(g[i]) || g[i] == '.'
    requires AllDigits(d)
    requires NoPriceChar(u)
    ensures KeepPriceChars(Trim(Layout(g, d, u))) == g + "," + d
  {
    KeepFormatted(g, d, u);
    KeepEmpty(u);
    assert g + "," + d + [] == g + "," + d;
  }

  /** Parsing "<grouped digits>,<two digits> <currency>" gives the amount those digits spell. */
  lemma {:induction false} ParseFormattedShape(g: string, d: string, u: string, currency: string, n: int)
    requires forall i :: 0 <= i < |g| ==> IsDigit(g[i]) || g[i] == '.'
    requires AllDigits(RemoveChar(g, '.'))
    requires AllDigits(d) && |d| == 2
    requires NoPriceChar(u)
    requires DigitsValue(RemoveChar(g, '.')) * 100 + DigitsValue(d) == n
    ensures FromLocalizedString(Layout(g, d, u), currency) == NewMoney(n, currency)
  {
    var x := RemoveChar(g, '.');
    NormalizedLayout(g, d, u);
    CommaModeOfFormatted(g, d);
    CentsOfTwoDecimals(x, d);
    ParseSteps(Layout(g, d, u), currency, g + "," + d, x + "." + d, n);
  }

  /** With a one-digit currency the filter joins the digit to the fraction digits. */
  lemma {:induction false} KeepDigitCurrency(g: string, d: string, u: string)
    requires forall i :: 0 <= i < |g| ==> IsDigit(g[i]) || g[i] == '.'
    requires AllDigits(d) && |u| == 1 && IsDigit(u[0])
    ensures KeepPriceChars(Trim(Layout(g, d, u))) == g + "," + (d + u)
    ensures AllDigits(d + u)
  {
    KeepFormatted(g, d, u);
    assert KeepPriceChars(u) == u;
    assert g + "," + d + u == g + "," + (d + u);
  }

  /** Parsing "<grouped digits>,<two digits> <digit>" reads the digit as a third fraction digit. */
  lemma {:induction false} ParseFormattedDigitShape(g: string, d: string, u: string, currency: string, n: int)
    requires forall i :: 0 <= i < |g| ==> IsDigit(g[i]) || g[i] == '.'
    requires AllDigits(RemoveChar(g, '.'))
    requires AllDigits(d) && |d| == 2
    requires |u| == 1 && '5' <= u[0] <= '9'
    requires DigitsValue(RemoveChar(g, '.')) * 100 + DigitsValue(d) == n
    ensures FromLocalizedString(Layout(g, d, u), currency) == NewMoney(n + 1, currency)
  {
    var x := RemoveChar(g, '.');
    KeepDigitCurrency(g, d, u);
    CommaModeOfFormatted(g, d + u);
    CentsOfThreeDecimals(x, d, u);
    ParseSteps(Layout(g, d, u), currency, g + "," + (d + u), x + "." + (d + u), n + 1);
  }

  lemma RoundOfWhole(k: int)
    ensures RoundHalfAwayFromZero(k as real) == k
  {
  }

  /** A decimal with two fraction digits, scaled by 100 and rounded, is exact. */
  lemma {:induction false} CentsOfTwoDecimals(x: string, d: string)
    requires AllDigits(x) && AllDigits(d) && |d| == 2
    ensures RoundHalfAwayFromZero(FloatCast(x + "." + d) * 100.0) == DigitsValue(x) * 100 + DigitsValue(d)
  {
    CastOfDecimal(x, d);
    assert Pow10(|d|) == 100;
    var k := DigitsValue(x) * 100 + DigitsValue(d);
    assert FloatCast(x + "." + d) * 100.0 == k as real;
    RoundOfWhole(k);
  }

  /** Rounding `whole + (10 * cents + digit) / 1000`, scaled by 100, for a third digit of 5 to 9. */
  lemma RoundThirdDigitUp(r: real, whole: nat, fraction: nat, p: nat, cents: nat, digit: nat)
    requires 5 <= digit <= 9 && fraction == 10 * cents + digit && p == 1000
    requires r == whole as real + fraction as real / p as real
    ensures RoundHalfAwayFromZero(r * 100.0) == whole * 100 + cents + 1
  {
    assert r == whole as real + (10 * cents + digit) as real / 1000.0;
    var k := whole * 100 + cents;
    assert r * 100.0 == k as real + digit as real / 10.0;
  }

  /** Appending one digit to two digits. */
  lemma {:induction false} ThirdDigitValue(d: string, u: string)
    requires AllDigits(d) && |d| == 2 && |u| == 1 && IsDigit(u[0])
    ensures AllDigits(d + u) && |d + u| == 3
    ensures DigitsValue(d + u) == 10 * DigitsValue(d) + DigitValue(u[0])
    ensures Pow10(|d + u|) == 1000
  {
    DigitsValueConcat(d, u);
    assert u[..0] == [];
  }

  /** Three fraction digits ending in 5 to 9: scaled by 100 and rounded, the third digit rounds up. */
  lemma {:induction false} CentsOfThreeDecimals(x: string, d: string, u: string)
    requires AllDigits(x) && AllDigits(d) && |d| == 2
    requires |u| == 1 && '5' <= u[0] <= '9'
    ensures RoundHalfAwayFromZero(FloatCast(x + "." + (d + u)) * 100.0) == DigitsValue(x) * 100 + DigitsValue(d) + 1
  {
    var f := d + u;
    ThirdDigitValue(d, u);
    CastOfDecimal(x, f);
    RoundThirdDigitUp(FloatCast(x + "." + f), DigitsValue(x), DigitsValue(f), Pow10(|f|), DigitsValue(d), DigitValue(u[0]));
  }

  lemma UpperKeepsNoPriceChar(currency: string)
    requires NoPriceChar(currency)
    ensures NoPriceChar(StrToUpper(currency))
  {
    var u := StrToUpper(currency);
    forall i | 0 <= i < |u| ensures !IsPriceChar(u[i]) {
      assert u[i] == UpperChar(currency[i]);
    }
  }

  /** The digits of a formatted amount spell the amount in cents. */
  lemma {:induction false} FormattedDigits(n: nat)
    ensures AllDigits(RemoveChar(GroupThousands(n / 100), '.'))
    ensures DigitsValue(RemoveChar(GroupThousands(n / 100), '.')) * 100 + DigitsValue(PadDigits(n % 100, 2)) == n
  {
    GroupThousandsDigits(n / 100);
  }

  /**
   * `formatted()` is the grouped whole units, a decimal comma, two cent digits, a space and the
   * currency; the separators of the whole units stand where `GroupThousandsLayout` says, and
   * the digits spell the amount in cents.
   */
  lemma FormattedParts(m: Money) returns (g: string, d: string)
    ensures Formatted(m) == Layout(g, d, m.currency)
    ensures g == GroupThousands(m.amountInCents / 100)
    ensures forall i :: 0 <= i < |g| ==> IsDigit(g[i]) || g[i] == '.'
    ensures AllDigits(RemoveChar(g, '.'))
    ensures AllDigits(d) && |d| == 2 && DigitsValue(d) == m.amountInCents % 100
    ensures DigitsValue(RemoveChar(g, '.')) * 100 + DigitsValue(d) == m.amountInCents
  {
    g, d := GroupThousands(m.amountInCents / 100), PadDigits(m.amountInCents % 100, 2);
    GroupThousandsChars(m.amountInCents / 100);
    FormattedDigits(m.amountInCents);
  }

  /** Parsing a formatted amount whose currency holds no digit, comma or period gives the amount back. */
  lemma {:induction false} ParseFormatted(m: Money, currency: string)
    requires NoPriceChar(m.currency)
    ensures FromLocalizedString(Formatted(m), currency) == NewMoney(m.amountInCents, currency)
  {
    var g, d := FormattedParts(m);
    ParseFormattedShape(g, d, m.currency, currency, m.amountInCents);
  }

  /** A one-digit currency "5" to "9" is read as a third fraction digit and rounds the amount up by one cent. */
  lemma {:induction false} ParseFormattedDigit(m: Money, currency: string)
    requires |m.currency| == 1 && '5' <= m.currency[0] <= '9'
    ensures FromLocalizedString(Formatted(m), currency) == NewMoney(m.amountInCents + 1, currency)
  {
    var g, d := FormattedParts(m);
    ParseFormattedDigitShape(g, d, m.currency, currency, m.amountInCents);
  }

  /**
   * `formatted()` and `fromLocalizedString()` are inverse: formatting an amount and parsing the
   * text back with the same currency gives the same Money, for any currency free of digits, commas and periods.
   */
  lemma {:induction false} FormattedRoundTrip(n: nat, currency: string)
    requires NoPriceChar(currency)
    ensures FromCents(n, currency).Success?
    ensures FromLocalizedString(Formatted(FromCents(n, currency).value), currency) == FromCents(n, currency)
  {
    var m := Money(n, StrToUpper(currency));
    UpperKeepsNoPriceChar(currency);
    calc {
      FromLocalizedString(Formatted(m), currency);
      { ParseFormatted(m, currency); }
      NewMoney(n, currency);
      FromCents(n, currency);
    }
  }

  /**
   * The round trip needs the currency restriction: with a one-digit currency "5" to "9" the
   * digit joins the fraction, "1.499,00 5" reads as 1499.005, and the amount comes back one cent higher.
   */
  lemma {:induction false} DigitCurrencyBreaksRoundTrip(m: Money)
    requires |m.currency| == 1 && '5' <= m.currency[0] <= '9'
    ensures FromLocalizedString(Formatted(m), m.currency) == Success(Money(m.amountInCents + 1, m.currency))
  {
    ParseFormattedDigit(m, m.currency);
    UpperOfDigitString(m.currency);
  }
}
