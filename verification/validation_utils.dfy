/**
 The form validators of `lafise/lib/validation-utils.ts`. Each is a pure function; the
 error texts are the exact (Spanish) strings the source returns.
 */
module ValidationUtils {
  import opened Wrappers
  import opened JsString
  import opened JsNumber

  // Messages of validateTransfer, in the order its checks run.
  const OriginRequired: string := "Debe seleccionar una cuenta origen"
  const DestinationRequired: string := "Debe seleccionar una cuenta destino"
  const AccountsMustDiffer: string := "La cuenta origen y destino deben ser diferentes"
  const AmountNotPositive: string := "El monto debe ser mayor a 0"
  const InsufficientBalance: string := "Saldo insuficiente para realizar la transferencia"

  // Further messages of validateAmount and validateAccountNumber.
  const AmountRequired: string := "El monto es requerido"
  const AmountNotANumber: string := "El monto debe ser un número válido"
  const AccountNumberRequired: string := "El número de cuenta es requerido"
  const AccountNumberLength: string := "El número de cuenta debe tener entre 10 y 16 dígitos"

  /** Every message validateTransfer can report, in the order it reports them. */
  const TransferErrors: seq<string> :=
    [OriginRequired, DestinationRequired, AccountsMustDiffer, AmountNotPositive, InsufficientBalance]

  /** The bounds of the account-number pattern `^\d{10,16}$`. */
  const AccountDigitsMin: nat := 10
  const AccountDigitsMax: nat := 16

  /** `ValidationResult`: valid, or invalid with one message. */
  datatype ValidationResult = ValidationResult(valid: bool, error: Option<string>)

  /** `TransferValidationResult`: every violated rule, and whether there were none. */
  datatype TransferValidationResult = TransferValidationResult(valid: bool, errors: seq<string>)

  /** The position of a validateTransfer message in `TransferErrors`. */
  function Rank(m: string): (k: nat)
    requires m in TransferErrors
    ensures k < |TransferErrors| && TransferErrors[k] == m
  {
    if m == OriginRequired then 0
    else if m == DestinationRequired then 1
    else if m == AccountsMustDiffer then 2
    else if m == AmountNotPositive then 3
    else 4
  }

  /** `errors` lists validateTransfer messages in the order the checks run, none twice. */
  predicate InReportingOrder(errors: seq<string>) {
    && (forall i :: 0 <= i < |errors| ==> errors[i] in TransferErrors)
    && (forall i, j :: 0 <= i < j < |errors| ==> Rank(errors[i]) < Rank(errors[j]))
  }

  /** Every message in `errors` comes before position `k` of `TransferErrors`. */
  predicate RanksBelow(errors: seq<string>, k: nat)
    requires forall i :: 0 <= i < |errors| ==> errors[i] in TransferErrors
  {
    forall i :: 0 <= i < |errors| ==> Rank(errors[i]) < k
  }

  /** `errors.push(msg)` guarded by `cond`, where `msg` comes after every message
      already reported: the list stays in reporting order, gains `msg` exactly when
      `cond` holds, and keeps every other message as it was. */
  function PushIf(errors: seq<string>, cond: bool, msg: string): (r: seq<string>)
    requires InReportingOrder(errors) && msg in TransferErrors && RanksBelow(errors, Rank(msg))
    ensures InReportingOrder(r) && RanksBelow(r, Rank(msg) + 1)
    ensures msg in r <==> cond
    ensures forall m :: m != msg ==> (m in r <==> m in errors)
  {
    if cond then errors + [msg] else errors
  }

  /** JavaScript truthiness of a string: only the empty string is falsy. */
  predicate StringIsTruthy(s: string) {
    s != []
  }

  /** JavaScript truthiness of a (finite, non-NaN) number: only zero is falsy. */
  predicate NumberIsTruthy(x: real) {
    x != 0.0
  }

  /** `validateTransfer(amount, balance, originAccount, destinationAccount)`. */
  function ValidateTransfer(amount: real, balance: real, origin: string, destination: string)
    : (r: TransferValidationResult)
    ensures r.valid <==> r.errors == []
    ensures OriginRequired in r.errors <==> origin == []
    ensures DestinationRequired in r.errors <==> destination == []
    ensures AccountsMustDiffer in r.errors <==> origin != [] && destination != [] && origin == destination
    ensures AmountNotPositive in r.errors <==> amount <= 0.0
    ensures InsufficientBalance in r.errors <==> amount > balance
    ensures InReportingOrder(r.errors)
    ensures r.valid <==> origin != [] && destination != [] && origin != destination && 0.0 < amount <= balance
  {
    var e0: seq<string> := [];
    var e1 := PushIf(e0, !StringIsTruthy(origin), OriginRequired);
    var e2 := PushIf(e1, !StringIsTruthy(destination), DestinationRequired);
    var e3 := PushIf(e2, StringIsTruthy(origin) && StringIsTruthy(destination) && origin == destination,
                     AccountsMustDiffer);
    var e4 := PushIf(e3, !NumberIsTruthy(amount) || amount <= 0.0, AmountNotPositive);
    var errors := PushIf(e4, amount > balance, InsufficientBalance);
    TransferValidationResult(|errors| == 0, errors)
  }

  /** A list in reporting order holds each message at most once, so at most five. */
  lemma {:induction false} ReportingOrderBound(errors: seq<string>)
    requires InReportingOrder(errors)
    ensures |errors| <= |TransferErrors|
    ensures forall i, j :: 0 <= i < j < |errors| ==> errors[i] != errors[j]
  {
    if |errors| > 0 {
      RankAtLeastPosition(errors, |errors| - 1);
    }
  }

  /** In a list in reporting order, the message at position i has rank at least i. */
  lemma {:induction false} RankAtLeastPosition(errors: seq<string>, i: nat)
    requires InReportingOrder(errors)
    requires i < |errors|
    ensures Rank(errors[i]) >= i
  {
    if i > 0 {
      RankAtLeastPosition(errors, i - 1);
    }
  }

  /** Two lists in reporting order that hold the same messages are the same list, so
      the membership facts of ValidateTransfer fix its error list completely. */
  lemma {:induction false} ReportingOrderDeterminedByContents(a: seq<string>, b: seq<string>)
    requires InReportingOrder(a) && InReportingOrder(b)
    requires forall m :: m in a <==> m in b
    ensures a == b
    decreases |a|
  {
    SameContentsSameEmptiness(a, b);
    if a != [] {
      // The first message of each list has the least rank in the list, so the two
      // first messages have the same rank, and hence are the same message.
      assert a[0] in b && b[0] in a;
      FirstHasLeastRank(a, b[0]);
      FirstHasLeastRank(b, a[0]);
      assert TransferErrors[Rank(a[0])] == a[0];
      assert a[0] == b[0];
      forall m ensures m in a[1..] <==> m in b[1..] {
        if m in a[1..] {
          InTailOfOther(a, b, m);
        }
        if m in b[1..] {
          InTailOfOther(b, a, m);
        }
      }
      ReportingOrderDeterminedByContents(a[1..], b[1..]);
      assert a == [a[0]] + a[1..] && b == [b[0]] + b[1..];
    }
  }

  /** When two lists in reporting order hold the same messages and start with the
      same one, a message after the first in one list comes after the first in the
      other. */
  lemma InTailOfOther(a: seq<string>, b: seq<string>, m: string)
    requires InReportingOrder(a) && InReportingOrder(b)
    requires forall x :: x in a <==> x in b
    requires a != [] && b != [] && a[0] == b[0]
    requires m in a[1..]
    ensures m in b[1..]
  {
    var j :| 0 <= j < |a| - 1 && a[1..][j] == m;
    assert a[j + 1] == m && Rank(a[0]) < Rank(m);
    assert m in b;
    var k :| 0 <= k < |b| && b[k] == m;
    assert k != 0 && b[1..][k - 1] == m;
  }

  /** Lists holding the same elements are both empty or both not. */
  lemma SameContentsSameEmptiness(a: seq<string>, b: seq<string>)
    requires forall m :: m in a <==> m in b
    ensures a == [] <==> b == []
  {
    if a != [] {
      assert a[0] in a;
    }
    if b != [] {
      assert b[0] in b;
    }
  }

  /** The first message of a list in reporting order has the least rank in it. */
  lemma FirstHasLeastRank(a: seq<string>, m: string)
    requires InReportingOrder(a) && a != []
    requires m in a
    ensures Rank(a[0]) <= Rank(m)
  {
    var j :| 0 <= j < |a| && a[j] == m;
  }

  /** A transfer between an account and itself is never valid. */
  lemma SameAccountNeverValid(amount: real, balance: real, account: string)
    requires account != []
    ensures !ValidateTransfer(amount, balance, account, account).valid
    ensures AccountsMustDiffer in ValidateTransfer(amount, balance, account, account).errors
  {
  }

  /** With a negative balance, a non-positive amount draws both amount errors, the
      "mayor a 0" one first. */
  lemma BothAmountErrorsOnNegativeBalance(amount: real, balance: real, origin: string, destination: string)
    requires balance < amount <= 0.0
    ensures var errors := ValidateTransfer(amount, balance, origin, destination).errors;
      exists i, j :: 0 <= i < j < |errors| && errors[i] == AmountNotPositive && errors[j] == InsufficientBalance
  {
    var errors := ValidateTransfer(amount, balance, origin, destination).errors;
    assert errors[|errors| - 2] == AmountNotPositive;
  }

  /** A complete, well-formed transfer yields exactly the errors its amounts call for:
      here, one that overdraws its account reports that and nothing else. */
  lemma OverdraftIsTheOnlyError(amount: real, balance: real, origin: string, destination: string)
    requires origin != [] && destination != [] && origin != destination
    requires 0.0 < balance < amount
    ensures ValidateTransfer(amount, balance, origin, destination).errors == [InsufficientBalance]
  {
  }

  /** `validateAmount(amount)`. */
  function ValidateAmount(amount: string): (r: ValidationResult)
    ensures r.valid <==> r.error == None
    ensures r.error == Some(AmountRequired) <==> IsBlank(amount)
    ensures r.error == Some(AmountNotANumber) <==> !IsBlank(amount) && ParseFloat(amount).NaN?
    ensures r.error == Some(AmountNotPositive) <==> !IsBlank(amount) && IsAtMostZero(ParseFloat(amount))
    ensures r.valid <==> !IsBlank(amount) && IsAboveZero(ParseFloat(amount))
  {
    if !StringIsTruthy(amount) || Trim(amount) == [] then
      ValidationResult(false, Some(AmountRequired))
    else
      var numAmount := ParseFloat(amount);
      if numAmount.NaN? then
        ValidationResult(false, Some(AmountNotANumber))
      else if IsAtMostZero(numAmount) then
        ValidationResult(false, Some(AmountNotPositive))
      else
        ValidationResult(true, None)
  }

  /** An amount typed as a whole number is accepted exactly when it is above zero. */
  lemma ValidateAmountOfNatural(n: nat)
    ensures ValidateAmount(NatToDecimal(n)).valid <==> n > 0
    ensures n == 0 ==> ValidateAmount(NatToDecimal(n)).error == Some(AmountNotPositive)
  {
    ParseFloatOfNatural(n);
    var s := NatToDecimal(n);
    assert !IsJsWhitespace(s[0]);
  }

  /** `parseFloat` reads only a numeric prefix, so trailing text after a whole
      number does not make the amount invalid. */
  lemma ValidateAmountIgnoresTrailingText(n: nat, junk: string)
    requires n > 0
    requires junk == [] || !(IsAsciiDigit(junk[0]) || junk[0] == '.' || junk[0] == 'e' || junk[0] == 'E')
    ensures ValidateAmount(NatToDecimal(n) + junk).valid
  {
    ParseFloatOfNaturalPrefix(n, junk);
    var s := NatToDecimal(n) + junk;
    assert s[0] == NatToDecimal(n)[0];
    assert !IsJsWhitespace(s[0]);
    assert !IsBlank(s);
    assert IsAboveZero(ParseFloat(s));
  }

  /** A negative whole number is reported as not above zero. */
  lemma ValidateAmountOfNegative(n: nat)
    requires n > 0
    ensures ValidateAmount("-" + NatToDecimal(n)).error == Some(AmountNotPositive)
  {
    ParseFloatOfNegatedNatural(n);
    var s := "-" + NatToDecimal(n);
    assert !IsJsWhitespace(s[0]);
  }

  /** "Infinity", whatever follows it, is read as positive infinity and accepted; with
      a minus sign in front it is reported as not above zero. */
  lemma ValidateAmountOfInfinity(junk: string)
    ensures ValidateAmount(InfinityWord + junk).valid
    ensures ValidateAmount("-" + InfinityWord + junk).error == Some(AmountNotPositive)
  {
    var u := InfinityWord + junk;
    assert u[..|InfinityWord|] == InfinityWord;
    assert u[0] == 'I' && !IsBlank(u);
    ParseFloatOfUnsigned(u);
    ParseFloatOfMinus(u);
    var v := "-" + u;
    assert v == "-" + InfinityWord + junk;
    assert v[0] == '-' && !IsBlank(v);
  }

  /** An amount typed as digits, a decimal point and digits, optionally followed by
      an exponent or other text, is accepted exactly when some digit is not '0':
      "0.5" is accepted and "0.000" gets "mayor a 0". */
  lemma ValidateAmountOfDecimal(w: string, f: string, junk: string)
    requires AllDigits(w) && AllDigits(f) && (w != [] || f != [])
    requires junk == [] || !IsAsciiDigit(junk[0])
    ensures ValidateAmount(w + "." + f + junk).valid <==>
      (exists i :: 0 <= i < |w| && w[i] != '0') || (exists i :: 0 <= i < |f| && f[i] != '0')
    ensures !ValidateAmount(w + "." + f + junk).valid ==>
      ValidateAmount(w + "." + f + junk).error == Some(AmountNotPositive)
  {
    var u := w + "." + f + junk;
    assert u[|w|] == '.';
    assert !IsBlank(u);
    assert u[0] == if w != [] then w[0] else '.';
    ParseFloatOfUnsigned(u);
    ParseUnsignedOfDecimal(w, f, junk);
    DigitsValuePositive(w);
    DigitsValuePositive(f);
  }

  /** An amount typed as whole digits, optionally followed by an exponent or other
      text that does not continue the digits, is accepted exactly when some digit is
      not '0': "1e-3" is accepted and "00" gets "mayor a 0". */
  lemma ValidateAmountOfInteger(w: string, junk: string)
    requires w != [] && AllDigits(w)
    requires junk == [] || !(IsAsciiDigit(junk[0]) || junk[0] == '.')
    ensures ValidateAmount(w + junk).valid <==> exists i :: 0 <= i < |w| && w[i] != '0'
    ensures !ValidateAmount(w + junk).valid ==> ValidateAmount(w + junk).error == Some(AmountNotPositive)
  {
    var u := w + junk;
    assert u[0] == w[0];
    assert !IsBlank(u);
    ParseFloatOfUnsigned(u);
    ParseUnsignedOfInteger(w, junk);
    DigitsValuePositive(w);
  }

  /** Matches `s` against `^\d{lo,hi}$`: between `lo` and `hi` ASCII digits and
      nothing else. */
  function MatchesDigitRange(s: string, lo: nat, hi: nat): (b: bool)
    ensures b <==> AllDigits(s) && lo <= |s| <= hi
    decreases |s|
  {
    if s == [] then
      lo == 0
    else
      && hi > 0
      && IsAsciiDigit(s[0])
      && MatchesDigitRange(s[1..], if lo > 0 then lo - 1 else 0, hi - 1)
  }

  /** `validateAccountNumber(accountNumber)`. */
  function ValidateAccountNumber(accountNumber: string): (r: ValidationResult)
    ensures r.valid <==> r.error == None
    ensures r.valid <==> AllDigits(accountNumber) && AccountDigitsMin <= |accountNumber| <= AccountDigitsMax
    ensures r.error == Some(AccountNumberRequired) <==> IsBlank(accountNumber)
    ensures r.error == Some(AccountNumberLength) <==>
      !IsBlank(accountNumber) && !(AllDigits(accountNumber) && AccountDigitsMin <= |accountNumber| <= AccountDigitsMax)
  {
    if !StringIsTruthy(accountNumber) || Trim(accountNumber) == [] then
      ValidationResult(false, Some(AccountNumberRequired))
    else if !MatchesDigitRange(accountNumber, AccountDigitsMin, AccountDigitsMax) then
      ValidationResult(false, Some(AccountNumberLength))
    else
      ValidationResult(true, None)
  }

  /** `hasSufficientBalance(amount, balance)`. */
  function HasSufficientBalance(amount: real, balance: real): (r: bool)
    ensures r <==> forall origin: string, destination: string
      {:trigger ValidateTransfer(amount, balance, origin, destination)}
      :: InsufficientBalance !in ValidateTransfer(amount, balance, origin, destination).errors
  {
    assert InsufficientBalance in ValidateTransfer(amount, balance, [], []).errors <==> amount > balance;
    balance >= amount
  }

  /** hasSufficientBalance and validateTransfer's balance check are exact opposites. */
  lemma SufficientBalanceAgreesWithTransfer(amount: real, balance: real, origin: string, destination: string)
    ensures HasSufficientBalance(amount, balance)
      <==> InsufficientBalance !in ValidateTransfer(amount, balance, origin, destination).errors
  {
  }

  /** `getCurrencySymbol(currency)`: "NIO" is shown as "C$", anything else as itself. */
  function GetCurrencySymbol(currency: string): (r: string)
    ensures currency == "NIO" ==> r == "C$"
    ensures currency != "NIO" ==> r == currency
    ensures r != "NIO"
  {
    if currency == "NIO" then "C$" else currency
  }

  /** Applying getCurrencySymbol twice is applying it once. */
  lemma CurrencySymbolIdempotent(currency: string)
    ensures GetCurrencySymbol(GetCurrencySymbol(currency)) == GetCurrencySymbol(currency)
  {
  }
}
