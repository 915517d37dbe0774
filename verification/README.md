# Lafise transfer form: validators and step state machine

This project models the two pieces of logic in the Lafise banking dashboard's web
client that go beyond presentation:

- the form validators of `lafise/lib/validation-utils.ts`: `validateTransfer`,
  `validateAmount`, `validateAccountNumber`, `hasSufficientBalance` and
  `getCurrencySymbol`;
- the `TransferForm` component of `lafise/components/transfer-form.tsx`: its state
  hooks as one record, its event handlers as functions from state to state, the
  Back/Continue step counter, and the way the stepper draws each step.

Files and modules:

- `wrappers.dfy`, module `Wrappers`: `Option`, for the source's optional `error` field.
- `js_string.dfy`, module `JsString`: the JavaScript behaviour the validators lean on.
  This covers `String.prototype.trim` over the ECMAScript white-space set, the ASCII
  digits of `\d`, and the decimal digit runs.
- `js_number.dfy`, module `JsNumber`: `parseFloat`. It is modelled on the
  StrDecimalLiteral grammar of ECMA-262 (section 19.2.4 and 7.1.4.1): optional sign,
  `Infinity`, integer and fraction digits, and an exponent. It reads the longest
  literal prefix, so `"12abc"` reads as 12. A JavaScript number is modelled as an
  exact `real`, positive or negative infinity, or NaN.
- `validation_utils.dfy`, module `ValidationUtils`: the five validators, with the
  exact Spanish error strings of the source.
- `transfer_form.dfy`, module `TransferForm`: the form state, the handlers, the
  event-sequence semantics and the stepper classification.

## Behaviour notes

- The step counter starts at 4. It moves only through the Back and Continue buttons,
  with a floor of 1 and a cap of 4.
- The transaction types are "Terceros", "Propias" and "Interbancaria".
- The error messages are the Spanish strings of `validation-utils.ts`. The
  insufficient-balance message does not cite the balance.
- `validateTransfer` compares the accounts as strings. It takes a plain `amount` and
  `balance`.
- No component calls the validators. They are modelled as the library functions
  they are.

## Model

| member | source | states |
|---|---|---|
| ValidationUtils.ValidateTransfer | lafise/lib/validation-utils.ts:16-53 | valid exactly when the error list is empty; each of the five messages is present exactly when its rule is broken (empty origin; empty destination; both non-empty and equal; amount <= 0; amount > balance); the list is in check order; valid exactly when both accounts are set and differ and 0 < amount <= balance |
| ValidationUtils.ReportingOrderBound | lafise/lib/validation-utils.ts:22-47 | an error list in check order repeats no message and holds at most five |
| ValidationUtils.ReportingOrderDeterminedByContents | lafise/lib/validation-utils.ts:22-52 | two lists in check order with the same messages are equal, so the membership facts above fix the whole error list |
| ValidationUtils.SameAccountNeverValid | lafise/lib/validation-utils.ts:35-37 | a transfer from a non-empty account to itself always reports "deben ser diferentes" and is never valid |
| ValidationUtils.BothAmountErrorsOnNegativeBalance | lafise/lib/validation-utils.ts:40-47 | when balance < amount <= 0 both amount errors are reported, "mayor a 0" before "Saldo insuficiente" |
| ValidationUtils.OverdraftIsTheOnlyError | lafise/lib/validation-utils.ts:24-52 | distinct non-empty accounts and 0 < balance < amount give exactly the one insufficient-balance error |
| ValidationUtils.ValidateAmount | lafise/lib/validation-utils.ts:58-74 | an empty or all-white-space amount is "requerido"; otherwise a NaN parse is "número válido", a parse <= 0 (or -Infinity) is "mayor a 0"; valid exactly when the parse is above zero; an error is present exactly when not valid |
| ValidationUtils.ValidateAmountOfNatural | lafise/lib/validation-utils.ts:63-73 | a whole number written in decimal is accepted exactly when it is above zero, and "0" gets "mayor a 0" |
| ValidationUtils.ValidateAmountIgnoresTrailingText | lafise/lib/validation-utils.ts:63-73 | a positive whole number followed by text that cannot continue a number (such as "12abc") is accepted, because parseFloat reads only the numeric prefix |
| ValidationUtils.ValidateAmountOfInfinity | lafise/lib/validation-utils.ts:63-73 | "Infinity", whatever follows it, is accepted, because parseFloat reads it as positive infinity; "-Infinity" gets "mayor a 0" |
| ValidationUtils.ValidateAmountOfDecimal | lafise/lib/validation-utils.ts:63-73 | digits, a point and digits (then optionally an exponent or other text) are accepted exactly when some digit is not 0, and otherwise get "mayor a 0": "0.5" is accepted, "0.000" is not |
| ValidationUtils.ValidateAmountOfInteger | lafise/lib/validation-utils.ts:63-73 | whole digits (then optionally an exponent or other text) are accepted exactly when some digit is not 0, and otherwise get "mayor a 0": "1e-3" is accepted, "00" is not |
| ValidationUtils.ValidateAmountOfNegative | lafise/lib/validation-utils.ts:69-71 | "-n" for a positive n gets "mayor a 0" |
| ValidationUtils.MatchesDigitRange | lafise/lib/validation-utils.ts:84-87 | the anchored pattern `^\d{lo,hi}$` matches exactly the strings of ASCII digits whose length is between lo and hi |
| ValidationUtils.ValidateAccountNumber | lafise/lib/validation-utils.ts:79-92 | valid exactly when the untrimmed string is 10 to 16 ASCII digits; an empty or all-white-space string is "requerido"; every other failure is "entre 10 y 16 dígitos" |
| ValidationUtils.HasSufficientBalance | lafise/lib/validation-utils.ts:97-99 | true exactly when validateTransfer, for any pair of accounts, does not report insufficient balance |
| ValidationUtils.SufficientBalanceAgreesWithTransfer | lafise/lib/validation-utils.ts:97-99 | hasSufficientBalance(a, b) holds exactly when validateTransfer does not report insufficient balance (the check at line 45) |
| ValidationUtils.GetCurrencySymbol | lafise/lib/validation-utils.ts:104-106 | "NIO" is shown as "C$", every other code is returned unchanged, and the result is never "NIO" |
| ValidationUtils.CurrencySymbolIdempotent | lafise/lib/validation-utils.ts:104-106 | mapping a code to its symbol twice is the same as once |
| JsString.Trim | lafise/lib/validation-utils.ts:59 | the result is the input with a blank prefix and a blank suffix removed; it is empty exactly when every character is ECMAScript white space, and otherwise neither end of it is white space |
| JsString.DigitsValuePositive | lafise/lib/validation-utils.ts:63-71 | a run of digits denotes a positive number exactly when one of its digits is not 0 (the fact behind the "mayor a 0" check on digit-only amounts) |
| JsNumber.ParseFloat | lafise/lib/validation-utils.ts:63 | text of white space alone is NaN; a negative result needs a minus sign as the first character after the leading white space |
| JsNumber.ParseUnsigned | lafise/lib/validation-utils.ts:63 | the literal read is NaN exactly when the text does not start with `Infinity`, a digit, or a point followed by a digit; text starting with `Infinity` reads as positive infinity; it is never negative (the values of digit literals are given by ParseUnsignedOfInteger and ParseUnsignedOfDecimal) |
| JsNumber.ParseUnsignedOfInteger | lafise/lib/validation-utils.ts:63 | digits not followed by a digit or a point read as their value scaled by the exponent part, if any, that follows them |
| JsNumber.ParseUnsignedOfDecimal | lafise/lib/validation-utils.ts:63 | digits, a point and digits (at least one digit in all) not followed by a digit read as that decimal scaled by the exponent part, if any, that follows |
| JsNumber.ExponentOfDigits | lafise/lib/validation-utils.ts:63 | an exponent part `e`/`E`, an optional sign and digits not followed by another digit denotes the digits' value, negated after `-`: "e-3" is -3 |
| JsNumber.ParseFloatOfUnsigned | lafise/lib/validation-utils.ts:63 | text starting with neither white space nor a sign is read as an unsigned literal |
| JsNumber.ParseFloatOfMinus | lafise/lib/validation-utils.ts:63 | a leading minus sign negates whatever unsigned literal follows it, NaN and Infinity included |
| JsNumber.ParseFloatOfPlus | lafise/lib/validation-utils.ts:63 | a leading plus sign leaves the unsigned literal after it unchanged |
| JsNumber.ParseFloatSkipsLeadingBlank | lafise/lib/validation-utils.ts:63 | leading white space does not change the number parseFloat reads |
| JsNumber.ParseFloatOfNaturalPrefix | lafise/lib/validation-utils.ts:63 | the decimal writing of a natural number, followed by text that cannot continue a literal, parses to that number |
| JsNumber.ParseFloatOfNegatedNatural | lafise/lib/validation-utils.ts:63 | "-" followed by the decimal writing of a natural number reads as the negation of that number |
| TransferForm.Initial | lafise/components/transfer-form.tsx:22-30 | the form starts at step 4 with type "Terceros", the first account, debit concept "Cancelación de préstamo", empty credit concept, reference and email, and both dropdowns closed |
| TransferForm.HandleBack | lafise/components/transfer-form.tsx:32-34 | above step 1 the step drops by one, at step 1 the state is unchanged; no other field changes |
| TransferForm.HandleContinue | lafise/components/transfer-form.tsx:36-38 | below step 4 the step rises by one, at step 4 the state is unchanged; no other field changes |
| TransferForm.ApplyPreservesInvariant | lafise/components/transfer-form.tsx:102-142 | an event the rendered form offers keeps the step in 1..4, the type in the listed types and the account in the listed accounts |
| TransferForm.RunPreservesInvariant | lafise/components/transfer-form.tsx:32-38 | every sequence of offered events keeps that invariant |
| TransferForm.ReachableStatesAreValid | lafise/components/transfer-form.tsx:22-38 | from the initial state every reachable step is in 1..4 and every selected type is "Terceros", "Propias" or "Interbancaria" |
| TransferForm.BackThenContinue | lafise/components/transfer-form.tsx:32-38 | from steps 2..4, Back then Continue restores the state |
| TransferForm.ContinueThenBack | lafise/components/transfer-form.tsx:32-38 | from steps 1..3, Continue then Back restores the state |
| TransferForm.Apply | lafise/components/transfer-form.tsx:94-193 | each onClick/onChange handler as a state change: events other than Back and Continue never change the step; Back and Continue change nothing but the step |
| TransferForm.FieldEventsTouchOnlyTheirField | lafise/components/transfer-form.tsx:94-193 | choosing a type or an account sets it and closes its dropdown; editing a concept, the reference or the email sets that field; a toggle flips only its dropdown; nothing else changes |
| TransferForm.FieldEventsKeepStep | lafise/components/transfer-form.tsx:94-193 | any run of non-stepper events leaves the step where it was |
| TransferForm.RepeatedBack | lafise/components/transfer-form.tsx:32-34 | k presses of Back from step c end at step max(1, c - k) |
| TransferForm.RepeatedContinue | lafise/components/transfer-form.tsx:36-38 | k presses of Continue from step c end at step min(4, c + k) |
| TransferForm.Classify | lafise/components/transfer-form.tsx:60-73 | a step is completed exactly when its id is below the current step, active exactly when equal, pending exactly when above, so exactly one of the three holds |
| TransferForm.IndicatorCounts | lafise/components/transfer-form.tsx:48-73 | at a current step c in 1..4, exactly one of the four steps is active (drawn with the dot), c - 1 are completed (drawn with the check mark) and 4 - c are pending |
| TransferForm.StepperDrawingAgrees | lafise/components/transfer-form.tsx:51-79 | a step's label is emphasised exactly when it is not pending; a connector is coloured exactly when its step is completed and is not the last |

## Left out

- `lafise/lib/api-client.ts`, `lafise/contexts/user-context.tsx` and
  `lafise/components/recent-transactions.tsx` are not part of this model: they are
  HTTP calls, JSON parsing, asynchronous loading and `Date`/locale formatting.
- The remaining components, `lafise/app/page.tsx` and `lafise/contexts/sidebar-context.tsx`
  are not part of this model. They show fixed data or data fetched for the signed-in
  user, switch the shown section or tab, and copy account numbers to the clipboard.
  None of them validates input or keeps step state. `lafise/lib/types.ts` only
  declares data shapes.
- Rendering, CSS classes and icons of `TransferForm` are left out. Only which status
  each indicator, label and connector shows is modelled.
- ValidationUtils.ValidateTransfer: `amount` and `balance` are exact reals. NaN and
  infinite amounts are not modelled, and neither is floating-point rounding.
  JavaScript falsiness of a number (`!amount`) is modelled as `amount == 0`.
- JsNumber.ParseUnsigned: a literal denotes the exact real it spells. Binary
  rounding, overflow of huge exponents to Infinity, and underflow to zero are not
  modelled.
- ValidationUtils.ValidateAccountNumber, ValidationUtils.ValidateAmount and
  ValidationUtils.ValidateTransfer take `string` arguments. The case where a JavaScript caller passes `undefined` or `null`
  is not modelled; the TypeScript signatures exclude it.
- TransferForm.Enabled: a dropdown entry can only be chosen while its dropdown is
  open, and only with one of the listed values, because those are the only buttons
  the component renders. Events that the rendered page does not offer are outside
  the model.
- React's batching and re-rendering are not modelled. Each handler runs on the state
  of the latest render, as a click does.
