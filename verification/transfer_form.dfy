/**
 The state of the `TransferForm` component of `lafise/components/transfer-form.tsx`:
 its `useState` hooks as one record, each event handler as a function from state to
 state, and the classification of the four step indicators of its stepper.
 */
module TransferForm {

  /** An entry of the component's fixed account list; `balance` is display text.
      `currency` is the source's `type` field, renamed because `type` is a Dafny
      keyword. */
  datatype Account = Account(currency: string, number: string, balance: string)

  datatype Step = Step(id: int, name: string)

  const Steps: seq<Step> := [
    Step(1, "Cuenta origen"),
    Step(2, "Cuenta destino"),
    Step(3, "Monto a transferir"),
    Step(4, "Datos adicionales")
  ]

  const TransactionTypes: seq<string> := ["Terceros", "Propias", "Interbancaria"]

  const Accounts: seq<Account> := [
    Account("NIO", "10424667", "C$ 38,456"),
    Account("USD", "10239849", "USD 22,380"),
    Account("USD", "10635657", "USD 12,400")
  ]

  const FirstStep: int := 1
  const LastStep: int := 4
  const InitialStep: int := 4

  /** The component's state hooks. */
  datatype FormState = FormState(
    currentStep: int,
    transactionType: string,
    selectedAccount: Account,
    debitConcept: string,
    creditConcept: string,
    reference: string,
    confirmationEmail: string,
    showTransactionDropdown: bool,
    showAccountDropdown: bool)

  /** The state a freshly mounted form starts in. */
  function Initial(): (s: FormState)
    ensures s.currentStep == LastStep
    ensures s.transactionType == TransactionTypes[0] && s.selectedAccount == Accounts[0]
    ensures s.debitConcept == "Cancelación de préstamo"
    ensures s.creditConcept == [] && s.reference == [] && s.confirmationEmail == []
    ensures !s.showTransactionDropdown && !s.showAccountDropdown
  {
    FormState(InitialStep, "Terceros", Accounts[0], "Cancelación de préstamo", "", "", "", false, false)
  }

  /** `handleBack`: one step back, never below the first step; nothing else changes. */
  function HandleBack(s: FormState): (r: FormState)
    ensures r.(currentStep := s.currentStep) == s
    ensures s.currentStep > FirstStep ==> r.currentStep == s.currentStep - 1
    ensures s.currentStep <= FirstStep ==> r == s
  {
    if s.currentStep > 1 then s.(currentStep := s.currentStep - 1) else s
  }

  /** `handleContinue`: one step forward, never past the last step; nothing else changes. */
  function HandleContinue(s: FormState): (r: FormState)
    ensures r.(currentStep := s.currentStep) == s
    ensures s.currentStep < LastStep ==> r.currentStep == s.currentStep + 1
    ensures s.currentStep >= LastStep ==> r == s
  {
    if s.currentStep < 4 then s.(currentStep := s.currentStep + 1) else s
  }

  /** The user actions the component handles. */
  datatype Event =
    | Back
    | Continue
    | ToggleTransactionDropdown
    | ChooseTransactionType(choice: string)
    | ToggleAccountDropdown
    | ChooseAccount(account: Account)
    | EditDebitConcept(text: string)
    | EditCreditConcept(text: string)
    | EditReference(text: string)
    | EditConfirmationEmail(text: string)

  /** Whether the user can perform `e` in state `s`: the entries of a dropdown are only
      rendered, one per list element, while that dropdown is open. */
  predicate Enabled(s: FormState, e: Event) {
    match e
    case ChooseTransactionType(t) => s.showTransactionDropdown && t in TransactionTypes
    case ChooseAccount(a) => s.showAccountDropdown && a in Accounts
    case _ => true
  }

  /** Whether `e` is one of the two stepper buttons. */
  predicate IsStepEvent(e: Event) {
    e.Back? || e.Continue?
  }

  /** The state after the handler of `e` runs. A field event changes the step of no
      state, and a stepper event changes nothing but the step. */
  function Apply(s: FormState, e: Event): (r: FormState)
    ensures !IsStepEvent(e) ==> r.currentStep == s.currentStep
    ensures IsStepEvent(e) ==> r.(currentStep := s.currentStep) == s
  {
    match e
    case Back => HandleBack(s)
    case Continue => HandleContinue(s)
    case ToggleTransactionDropdown => s.(showTransactionDropdown := !s.showTransactionDropdown)
    case ChooseTransactionType(t) => s.(transactionType := t, showTransactionDropdown := false)
    case ToggleAccountDropdown => s.(showAccountDropdown := !s.showAccountDropdown)
    case ChooseAccount(a) => s.(selectedAccount := a, showAccountDropdown := false)
    case EditDebitConcept(t) => s.(debitConcept := t)
    case EditCreditConcept(t) => s.(creditConcept := t)
    case EditReference(t) => s.(reference := t)
    case EditConfirmationEmail(t) => s.(confirmationEmail := t)
  }

  /** Every event of `es` is enabled in the state it is applied to. */
  predicate Feasible(s: FormState, es: seq<Event>)
    decreases |es|
  {
    es == [] || (Enabled(s, es[0]) && Feasible(Apply(s, es[0]), es[1..]))
  }

  /** The state after the events `es`, in order. */
  function Run(s: FormState, es: seq<Event>): FormState
    decreases |es|
  {
    if es == [] then s else Run(Apply(s, es[0]), es[1..])
  }

  /** What holds of every state the form can reach. */
  predicate Invariant(s: FormState) {
    && FirstStep <= s.currentStep <= LastStep
    && s.transactionType in TransactionTypes
    && s.selectedAccount in Accounts
  }

  /** One enabled event keeps the invariant. */
  lemma ApplyPreservesInvariant(s: FormState, e: Event)
    requires Invariant(s) && Enabled(s, e)
    ensures Invariant(Apply(s, e))
  {
  }

  /** Any sequence of enabled events keeps the invariant. */
  lemma {:induction false} RunPreservesInvariant(s: FormState, es: seq<Event>)
    requires Invariant(s) && Feasible(s, es)
    ensures Invariant(Run(s, es))
    decreases |es|
  {
    if es != [] {
      ApplyPreservesInvariant(s, es[0]);
      RunPreservesInvariant(Apply(s, es[0]), es[1..]);
    }
  }

  /** From the initial state, the step stays within 1..4 and the transaction type is
      always one of the listed ones, whatever the user does. */
  lemma ReachableStatesAreValid(es: seq<Event>)
    requires Feasible(Initial(), es)
    ensures FirstStep <= Run(Initial(), es).currentStep <= LastStep
    ensures Run(Initial(), es).transactionType in TransactionTypes
  {
    RunPreservesInvariant(Initial(), es);
  }

  /** Going back and then forward returns to where the form was, from step 2 on. */
  lemma BackThenContinue(s: FormState)
    requires FirstStep < s.currentStep <= LastStep
    ensures HandleContinue(HandleBack(s)) == s
  {
  }

  /** Going forward and then back returns to where the form was, up to step 3. */
  lemma ContinueThenBack(s: FormState)
    requires FirstStep <= s.currentStep < LastStep
    ensures HandleBack(HandleContinue(s)) == s
  {
  }

  /** Each field event sets its own field and changes nothing else, apart from closing
      the dropdown a choice was made in; the toggles flip only their own dropdown. */
  lemma FieldEventsTouchOnlyTheirField(s: FormState, e: Event)
    ensures e.ChooseTransactionType? ==>
      var r := Apply(s, e);
      r.transactionType == e.choice && !r.showTransactionDropdown
      && r.(transactionType := s.transactionType, showTransactionDropdown := s.showTransactionDropdown) == s
    ensures e.ChooseAccount? ==>
      var r := Apply(s, e);
      r.selectedAccount == e.account && !r.showAccountDropdown
      && r.(selectedAccount := s.selectedAccount, showAccountDropdown := s.showAccountDropdown) == s
    ensures e.EditDebitConcept? ==>
      Apply(s, e).debitConcept == e.text && Apply(s, e).(debitConcept := s.debitConcept) == s
    ensures e.EditCreditConcept? ==>
      Apply(s, e).creditConcept == e.text && Apply(s, e).(creditConcept := s.creditConcept) == s
    ensures e.EditReference? ==>
      Apply(s, e).reference == e.text && Apply(s, e).(reference := s.reference) == s
    ensures e.EditConfirmationEmail? ==>
      Apply(s, e).confirmationEmail == e.text && Apply(s, e).(confirmationEmail := s.confirmationEmail) == s
    ensures e.ToggleTransactionDropdown? ==>
      Apply(s, e).showTransactionDropdown != s.showTransactionDropdown
      && Apply(s, e).(showTransactionDropdown := s.showTransactionDropdown) == s
    ensures e.ToggleAccountDropdown? ==>
      Apply(s, e).showAccountDropdown != s.showAccountDropdown
      && Apply(s, e).(showAccountDropdown := s.showAccountDropdown) == s
  {
  }

  /** A run of field events, however long, leaves the step where it was. */
  lemma {:induction false} FieldEventsKeepStep(s: FormState, es: seq<Event>)
    requires forall i :: 0 <= i < |es| ==> !IsStepEvent(es[i])
    ensures Run(s, es).currentStep == s.currentStep
    decreases |es|
  {
    if es != [] {
      FieldEventsKeepStep(Apply(s, es[0]), es[1..]);
    }
  }

  /** `k` presses of one stepper button. */
  function Presses(e: Event, k: nat): (es: seq<Event>)
    ensures |es| == k && forall i :: 0 <= i < k ==> es[i] == e
  {
    if k == 0 then [] else [e] + Presses(e, k - 1)
  }

  /** Pressing Back `k` times lowers the step by `k`, stopping at the first step. */
  lemma {:induction false} RepeatedBack(s: FormState, k: nat)
    requires FirstStep <= s.currentStep
    ensures Run(s, Presses(Back, k)).currentStep ==
      if s.currentStep - k >= FirstStep then s.currentStep - k else FirstStep
    decreases k
  {
    if k > 0 {
      RepeatedBack(HandleBack(s), k - 1);
    }
  }

  /** Pressing Continue `k` times raises the step by `k`, stopping at the last step. */
  lemma {:induction false} RepeatedContinue(s: FormState, k: nat)
    requires s.currentStep <= LastStep
    ensures Run(s, Presses(Continue, k)).currentStep ==
      if s.currentStep + k <= LastStep then s.currentStep + k else LastStep
    decreases k
  {
    if k > 0 {
      RepeatedContinue(HandleContinue(s), k - 1);
    }
  }

  /** How the stepper draws a step's indicator. */
  datatype StepStatus = Completed | Active | Pending

  /** The indicator of step `id` when the form is at step `current`: a check mark
      before it, a filled dot on it, an empty circle after it. */
  function Classify(id: int, current: int): (st: StepStatus)
    ensures st == Completed <==> id < current
    ensures st == Active <==> id == current
    ensures st == Pending <==> id > current
  {
    if id < current then Completed else if id == current then Active else Pending
  }

  /** Whether the step's name is drawn emphasised (`step.id <= currentStep`). */
  predicate LabelEmphasised(id: int, current: int) {
    id <= current
  }

  /** Whether the connector line after the step at `index` is drawn in colour; the
      last step has no connector. */
  predicate ConnectorFilled(index: nat, current: int)
    requires index < |Steps|
  {
    index < |Steps| - 1 && Steps[index].id < current
  }

  /** The indicators of all four steps, in order. */
  function Indicators(current: int): (r: seq<StepStatus>)
    ensures |r| == |Steps|
    ensures forall i :: 0 <= i < |r| ==> r[i] == Classify(Steps[i].id, current)
  {
    seq(|Steps|, i requires 0 <= i < |Steps| => Classify(Steps[i].id, current))
  }

  /** How many entries of `ss` are `st`. */
  function Count(ss: seq<StepStatus>, st: StepStatus): (n: nat)
    ensures n <= |ss|
  {
    if ss == [] then 0 else (if ss[0] == st then 1 else 0) + Count(ss[1..], st)
  }

  /** At any step from 1 to 4, exactly one indicator is active, the steps before it
      are completed and the ones after it are pending. */
  lemma IndicatorCounts(current: int)
    requires FirstStep <= current <= LastStep
    ensures Count(Indicators(current), Active) == 1
    ensures Count(Indicators(current), Completed) == current - 1
    ensures Count(Indicators(current), Pending) == LastStep - current
  {
    var r := Indicators(current);
    assert r == [r[0]] + [r[1]] + [r[2]] + [r[3]];
    forall st: StepStatus
      ensures Count(r, st) == Count([r[0]], st) + Count([r[1]], st) + Count([r[2]], st) + Count([r[3]], st)
    {
      CountAppend([r[0]] + [r[1]] + [r[2]], [r[3]], st);
      CountAppend([r[0]] + [r[1]], [r[2]], st);
      CountAppend([r[0]], [r[1]], st);
    }
  }

  /** Counting distributes over concatenation. */
  lemma {:induction false} CountAppend(a: seq<StepStatus>, b: seq<StepStatus>, st: StepStatus)
    ensures Count(a + b, st) == Count(a, st) + Count(b, st)
    decreases |a|
  {
    if a != [] {
      assert (a + b)[1..] == a[1..] + b;
      CountAppend(a[1..], b, st);
    } else {
      assert a + b == b;
    }
  }

  /** A step's name is emphasised exactly when its indicator is not pending, and its
      connector is coloured exactly when it is completed and not the last step. */
  lemma StepperDrawingAgrees(index: nat, current: int)
    requires index < |Steps|
    ensures LabelEmphasised(Steps[index].id, current) <==> Classify(Steps[index].id, current) != Pending
    ensures ConnectorFilled(index, current) <==>
      index < |Steps| - 1 && Classify(Steps[index].id, current) == Completed
  {
  }
}
