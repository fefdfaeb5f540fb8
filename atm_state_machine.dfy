// Model of Data_Struct_Implementation/stateMachine/stateMachine.c: an ATM
// controller given as a (state, event) switch whose handlers return the
// next state. The input loop of `main` becomes a fold over an event list.
module AtmStateMachine {

  datatype State = Idle | CardInserted | PinEntered | OptionSelected | AmountEntered

  // Event codes as the C enum numbers them; the driver feeds any integer.
  const CardInsertEvent: int := 0
  const PinEnterEvent: int := 1
  const OptionSelectionEvent: int := 2
  const AmountEnterEvent: int := 3
  const AmountDispatchEvent: int := 4

  // The five handlers: each ignores its input and names one state.
  function InsertCardHandler(): State { CardInserted }
  function EnterPinHandler(): State { PinEntered }
  function OptionSelectionHandler(): State { OptionSelected }
  function EnterAmountHandler(): State { AmountEntered }
  function AmountDispatchHandler(): State { Idle }

  /** One pass of the switch in `main`. */
  function Step(s: State, event: int): State
  {
    match s
    case Idle => if event == CardInsertEvent then InsertCardHandler() else s
    case CardInserted => if event == PinEnterEvent then EnterPinHandler() else s
    case PinEntered => if event == OptionSelectionEvent then OptionSelectionHandler() else s
    case OptionSelected => if event == AmountEnterEvent then EnterAmountHandler() else s
    case AmountEntered => if event == AmountDispatchEvent then AmountDispatchHandler() else s
  }

  /** The one event that moves a state on. */
  function AdvancingEvent(s: State): (e: int)
    ensures 0 <= e < 5
  {
    match s
    case Idle => CardInsertEvent
    case CardInserted => PinEnterEvent
    case PinEntered => OptionSelectionEvent
    case OptionSelected => AmountEnterEvent
    case AmountEntered => AmountDispatchEvent
  }

  /** The fixed service cycle Idle -> CardInserted -> ... -> AmountEntered -> Idle. */
  function Successor(s: State): State
  {
    match s
    case Idle => CardInserted
    case CardInserted => PinEntered
    case PinEntered => OptionSelected
    case OptionSelected => AmountEntered
    case AmountEntered => Idle
  }

  /** The transition table: exactly one event per state advances it, to its
      successor; every other (state, event) pair leaves the state alone. */
  lemma StepTable(s: State, event: int)
    ensures event == AdvancingEvent(s) ==> Step(s, event) == Successor(s)
    ensures event != AdvancingEvent(s) ==> Step(s, event) == s
    ensures Step(s, event) != s <==> event == AdvancingEvent(s)
  {
  }

  /** The listed transitions of the ATM, one per state. */
  lemma Transitions()
    ensures Step(Idle, CardInsertEvent) == CardInserted
    ensures Step(CardInserted, PinEnterEvent) == PinEntered
    ensures Step(PinEntered, OptionSelectionEvent) == OptionSelected
    ensures Step(OptionSelected, AmountEnterEvent) == AmountEntered
    ensures Step(AmountEntered, AmountDispatchEvent) == Idle
  {
  }

  /** The state reached after feeding a list of events to the loop. */
  function Run(s: State, events: seq<int>): State
    decreases |events|
  {
    if events == [] then s else Run(Step(s, events[0]), events[1..])
  }

  function Iterate(s: State, n: nat): State
  {
    if n == 0 then s else Successor(Iterate(s, n - 1))
  }

  /** The cycle visits every state once and closes after five steps. */
  lemma {:induction false} CycleOfFive(s: State)
    ensures Iterate(s, 5) == s
    ensures forall i, j :: 0 <= i < j < 5 ==> Iterate(s, i) != Iterate(s, j)
  {
    assert Iterate(s, 1) == Successor(s);
    assert Iterate(s, 2) == Successor(Successor(s));
    assert Iterate(s, 3) == Successor(Successor(Successor(s)));
    assert Iterate(s, 4) == Successor(Successor(Successor(Successor(s))));
  }

  /** Feeding only the advancing event n times walks n steps along the cycle;
      stray events in between do not move the machine. */
  lemma {:induction false} RunAdvancing(s: State, n: nat)
    ensures Run(s, AdvancingEvents(s, n)) == Iterate(s, n)
    decreases n
  {
    if n > 0 {
      StepTable(s, AdvancingEvent(s));
      assert AdvancingEvents(s, n)[1..] == AdvancingEvents(Successor(s), n - 1);
      RunAdvancing(Successor(s), n - 1);
      IterateShift(s, n - 1);
    }
  }

  /** The event list that drives `s` n steps along the cycle. */
  function AdvancingEvents(s: State, n: nat): (es: seq<int>)
    ensures |es| == n
    decreases n
  {
    if n == 0 then [] else [AdvancingEvent(s)] + AdvancingEvents(Successor(s), n - 1)
  }

  lemma {:induction false} IterateShift(s: State, n: nat)
    ensures Iterate(Successor(s), n) == Iterate(s, n + 1)
    decreases n
  {
    if n > 0 {
      IterateShift(s, n - 1);
    }
  }

  /** An event that is not the advancing one is a no-op at any point of a run. */
  lemma {:induction false} RunSkipsStray(s: State, e: int, rest: seq<int>)
    requires e != AdvancingEvent(s)
    ensures Run(s, [e] + rest) == Run(s, rest)
  {
    StepTable(s, e);
    assert ([e] + rest)[1..] == rest;
  }
}
