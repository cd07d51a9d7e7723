/** The exercise session: its phases, the actions the presentation layer sends,
    the transitions as functions on a session value, and the `State` object that
    the application mutates in place, proved to follow those functions. */
module Drill {
  import opened Categories
  import opened Generator

  /** The phase of the session. */
  datatype Mode = Start | Exercising | Result | FinalEvaluation

  /** The actions the presentation layer dispatches, one at a time. */
  datatype Message = Start | ReadInput(choice: Choice) | Check | Next | Finish | Restart | Quit

  /** What handling one action leaves behind: nothing further, a request to
      close the main window, or a panic that ends the program. */
  datatype Outcome = Continue | CloseMainWindow | Panicked

  /** All fields of the session, as one value. */
  datatype Session = Session(
    mode: Mode,
    errorMade: bool,
    errorsCount: nat,
    exerciseCount: nat,
    num: nat,
    den: nat,
    fracType: Ftype,
    choice: Choice)

  /** The session the program starts with: phase Start, no answer, zero
      counters, and no fraction yet (both parts 0, labelled Proper). */
  const Initial := Session(Mode.Start, false, 0, 0, 0, 0, Ftype.Proper, Choice.Unselected)

  /** The fraction on screen, with the category it is labelled with. */
  function Shown(s: Session): Exercise
  {
    Exercise(s.fracType, Fraction(s.num, s.den))
  }

  /** What every reachable session satisfies: there are never more errors than
      exercises, the fraction is either the initial blank one or a correctly
      labelled one with parts in [1,120], and a fraction is on screen whenever an
      exercise is being answered. */
  predicate Invariant(s: Session)
  {
    s.errorsCount <= s.exerciseCount &&
    ((s.num == 0 && s.den == 0 && s.fracType == Ftype.Proper) || WellClassified(Shown(s))) &&
    (s.mode == Mode.Start ==> s.num == 0 && s.den == 0) &&
    (s.mode == Mode.Exercising ==> WellClassified(Shown(s)))
  }

  lemma InitialInvariant()
    ensures Invariant(Initial)
  {
  }

  // ---------------------------------------------------------------------
  // Transitions as functions
  // ---------------------------------------------------------------------

  /** Draws a new category and a fraction for it. Only the fraction and its
      category change; the new fraction is correctly labelled. */
  function WithNewNumbers(s: Session, rnd: Randomness): (r: Session)
    requires WellFormed(rnd)
    ensures r == s.(fracType := r.fracType, num := r.num, den := r.den)
    ensures r.fracType == SampleFtype(rnd.kind)
    ensures WellClassified(Shown(r))
  {
    var e := Generate(rnd);
    s.(fracType := e.fracType, num := e.fraction.num, den := e.fraction.den)
  }

  /** Start: a new fraction, and the phase becomes Exercising. The answer and
      the error flag are left as they were. */
  function Started(s: Session, rnd: Randomness): (r: Session)
    requires WellFormed(rnd)
    ensures r.mode == Mode.Exercising
    ensures r == s.(mode := r.mode, fracType := r.fracType, num := r.num, den := r.den)
    ensures WellClassified(Shown(r))
    ensures r.fracType == SampleFtype(rnd.kind)
  {
    WithNewNumbers(s, rnd).(mode := Mode.Exercising)
  }

  /** Check: one more exercise is counted; a wrong answer sets the error flag
      and counts one more error, a right one leaves both alone; the phase
      becomes Result. Nothing else changes. */
  function Evaluated(s: Session): (r: Session)
    requires s.choice != Choice.Unselected
    ensures r.exerciseCount == s.exerciseCount + 1
    ensures r.errorsCount == if Matches(s.choice, s.fracType) then s.errorsCount else s.errorsCount + 1
    ensures r.errorMade == (s.errorMade || !Matches(s.choice, s.fracType))
    ensures r.mode == Mode.Result
    ensures r == s.(mode := r.mode, errorMade := r.errorMade, errorsCount := r.errorsCount,
                    exerciseCount := r.exerciseCount)
  {
    var counted := s.(exerciseCount := s.exerciseCount + 1);
    var wrong := counted.(errorMade := true, errorsCount := counted.errorsCount + 1);
    var judged :=
      match s.choice {
        case Proper => if s.fracType != Ftype.Proper then wrong else counted
        case Improper => if s.fracType != Ftype.Improper then wrong else counted
        case Apparent => if s.fracType != Ftype.Apparent then wrong else counted
      };
    judged.(mode := Mode.Result)
  }

  /** Next: a new fraction, the answer is cleared, the error flag is reset and
      the phase becomes Exercising; both counters are kept. */
  function Advanced(s: Session, rnd: Randomness): (r: Session)
    requires WellFormed(rnd)
    ensures r.choice == Choice.Unselected && !r.errorMade && r.mode == Mode.Exercising
    ensures r.errorsCount == s.errorsCount && r.exerciseCount == s.exerciseCount
    ensures WellClassified(Shown(r))
    ensures r.fracType == SampleFtype(rnd.kind)
  {
    WithNewNumbers(s, rnd).(choice := Choice.Unselected, errorMade := false, mode := Mode.Exercising)
  }

  /** Restart: like Next, and both counters go back to 0. */
  function Restarted(s: Session, rnd: Randomness): (r: Session)
    requires WellFormed(rnd)
    ensures r.choice == Choice.Unselected && !r.errorMade && r.mode == Mode.Exercising
    ensures r.errorsCount == 0 && r.exerciseCount == 0
    ensures WellClassified(Shown(r))
    ensures r.fracType == SampleFtype(rnd.kind)
  {
    var reset := s.(mode := Mode.Exercising, errorMade := false, errorsCount := 0,
                    exerciseCount := 0, choice := Choice.Unselected);
    WithNewNumbers(reset, rnd)
  }

  /** The actions that draw a new fraction, and so consume randomness. */
  predicate NeedsFraction(msg: Message)
  {
    msg.Start? || msg.Next? || msg.Restart?
  }

  /** The dispatch of one action. Check with no answer chosen counts the
      exercise and then panics; Quit asks to close the window; every other
      action continues. Each action keeps the session invariant. */
  function Step(s: Session, msg: Message, rnd: Randomness): (r: (Session, Outcome))
    requires NeedsFraction(msg) ==> WellFormed(rnd)
    ensures r.1 == Panicked <==> msg == Message.Check && s.choice == Choice.Unselected
    ensures r.1 == CloseMainWindow <==> msg == Message.Quit
    ensures Invariant(s) ==> Invariant(r.0)
  {
    match msg
    case Start => (Started(s, rnd), Continue)
    case ReadInput(c) => (s.(choice := c), Continue)
    case Check =>
      if s.choice == Choice.Unselected then (s.(exerciseCount := s.exerciseCount + 1), Panicked)
      else (Evaluated(s), Continue)
    case Next => (Advanced(s, rnd), Continue)
    case Finish => (s.(mode := Mode.FinalEvaluation), Continue)
    case Restart => (Restarted(s, rnd), Continue)
    case Quit => (s, CloseMainWindow)
  }

  // ---------------------------------------------------------------------
  // What the presentation layer reads
  // ---------------------------------------------------------------------

  /** The Check button reacts to presses only once an answer is chosen. */
  predicate CheckEnabled(s: Session)
  {
    s.choice != Choice.Unselected
  }

  /** Pressing Check panics exactly when the button would not have been
      enabled, so the gating at the view is what keeps the program alive. */
  lemma CheckEnabledIffNoPanic(s: Session, rnd: Randomness)
    ensures CheckEnabled(s) <==> Step(s, Message.Check, rnd).1 == Continue
  {
  }

  /** In the Result phase the screen offers Next until 20 exercises are done,
      and Finish from then on. */
  function ResultAction(s: Session): (m: Message)
    ensures m == Message.Next || m == Message.Finish
    ensures m == Message.Finish <==> s.exerciseCount >= 20
  {
    if s.exerciseCount < 20 then Message.Next else Message.Finish
  }

  /** The number of right answers shown in the summary. The subtraction is on
      unsigned integers in the program, so it needs the errors not to exceed the
      exercises, which the session invariant guarantees. */
  function CorrectCount(s: Session): (correct: nat)
    requires Invariant(s)
    ensures correct + s.errorsCount == s.exerciseCount
  {
    s.exerciseCount - s.errorsCount
  }

  // ---------------------------------------------------------------------
  // Runs of several actions
  // ---------------------------------------------------------------------

  predicate RandomnessFits(msgs: seq<Message>, rnds: seq<Randomness>)
  {
    |rnds| == |msgs| &&
    forall j :: 0 <= j < |msgs| && NeedsFraction(msgs[j]) ==> WellFormed(rnds[j])
  }

  /** Dispatches the actions in order, stopping at the first that closes the
      window or panics (the program ends there). */
  function Run(s: Session, msgs: seq<Message>, rnds: seq<Randomness>): (Session, Outcome)
    requires RandomnessFits(msgs, rnds)
    decreases |msgs|
  {
    if msgs == [] then (s, Continue)
    else
      var r := Step(s, msgs[0], rnds[0]);
      if r.1 != Continue then r
      else Run(r.0, msgs[1..], rnds[1..])
  }

  /** Every action of the run is one the screen allows: Check is only sent
      while the Check button is enabled. */
  predicate Gated(s: Session, msgs: seq<Message>, rnds: seq<Randomness>)
    requires RandomnessFits(msgs, rnds)
    decreases |msgs|
  {
    msgs != [] ==>
      (msgs[0] == Message.Check ==> CheckEnabled(s)) &&
      Gated(Step(s, msgs[0], rnds[0]).0, msgs[1..], rnds[1..])
  }

  /** The invariant holds after any run from a session where it holds, and so
      after any run from the initial session. */
  lemma {:induction false} RunKeepsInvariant(s: Session, msgs: seq<Message>, rnds: seq<Randomness>)
    requires RandomnessFits(msgs, rnds)
    requires Invariant(s)
    ensures Invariant(Run(s, msgs, rnds).0)
    decreases |msgs|
  {
    if msgs != [] {
      var r := Step(s, msgs[0], rnds[0]);
      if r.1 == Continue {
        RunKeepsInvariant(r.0, msgs[1..], rnds[1..]);
      }
    }
  }

  /** A run that only presses Check while it is enabled never panics. */
  lemma {:induction false} GatedRunNeverPanics(s: Session, msgs: seq<Message>, rnds: seq<Randomness>)
    requires RandomnessFits(msgs, rnds)
    requires Gated(s, msgs, rnds)
    ensures Run(s, msgs, rnds).1 != Panicked
    decreases |msgs|
  {
    if msgs != [] {
      var r := Step(s, msgs[0], rnds[0]);
      if r.1 == Continue {
        GatedRunNeverPanics(r.0, msgs[1..], rnds[1..]);
      }
    }
  }

  /** Without a Restart, a run that was not cut short counts exactly one
      exercise per Check it dispatched. */
  lemma {:induction false} RunCountsChecks(s: Session, msgs: seq<Message>, rnds: seq<Randomness>)
    requires RandomnessFits(msgs, rnds)
    requires Message.Restart !in msgs
    requires Run(s, msgs, rnds).1 == Continue
    ensures Run(s, msgs, rnds).0.exerciseCount == s.exerciseCount + multiset(msgs)[Message.Check]
    decreases |msgs|
  {
    if msgs != [] {
      var r := Step(s, msgs[0], rnds[0]);
      assert msgs == [msgs[0]] + msgs[1..];
      assert multiset(msgs) == multiset([msgs[0]]) + multiset(msgs[1..]);
      RunCountsChecks(r.0, msgs[1..], rnds[1..]);
    }
  }

  /** Started afresh, the screen offers Finish once twenty Checks have been
      dispatched without a Restart. */
  lemma FinishOfferedAfterTwentyChecks(msgs: seq<Message>, rnds: seq<Randomness>)
    requires RandomnessFits(msgs, rnds)
    requires Message.Restart !in msgs
    requires Run(Initial, msgs, rnds).1 == Continue
    requires multiset(msgs)[Message.Check] >= 20
    ensures ResultAction(Run(Initial, msgs, rnds).0) == Message.Finish
  {
    RunCountsChecks(Initial, msgs, rnds);
  }

  // ---------------------------------------------------------------------
  // The session object
  // ---------------------------------------------------------------------

  /** The application state, mutated in place by each action. */
  class State {
    var mode: Mode
    var errorMade: bool
    var errorsCount: nat
    var exerciseCount: nat
    var num: nat
    var den: nat
    var fracType: Ftype
    var choice: Choice

    /** The fields as one session value. */
    function Current(): Session
      reads this
    {
      Session(mode, errorMade, errorsCount, exerciseCount, num, den, fracType, choice)
    }

    ghost predicate Valid()
      reads this
    {
      Invariant(Current())
    }

    /** The default state. */
    constructor ()
      ensures Current() == Initial && Valid()
    {
      mode := Mode.Start;
      errorMade := false;
      errorsCount := 0;
      exerciseCount := 0;
      num := 0;
      den := 0;
      fracType := Ftype.Proper;
      choice := Choice.Unselected;
    }

    /** Draws the category, then the fraction for it: a single draw for Proper,
        the rejection loops for Improper and Apparent. */
    method GetNewNumbers(rnd: Randomness)
      requires WellFormed(rnd)
      modifies this
      ensures Current() == WithNewNumbers(old(Current()), rnd)
    {
      fracType := SampleFtype(rnd.kind);
      var f: Fraction;
      match fracType {
        case Proper =>
          f := Fraction(rnd.proper.0, rnd.proper.1);
        case Improper =>
          var found, count := DrawImproper(rnd.improper);
          f := found.value;
        case Apparent =>
          var found, count := DrawApparent(rnd.apparent);
          f := found.value;
      }
      num := f.num;
      den := f.den;
    }

    method Start(rnd: Randomness)
      requires Valid() && WellFormed(rnd)
      modifies this
      ensures Valid()
      ensures Current() == Started(old(Current()), rnd)
    {
      GetNewNumbers(rnd);
      mode := Mode.Exercising;
    }

    /** Records the answer; nothing else changes. */
    method ReadInput(c: Choice)
      requires Valid()
      modifies this
      ensures Valid()
      ensures Current() == old(Current()).(choice := c)
    {
      choice := c;
    }

    /** Judges the chosen answer. The program panics when no answer is chosen,
        so one must be. */
    method Evaluate()
      requires Valid() && choice != Choice.Unselected
      modifies this
      ensures Valid()
      ensures Current() == Evaluated(old(Current()))
    {
      exerciseCount := exerciseCount + 1;
      match choice {
        case Proper =>
          if fracType != Ftype.Proper {
            errorMade := true;
            errorsCount := errorsCount + 1;
          }
        case Improper =>
          if fracType != Ftype.Improper {
            errorMade := true;
            errorsCount := errorsCount + 1;
          }
        case Apparent =>
          if fracType != Ftype.Apparent {
            errorMade := true;
            errorsCount := errorsCount + 1;
          }
        case Unselected =>
          assert false;
      }
      mode := Mode.Result;
    }

    method Next(rnd: Randomness)
      requires Valid() && WellFormed(rnd)
      modifies this
      ensures Valid()
      ensures Current() == Advanced(old(Current()), rnd)
    {
      GetNewNumbers(rnd);
      choice := Choice.Unselected;
      errorMade := false;
      mode := Mode.Exercising;
    }

    /** Moves to the summary; nothing else changes. */
    method Finish()
      requires Valid()
      modifies this
      ensures Valid()
      ensures Current() == old(Current()).(mode := Mode.FinalEvaluation)
    {
      mode := Mode.FinalEvaluation;
    }

    method Restart(rnd: Randomness)
      requires Valid() && WellFormed(rnd)
      modifies this
      ensures Valid()
      ensures Current() == Restarted(old(Current()), rnd)
    {
      mode := Mode.Exercising;
      errorMade := false;
      errorsCount := 0;
      exerciseCount := 0;
      choice := Choice.Unselected;
      GetNewNumbers(rnd);
    }

    /** Handles one action. */
    method Update(msg: Message, rnd: Randomness) returns (outcome: Outcome)
      requires Valid()
      requires NeedsFraction(msg) ==> WellFormed(rnd)
      modifies this
      ensures Valid()
      ensures (Current(), outcome) == Step(old(Current()), msg, rnd)
    {
      match msg
      case Start =>
        Start(rnd);
        outcome := Continue;
      case ReadInput(c) =>
        ReadInput(c);
        outcome := Continue;
      case Check =>
        if choice == Choice.Unselected {
          // the exercise is counted before the program panics
          exerciseCount := exerciseCount + 1;
          outcome := Panicked;
        } else {
          Evaluate();
          outcome := Continue;
        }
      case Next =>
        Next(rnd);
        outcome := Continue;
      case Finish =>
        Finish();
        outcome := Continue;
      case Restart =>
        Restart(rnd);
        outcome := Continue;
      case Quit =>
        outcome := CloseMainWindow;
    }
  }

  /** A fresh session, one Start that shows a Proper fraction, the answer
      Proper, a Check (one exercise, no error, phase Result), then Next (a new
      exercise with the answer cleared and the counters kept). */
  method CorrectAnswerScenario(rnd: Randomness)
    requires WellFormed(rnd) && rnd.kind == 0
  {
    var state := new State();
    var outcome := state.Update(Message.Start, rnd);
    assert state.fracType == Ftype.Proper;
    outcome := state.Update(Message.ReadInput(Choice.Proper), rnd);
    outcome := state.Update(Message.Check, rnd);
    assert outcome == Continue;
    assert state.mode == Mode.Result && !state.errorMade;
    assert state.exerciseCount == 1 && state.errorsCount == 0;
    outcome := state.Update(Message.Next, rnd);
    assert outcome == Continue;
    assert state.mode == Mode.Exercising && state.choice == Choice.Unselected && !state.errorMade;
    assert state.exerciseCount == 1 && state.errorsCount == 0;
  }

  /** The same fraction answered Apparent: the error is flagged and counted,
      and Next clears the flag but keeps the count. */
  method WrongAnswerScenario(rnd: Randomness)
    requires WellFormed(rnd) && rnd.kind == 0
  {
    var state := new State();
    var outcome := state.Update(Message.Start, rnd);
    outcome := state.Update(Message.ReadInput(Choice.Apparent), rnd);
    outcome := state.Update(Message.Check, rnd);
    assert outcome == Continue;
    assert state.mode == Mode.Result && state.errorMade;
    assert state.exerciseCount == 1 && state.errorsCount == 1;
    outcome := state.Update(Message.Next, rnd);
    assert outcome == Continue;
    assert state.mode == Mode.Exercising && state.choice == Choice.Unselected && !state.errorMade;
    assert state.exerciseCount == 1 && state.errorsCount == 1;
  }
}
