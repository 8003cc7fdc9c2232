/**
 * The session state machine: `TestState` (types.ts:30-37) and the updates
 * App.tsx applies to it, plus the separate elapsed-time counter `timeTaken`
 * (App.tsx:659).
 *
 * React replaces the state with a new value on every update; each update
 * function passed to `setTestState` is therefore a pure function here
 * (`Answered`, `Countdown`, `Extended`, `Submitted`, `Started`,
 * `InitialState`), and the class `App` holds the two state cells and applies
 * them, one method per event handler or timer firing.
 */
module Session {

  datatype Status = Intro | Active | Finished

  datatype TestState = TestState(
    status: Status,
    timerEnabled: bool,
    timeRemaining: int,          // seconds
    answers: map<string, string>, // question id -> chosen option key
    extensionsUsed: int,
    studentName: string)

  const DefaultTime: int := 3000     // 50 minutes
  const ExtensionSeconds: int := 600 // 10 minutes
  const MaxExtensions: int := 3

  // ----- `name.trim()` (App.tsx:42) -----

  /** ECMAScript WhiteSpace and LineTerminator code points, which `trim` removes. */
  predicate IsWhitespace(c: char) {
    c == '\t' || c == '\n' || c == '\U{B}' || c == '\U{C}' || c == '\r' || c == ' ' ||
    c == '\U{A0}' || c == '\U{1680}' || ('\U{2000}' <= c <= '\U{200A}') ||
    c == '\U{2028}' || c == '\U{2029}' || c == '\U{202F}' || c == '\U{205F}' ||
    c == '\U{3000}' || c == '\U{FEFF}'
  }

  predicate IsBlank(s: string) {
    forall i :: 0 <= i < |s| ==> IsWhitespace(s[i])
  }

  function TrimStart(s: string): (r: string)
    ensures |r| <= |s| && r == s[|s| - |r|..]
    ensures r == [] <==> IsBlank(s)
    ensures r != [] ==> !IsWhitespace(r[0])
    decreases |s|
  {
    if s != [] && IsWhitespace(s[0]) then TrimStart(s[1..]) else s
  }

  function TrimEnd(s: string): (r: string)
    ensures |r| <= |s| && r == s[..|r|]
    ensures r == [] <==> IsBlank(s)
    ensures r != [] ==> !IsWhitespace(r[|r| - 1])
    decreases |s|
  {
    if s != [] && IsWhitespace(s[|s| - 1]) then TrimEnd(s[..|s| - 1]) else s
  }

  /**
   * `s.trim()`: a contiguous piece of s with no whitespace at either end; it
   * is empty exactly when s is all whitespace.
   */
  function Trim(s: string): (r: string)
    ensures r == [] <==> IsBlank(s)
    ensures r != [] ==> !IsWhitespace(r[0]) && !IsWhitespace(r[|r| - 1])
  {
    var t := TrimStart(s);
    if t == [] then t
    else
      assert !IsBlank(t);
      TrimEnd(t)
  }

  // ----- The updates passed to setTestState -----

  /** The state created at App.tsx:649-656 and restored by `restartTest` (App.tsx:699-708). */
  function InitialState(): TestState {
    TestState(Intro, false, DefaultTime, map[], 0, "")
  }

  /** `startTest(withTimer, name)` (App.tsx:684-691). */
  function Started(withTimer: bool, name: string): TestState {
    TestState(Active, withTimer, DefaultTime, map[], 0, name)
  }

  /**
   * `handleAnswer(questionId, option)` (App.tsx:158-163): the answer for
   * `id` becomes `option`; every other answer and every other field stays.
   */
  function Answered(s: TestState, id: string, option: string): (r: TestState)
    ensures id in r.answers && r.answers[id] == option
    ensures forall k :: k != id ==> (k in r.answers <==> k in s.answers)
    ensures forall k :: k != id && k in s.answers ==> r.answers[k] == s.answers[k]
    ensures r.(answers := s.answers) == s
  {
    s.(answers := s.answers[id := option])
  }

  /**
   * One firing of the countdown interval (App.tsx:146-152): at zero or below
   * the state is returned as it is; otherwise the remaining time drops by one
   * second and nothing else changes.
   */
  function Countdown(s: TestState): (r: TestState)
    ensures r.(timeRemaining := s.timeRemaining) == s
    ensures s.timeRemaining <= 0 ==> r == s
    ensures s.timeRemaining > 0 ==> 0 <= r.timeRemaining == s.timeRemaining - 1
  {
    if s.timeRemaining <= 0 then s else s.(timeRemaining := s.timeRemaining - 1)
  }

  /**
   * `extendTime` (App.tsx:165-172): refused once three extensions are used;
   * otherwise ten more minutes and one more extension. The timer flag is not
   * consulted.
   */
  function Extended(s: TestState): (r: TestState)
    ensures s.extensionsUsed >= MaxExtensions ==> r == s
    ensures s.extensionsUsed < MaxExtensions ==>
              r == s.(timeRemaining := s.timeRemaining + ExtensionSeconds,
                       extensionsUsed := s.extensionsUsed + 1)
  {
    if s.extensionsUsed >= MaxExtensions then s
    else s.(timeRemaining := s.timeRemaining + ExtensionSeconds, extensionsUsed := s.extensionsUsed + 1)
  }

  /** `submitTest` (App.tsx:694-697): only the status changes. */
  function Submitted(s: TestState): (r: TestState)
    ensures r.status == Finished && r.(status := s.status) == s
  {
    s.(status := Finished)
  }

  /** The invariant every reachable state keeps. */
  predicate ValidState(s: TestState) {
    && 0 <= s.extensionsUsed <= MaxExtensions
    && s.timeRemaining >= 0
    && (s.status != Intro ==> Trim(s.studentName) != "")
  }

  // ----- Properties of the updates -----

  /**
   * The countdown as the interval of App.tsx:142-156 drives it: the session
   * state and whether the interval is still set.
   */
  datatype Clock = Clock(state: TestState, intervalSet: bool)

  /**
   * One second of the countdown interval. While it is set, a firing at zero
   * or below clears it (`clearInterval(timer)`, App.tsx:147-148) and returns
   * the state as it is; any other firing takes one second off. A cleared
   * interval never fires.
   */
  function Fire(c: Clock): (r: Clock)
    ensures r.state == if c.intervalSet then Countdown(c.state) else c.state
    ensures r.intervalSet <==> c.intervalSet && c.state.timeRemaining > 0
  {
    if !c.intervalSet then c
    else if c.state.timeRemaining <= 0 then Clock(c.state, false)
    else Clock(Countdown(c.state), true)
  }

  /** n seconds of the countdown interval. */
  function FireN(c: Clock, n: nat): Clock
    decreases n
  {
    if n == 0 then c else FireN(Fire(c), n - 1)
  }

  /** Once cleared, the interval stays cleared and the state stays as it is. */
  lemma {:induction false} ClearedStaysCleared(c: Clock, n: nat)
    requires !c.intervalSet
    ensures FireN(c, n) == c
    decreases n
  {
    if n > 0 {
      ClearedStaysCleared(Fire(c), n - 1);
    }
  }

  /**
   * From a non-negative remaining time t with the interval set, n seconds
   * lower the time by n but never below zero and touch no other field; the
   * interval is still set after n seconds exactly when n <= t, since the
   * firing that finds zero clears it.
   */
  lemma {:induction false} CountdownStopsAtZero(c: Clock, n: nat)
    requires c.intervalSet && c.state.timeRemaining >= 0
    ensures FireN(c, n).state.timeRemaining ==
              if n <= c.state.timeRemaining then c.state.timeRemaining - n else 0
    ensures FireN(c, n).state.(timeRemaining := c.state.timeRemaining) == c.state
    ensures FireN(c, n).intervalSet <==> n <= c.state.timeRemaining
    decreases n
  {
    if n > 0 {
      if c.state.timeRemaining > 0 {
        CountdownStopsAtZero(Fire(c), n - 1);
      } else {
        ClearedStaysCleared(Fire(c), n - 1);
      }
    }
  }

  /**
   * Ten minutes granted after the countdown has reached zero are never
   * counted down: the firing at zero has cleared the interval, and
   * `extendTime` changes neither the timer flag nor the status, so the effect
   * does not set a new one (App.tsx:156). The remaining time stays at 600.
   */
  lemma ExtensionAfterZeroIsNeverSpent(c: Clock, n: nat)
    requires c.intervalSet && c.state.timeRemaining == 0
    requires 0 <= c.state.extensionsUsed < MaxExtensions
    ensures var z := Fire(c);
            var e := z.(state := Extended(z.state));
            && e.state.timeRemaining == ExtensionSeconds
            && FireN(e, n) == e
  {
    var z := Fire(c);
    ClearedStaysCleared(z.(state := Extended(z.state)), n);
  }

  /** n calls of `extendTime`. */
  function ExtendedN(s: TestState, n: nat): TestState
    decreases n
  {
    if n == 0 then s else ExtendedN(Extended(s), n - 1)
  }

  /**
   * However often `extendTime` is called, at most three extensions are
   * granted, each worth 600 seconds, and the budget is never exceeded.
   */
  lemma {:induction false} ExtensionBudget(s: TestState, n: nat)
    requires 0 <= s.extensionsUsed <= MaxExtensions
    ensures var used := if s.extensionsUsed + n <= MaxExtensions then s.extensionsUsed + n else MaxExtensions;
            && ExtendedN(s, n).extensionsUsed == used
            && ExtendedN(s, n).timeRemaining == s.timeRemaining + ExtensionSeconds * (used - s.extensionsUsed)
            && ExtendedN(s, n).(timeRemaining := s.timeRemaining, extensionsUsed := s.extensionsUsed) == s
    decreases n
  {
    if n > 0 {
      ExtensionBudget(Extended(s), n - 1);
    }
  }

  /**
   * From a fresh timed session, three extensions add 1800 seconds and use the
   * whole budget; a fourth changes nothing.
   */
  lemma FourthExtensionIsRefused(s: TestState)
    requires s.extensionsUsed == 0
    ensures ExtendedN(s, 3).timeRemaining == s.timeRemaining + 1800
    ensures ExtendedN(s, 3).extensionsUsed == 3
    ensures ExtendedN(s, 4) == ExtendedN(s, 3)
  {
    ExtensionBudget(s, 3);
    ExtensionBudget(s, 4);
  }

  /** Answering is idempotent, and a second answer to a question replaces the first. */
  lemma AnswerOverwrites(s: TestState, id: string, first: string, second: string)
    ensures Answered(Answered(s, id, first), id, second) == Answered(s, id, second)
    ensures Answered(Answered(s, id, first), id, first) == Answered(s, id, first)
  {
  }

  /** Answers to different questions do not interfere. */
  lemma AnswersCommute(s: TestState, id1: string, o1: string, id2: string, o2: string)
    requires id1 != id2
    ensures Answered(Answered(s, id1, o1), id2, o2) == Answered(Answered(s, id2, o2), id1, o1)
  {
    assert s.answers[id1 := o1][id2 := o2] == s.answers[id2 := o2][id1 := o1];
  }

  /**
   * The component `App` (App.tsx:648-731): the session state and the elapsed
   * counter `timeTaken`.
   */
  class App {
    var testState: TestState
    var timeTaken: int
    /** Whether the countdown interval of App.tsx:145 is set. */
    var countdownSet: bool

    ghost predicate Valid()
      reads this
    {
      && ValidState(testState) && timeTaken >= 0
      && (countdownSet ==> testState.status == Active && testState.timerEnabled)
    }

    constructor ()
      ensures Valid()
      ensures testState == InitialState() && timeTaken == 0 && !countdownSet
    {
      testState := InitialState();
      timeTaken := 0;
      countdownSet := false;
    }

    /**
     * `handleStart` of the intro screen (App.tsx:41-47) followed by
     * `startTest` (App.tsx:681-692): a name that is blank after trimming is
     * refused and nothing changes; otherwise a fresh active session begins and
     * the elapsed counter restarts from 0.
     */
    method HandleStart(withTimer: bool, name: string) returns (started: bool)
      requires Valid()
      modifies this
      ensures Valid()
      ensures started <==> !IsBlank(name)
      ensures started ==> testState == Started(withTimer, name) && timeTaken == 0 && countdownSet == withTimer
      ensures !started ==> testState == old(testState) && timeTaken == old(timeTaken) &&
                           countdownSet == old(countdownSet)
    {
      if Trim(name) == "" {
        return false;
      }
      StartTest(withTimer, name);
      started := true;
    }

    /**
     * `startTest` (App.tsx:681-692); its one caller has checked the name. The
     * new status (and timer flag) makes the effect of App.tsx:142-156 set the
     * countdown interval when the timer is enabled.
     */
    method StartTest(withTimer: bool, name: string)
      requires Valid() && Trim(name) != ""
      modifies this
      ensures Valid()
      ensures testState == Started(withTimer, name) && timeTaken == 0
      ensures countdownSet == withTimer
    {
      timeTaken := 0;
      testState := Started(withTimer, name);
      countdownSet := withTimer;
    }

    /** `handleAnswer` (App.tsx:158-163). */
    method HandleAnswer(questionId: string, option: string)
      requires Valid()
      modifies this
      ensures Valid()
      ensures testState == Answered(old(testState), questionId, option)
      ensures timeTaken == old(timeTaken) && countdownSet == old(countdownSet)
    {
      testState := Answered(testState, questionId, option);
    }

    /**
     * One second of the countdown interval (App.tsx:145-153): nothing fires
     * when it is not set; a firing that finds zero or less clears it and
     * leaves the state; any other takes one second off. It does not submit.
     */
    method CountdownTick()
      requires Valid()
      modifies this
      ensures Valid()
      ensures Clock(testState, countdownSet) == Fire(old(Clock(testState, countdownSet)))
      ensures timeTaken == old(timeTaken)
    {
      if countdownSet {
        if testState.timeRemaining <= 0 {
          countdownSet := false;
        } else {
          testState := testState.(timeRemaining := testState.timeRemaining - 1);
        }
      }
    }

    /**
     * One second of the elapsed-time interval (App.tsx:662-679), which runs
     * while the test is active whether or not the countdown is enabled.
     */
    method ElapsedTick()
      requires Valid()
      modifies this
      ensures Valid()
      ensures testState == old(testState) && countdownSet == old(countdownSet)
      ensures timeTaken == if old(testState.status) == Active then old(timeTaken) + 1 else old(timeTaken)
    {
      if testState.status == Active {
        timeTaken := timeTaken + 1;
      }
    }

    /**
     * `extendTime` (App.tsx:165-172). It changes neither the status nor the
     * timer flag, so the countdown interval is neither set nor cleared.
     */
    method ExtendTime()
      requires Valid()
      modifies this
      ensures Valid()
      ensures testState == Extended(old(testState))
      ensures timeTaken == old(timeTaken) && countdownSet == old(countdownSet)
    {
      if testState.extensionsUsed >= MaxExtensions {
        return;
      }
      testState := testState.(timeRemaining := testState.timeRemaining + ExtensionSeconds,
                              extensionsUsed := testState.extensionsUsed + 1);
    }

    /**
     * `submitTest` (App.tsx:694-697), reachable only from the test screen,
     * that is, while the test is active.
     */
    method SubmitTest()
      requires Valid() && testState.status == Active
      modifies this
      ensures Valid()
      ensures testState == Submitted(old(testState))
      ensures timeTaken == old(timeTaken) && !countdownSet
    {
      testState := Submitted(testState);
      countdownSet := false;  // the effect's clean-up clears the interval
    }

    /**
     * `restartTest` (App.tsx:699-708): back to the initial intro state,
     * answers discarded. `timeTaken` is not reset here; only a new start
     * resets it.
     */
    method RestartTest()
      requires Valid()
      modifies this
      ensures Valid()
      ensures testState == InitialState()
      ensures timeTaken == old(timeTaken) && !countdownSet
    {
      testState := InitialState();
      countdownSet := false;
    }
  }
}
