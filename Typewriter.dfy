/** The typewriter header of the portfolio page: it types one phrase of a fixed
    table character by character, waits for a pause event, deletes it character
    by character, and moves on to the next phrase, forever.

    `Step` is the state machine written case by case; `TypewriterState.Tick`
    follows the component's own sequence of state updates and is proved to
    agree with `Step`. */
module Typewriter {

  /** The phrase table, in display order. */
  const Phrases: seq<string> := [
    "Je suis un développeur FullStack ",
    "Passionné par le développement web",
    "Spécialisé en React & NestJS"
  ]

  /** Delays (in milliseconds) before the next tick. */
  const TypingDelay: nat := 150
  const DeletingDelay: nat := 80
  const ResetDelay: nat := 100

  /** Delay of the one-shot pause event requested on a full phrase; the event
      itself is `Pause` / `TypewriterState.PauseElapsed`. */
  const PauseDelay: nat := 1500

  predicate IsPrefix(p: string, s: string) {
    |p| <= |s| && p == s[..|p|]
  }

  /** Distance between two integers. */
  function Dist(a: int, b: int): nat {
    if a <= b then b - a else a - b
  }

  /** `s[i..i + |r|]` is `r`: `r` is the piece of `s` starting at `i`. */
  predicate SliceAt(r: string, s: string, i: nat) {
    i + |r| <= |s| && r == s[i..i + |r|]
  }

  /** `n` clamped into `[0, len]`, as JavaScript clamps `substring` indices:
      the point of `[0, len]` nearest to `n`. */
  function Clamp(n: int, len: nat): (r: nat)
    ensures r <= len
    ensures forall k :: 0 <= k <= len ==> Dist(r, n) <= Dist(k, n)
  {
    if n < 0 then 0 else if n > len then len else n
  }

  /** JavaScript `String.prototype.substring(start, end)`: both indices are
      clamped to the string, and swapped when the first exceeds the second. */
  function Substring(s: string, start: int, end: int): (r: string)
    ensures |r| == Dist(Clamp(start, |s|), Clamp(end, |s|))
    ensures SliceAt(r, s, if Clamp(start, |s|) <= Clamp(end, |s|) then Clamp(start, |s|) else Clamp(end, |s|))
  {
    var a := Clamp(start, |s|);
    var b := Clamp(end, |s|);
    if a <= b then s[a..b] else s[b..a]
  }

  /** The order of the two indices does not matter. */
  lemma SubstringSwap(s: string, start: int, end: int)
    ensures Substring(s, start, end) == Substring(s, end, start)
  {
  }

  lemma SubstringFromZero(s: string, end: int)
    ensures Substring(s, 0, end) == s[..Clamp(end, |s|)]
    ensures IsPrefix(Substring(s, 0, end), s)
  {
  }

  /** The text shown after one tick: the phrase cut one character longer
      when typing, one character shorter when deleting. */
  function NextText(phrase: string, text: string, deleting: bool): (r: string)
    ensures IsPrefix(r, phrase)
    ensures |r| == Clamp(if deleting then |text| - 1 else |text| + 1, |phrase|)
  {
    SubstringFromZero(phrase, |text| - 1);
    SubstringFromZero(phrase, |text| + 1);
    if deleting then Substring(phrase, 0, |text| - 1) else Substring(phrase, 0, |text| + 1)
  }

  /** The phrase a given loop count selects. */
  function PhraseOf(loopNum: nat): (p: string)
    ensures p in Phrases && p != ""
  {
    Phrases[loopNum % |Phrases|]
  }

  /** The four state fields of the animation. */
  datatype Snapshot = Snapshot(text: string, isDeleting: bool, loopNum: nat, typingSpeed: nat)

  const Initial: Snapshot := Snapshot("", false, 0, TypingDelay)

  /** The invariant: the text is a prefix of the active phrase and the delay
      is one of the three the component uses. */
  predicate ValidState(s: Snapshot) {
    IsPrefix(s.text, PhraseOf(s.loopNum)) &&
    s.typingSpeed in {TypingDelay, DeletingDelay, ResetDelay}
  }

  /** One tick as a state machine: the new state, and whether the pause
      event is requested. */
  function Step(s: Snapshot): (r: (Snapshot, bool))
    requires ValidState(s)
    ensures ValidState(r.0)
  {
    var phrase := PhraseOf(s.loopNum);
    if !s.isDeleting && s.text == phrase then
      // Full phrase: the text stays (substring clamps) and the pause is requested.
      (s.(typingSpeed := TypingDelay), true)
    else if !s.isDeleting then
      (s.(text := phrase[..|s.text| + 1], typingSpeed := TypingDelay), false)
    else if s.text != "" then
      (s.(text := s.text[..|s.text| - 1], typingSpeed := DeletingDelay), false)
    else
      // Wrap to the next phrase.
      (Snapshot("", false, s.loopNum + 1, ResetDelay), false)
  }

  /** The delayed event requested on a full phrase. */
  function Pause(s: Snapshot): (r: Snapshot)
    ensures ValidState(s) ==> ValidState(r)
    ensures r.isDeleting
    ensures r.text == s.text && r.loopNum == s.loopNum && r.typingSpeed == s.typingSpeed
  {
    s.(isDeleting := true)
  }

  /** `n` ticks in a row, with no pause event in between. */
  function Run(s: Snapshot, n: nat): (r: Snapshot)
    requires ValidState(s)
    ensures ValidState(r)
    decreases n
  {
    if n == 0 then s else Run(Step(s).0, n - 1)
  }

  /** The events that drive the animation. */
  datatype Event = TickEvent | PauseEvent

  /** The state after a history of events. */
  function Replay(s: Snapshot, events: seq<Event>): (r: Snapshot)
    requires ValidState(s)
    ensures ValidState(r)
    ensures r.loopNum >= s.loopNum
    decreases |events|
  {
    if events == [] then s
    else
      var next := match events[0]
        case TickEvent => Step(s).0
        case PauseEvent => Pause(s);
      assert next.loopNum >= s.loopNum by { StepLoopNum(s); }
      Replay(next, events[1..])
  }

  lemma InitialValid()
    ensures ValidState(Initial)
  {
  }

  // ---- One tick, case by case ----

  /** Typing: the text grows by exactly one character of the phrase. */
  lemma StepTypes(s: Snapshot)
    requires ValidState(s) && !s.isDeleting && |s.text| < |PhraseOf(s.loopNum)|
    ensures var r := Step(s);
      r.0.text == PhraseOf(s.loopNum)[..|s.text| + 1] && |r.0.text| == |s.text| + 1 &&
      IsPrefix(s.text, r.0.text) &&
      !r.0.isDeleting && r.0.loopNum == s.loopNum && r.0.typingSpeed == TypingDelay && !r.1
  {
  }

  /** Deleting: exactly the last character is removed. */
  lemma StepDeletes(s: Snapshot)
    requires ValidState(s) && s.isDeleting && s.text != ""
    ensures var r := Step(s);
      r.0.text + [s.text[|s.text| - 1]] == s.text &&
      r.0.isDeleting && r.0.loopNum == s.loopNum && r.0.typingSpeed == DeletingDelay && !r.1
  {
  }

  /** A full phrase: nothing but the delay changes, and the pause is
      requested; only the pause event starts the deletion. */
  lemma StepAtFull(s: Snapshot)
    requires ValidState(s) && !s.isDeleting && s.text == PhraseOf(s.loopNum)
    ensures var r := Step(s);
      r.0.text == s.text && !r.0.isDeleting && r.0.loopNum == s.loopNum &&
      r.0.typingSpeed == TypingDelay && r.1
  {
  }

  /** Wrap-around: the next phrase in the table, from the empty text. */
  lemma StepWraps(s: Snapshot)
    requires ValidState(s) && s.isDeleting && s.text == ""
    ensures var r := Step(s);
      r.0 == Snapshot("", false, s.loopNum + 1, ResetDelay) && !r.1 &&
      r.0.loopNum % |Phrases| == (s.loopNum % |Phrases| + 1) % |Phrases|
  {
  }

  /** The pause is requested exactly on a full phrase while typing. */
  lemma StepPause(s: Snapshot)
    requires ValidState(s)
    ensures Step(s).1 <==> !s.isDeleting && s.text == PhraseOf(s.loopNum)
  {
  }

  /** `loopNum` changes only on a wrap, and then by exactly one. */
  lemma StepLoopNum(s: Snapshot)
    requires ValidState(s)
    ensures Step(s).0.loopNum == if s.isDeleting && s.text == "" then s.loopNum + 1 else s.loopNum
    ensures Step(s).0.loopNum >= s.loopNum
  {
  }

  /** A tick never starts a deletion; it ends one only on a wrap. */
  lemma StepDeletingFlag(s: Snapshot)
    requires ValidState(s)
    ensures Step(s).0.isDeleting <==> s.isDeleting && s.text != ""
  {
  }

  /** The delay after a tick: 80 deleting, 100 on a wrap, 150 typing. */
  lemma StepSpeed(s: Snapshot)
    requires ValidState(s)
    ensures Step(s).0.typingSpeed ==
      if !s.isDeleting then TypingDelay
      else if s.text != "" then DeletingDelay
      else ResetDelay
  {
  }

  // ---- Several ticks ----

  /** Typing reaches the full phrase after `|phrase| - |text|` ticks, with no
      pause requested before it gets there. */
  lemma {:induction false} TypingReachesFull(s: Snapshot)
    requires ValidState(s) && !s.isDeleting
    ensures var r := Run(s, |PhraseOf(s.loopNum)| - |s.text|);
      r.text == PhraseOf(s.loopNum) && !r.isDeleting && r.loopNum == s.loopNum &&
      (|s.text| < |PhraseOf(s.loopNum)| ==> r.typingSpeed == TypingDelay)
    ensures forall k :: 0 <= k < |PhraseOf(s.loopNum)| - |s.text| ==> !Step(Run(s, k)).1
    decreases |PhraseOf(s.loopNum)| - |s.text|
  {
    var p := PhraseOf(s.loopNum);
    if |s.text| < |p| {
      var t := Step(s).0;
      assert t.text == p[..|s.text| + 1] && !t.isDeleting && t.loopNum == s.loopNum;
      TypingReachesFull(t);
      forall k | 0 <= k < |p| - |s.text|
        ensures !Step(Run(s, k)).1
      {
        if k > 0 {
          assert Run(s, k) == Run(t, k - 1);
        }
      }
    }
  }

  /** Deleting reaches the empty text after `|text|` ticks, still in the
      deleting phase of the same phrase. */
  lemma {:induction false} DeletingReachesEmpty(s: Snapshot)
    requires ValidState(s) && s.isDeleting
    ensures var r := Run(s, |s.text|);
      r.text == "" && r.isDeleting && r.loopNum == s.loopNum
    decreases |s.text|
  {
    if s.text != "" {
      var t := Step(s).0;
      assert |t.text| == |s.text| - 1;
      DeletingReachesEmpty(t);
    }
  }

  /** One full cycle: from the empty text of phrase `k`, typing shows the
      whole phrase, the next tick finds it full, keeps the state and requests
      the pause, the pause event starts the deletion, deleting empties the
      text, and the next tick moves to phrase `k + 1`, so no phrase is
      skipped. */
  lemma {:induction false} FullCycle(s: Snapshot)
    requires ValidState(s) && s.text == "" && !s.isDeleting
    ensures var p := PhraseOf(s.loopNum);
      var full := Run(s, |p|);
      var emptied := Run(Pause(full), |p|);
      full.text == p &&
      Step(full).1 && Step(full).0 == full &&
      emptied.text == "" && emptied.isDeleting &&
      Step(emptied).0 == Snapshot("", false, s.loopNum + 1, ResetDelay)
  {
    var p := PhraseOf(s.loopNum);
    TypingReachesFull(s);
    var full := Run(s, |p|);
    DeletingReachesEmpty(Pause(full));
  }

  /** From the initial state, any history of events keeps the invariant. */
  lemma ReachableValid(events: seq<Event>)
    ensures ValidState(Replay(Initial, events))
  {
  }

  /** `loopNum` never decreases along any continuation of a history. */
  lemma {:induction false} LoopNumMonotone(s: Snapshot, events: seq<Event>, more: seq<Event>)
    requires ValidState(s)
    ensures Replay(s, events + more) == Replay(Replay(s, events), more)
    ensures Replay(s, events + more).loopNum >= Replay(s, events).loopNum
    decreases |events|
  {
    if events == [] {
      assert events + more == more;
    } else {
      assert (events + more)[0] == events[0];
      assert (events + more)[1..] == events[1..] + more;
      var next := match events[0]
        case TickEvent => Step(s).0
        case PauseEvent => Pause(s);
      LoopNumMonotone(next, events[1..], more);
    }
  }

  /** The component's four state fields, updated in place. */
  class TypewriterState {
    var text: string
    var isDeleting: bool
    var loopNum: nat
    var typingSpeed: nat

    function State(): (s: Snapshot)
      reads this
    {
      Snapshot(text, isDeleting, loopNum, typingSpeed)
    }

    ghost predicate Valid()
      reads this
    {
      ValidState(State())
    }

    constructor ()
      ensures Valid()
      ensures State() == Initial
    {
      text, isDeleting, loopNum, typingSpeed := "", false, 0, TypingDelay;
    }

    /** One timer tick: the net effect of the component's typing handler.
        The handler reads the values of the fields from before the tick. */
    method Tick() returns (pauseRequested: bool)
      requires Valid()
      modifies this
      ensures Valid()
      ensures State() == Step(old(State())).0
      ensures pauseRequested == Step(old(State())).1
    {
      var fullText := Phrases[loopNum % |Phrases|];
      var oldText := text;
      text := NextText(fullText, text, isDeleting);
      typingSpeed := if isDeleting then DeletingDelay else TypingDelay;
      pauseRequested := false;
      if !isDeleting && oldText == fullText {
        pauseRequested := true;
      } else if isDeleting && oldText == "" {
        isDeleting := false;
        loopNum := loopNum + 1;
        typingSpeed := ResetDelay;
      }
      assert !old(isDeleting) && oldText != fullText ==> |oldText| < |fullText|;
    }

    /** The delayed pause event: deletion starts. */
    method PauseElapsed()
      requires Valid()
      modifies this
      ensures Valid()
      ensures State() == Pause(old(State()))
    {
      isDeleting := true;
    }
  }
}
