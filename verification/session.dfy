/** A browsing session: the sequence of user actions the page handles one
    at a time, starting from its initial state, and the facts that hold of
    every state a session can reach. */
module Session {
  import opened Content
  import opened Selector

  /** One user action; the roast and headline clicks carry the indices the
      page's random draws would produce. */
  datatype Event =
    | ClickSwitch
    | EditResume(text: string)
    | ClickRoast(intro: nat, line: nat, glyph: nat)
    | ClickHeadline(pick: nat)

  /** The random indices of `e` are in range for the pools of state `s`. */
  predicate Admissible(s: State, e: Event)
  {
    match e
    case ClickRoast(i, j, k) =>
      (s.mode.Fun? ==> i < |RoastIntros| && k < |FunTags|) && j < |RoastPool(s.mode)|
    case ClickHeadline(i) => i < |HeadlinePool(s.mode)|
    case _ => true
  }

  function Step(s: State, e: Event): (r: State)
    requires Admissible(s, e)
    ensures e.ClickSwitch? ==> r.mode != s.mode
    ensures !e.ClickSwitch? ==> r.mode == s.mode
    ensures !e.EditResume? ==> r.resumeText == s.resumeText
    ensures !e.ClickRoast? ==> r.roast == s.roast
    ensures !e.ClickHeadline? ==> r.headline == s.headline
    ensures e.EditResume? ==> r.resumeText == e.text
    ensures e.ClickRoast? ==> r.roast.Some? && IsRoastOf(s.mode, r.roast.value)
    ensures e.ClickHeadline? ==> r.headline.Some? && r.headline.value in HeadlinePool(s.mode)
  {
    match e
    case ClickSwitch => Toggle(s)
    case EditResume(text) => SetResumeText(s, text)
    case ClickRoast(i, j, k) => GenerateRoast(s, i, j, k)
    case ClickHeadline(i) => GenerateHeadline(s, i)
  }

  /** Every action of `evs` is admissible in the state it is applied to. */
  predicate AdmissibleRun(s: State, evs: seq<Event>)
    decreases |evs|
  {
    |evs| == 0 || (Admissible(s, evs[0]) && AdmissibleRun(Step(s, evs[0]), evs[1..]))
  }

  /** The state after handling the actions of `evs` in order. */
  function Run(s: State, evs: seq<Event>): State
    requires AdmissibleRun(s, evs)
    decreases |evs|
  {
    if |evs| == 0 then s else Run(Step(s, evs[0]), evs[1..])
  }

  /** Every shown roast is a roast of one mode, and every shown headline
      belongs to one mode's pool. */
  predicate Consistent(s: State)
  {
    && (s.roast.Some? ==> DecodeRoast(s.roast.value).Some?)
    && (s.headline.Some? ==> HeadlineModeOf(s.headline.value).Some?)
  }

  /** The switch was clicked an odd number of times in `evs`. */
  predicate OddClicks(evs: seq<Event>)
  {
    |evs| > 0 && (evs[0].ClickSwitch? != OddClicks(evs[1..]))
  }

  /** The text of the last edit in `evs`, or `current` when there is none. */
  function LastEdit(evs: seq<Event>, current: string): string
  {
    if |evs| == 0 then current
    else LastEdit(evs[1..], if evs[0].EditResume? then evs[0].text else current)
  }

  lemma {:induction false} RunKeepsConsistent(s: State, evs: seq<Event>)
    requires Consistent(s) && AdmissibleRun(s, evs)
    ensures Consistent(Run(s, evs))
    decreases |evs|
  {
    if |evs| > 0 {
      RunKeepsConsistent(Step(s, evs[0]), evs[1..]);
    }
  }

  /** Every state a session can reach from the initial one is consistent:
      the shown texts never mix the two modes' fragments. */
  lemma ReachableConsistent(evs: seq<Event>)
    requires AdmissibleRun(Init(), evs)
    ensures Consistent(Run(Init(), evs))
  {
    RunKeepsConsistent(Init(), evs);
  }

  /** The mode after a run is flipped exactly when the switch was clicked an
      odd number of times. */
  lemma {:induction false} RunMode(s: State, evs: seq<Event>)
    requires AdmissibleRun(s, evs)
    ensures Run(s, evs).mode == if OddClicks(evs) then Flip(s.mode) else s.mode
    decreases |evs|
  {
    if |evs| > 0 {
      RunMode(Step(s, evs[0]), evs[1..]);
    }
  }

  /** The résumé box holds exactly the last text typed into it. */
  lemma {:induction false} RunResumeText(s: State, evs: seq<Event>)
    requires AdmissibleRun(s, evs)
    ensures Run(s, evs).resumeText == LastEdit(evs, s.resumeText)
    decreases |evs|
  {
    if |evs| > 0 {
      RunResumeText(Step(s, evs[0]), evs[1..]);
    }
  }

  /** Without a click on the roast or headline button the shown roast and
      headline stay as they were, whatever the switch does: texts generated
      in the other mode are not re-derived. */
  lemma {:induction false} RunKeepsGenerated(s: State, evs: seq<Event>)
    requires AdmissibleRun(s, evs)
    ensures (forall n :: 0 <= n < |evs| ==> !evs[n].ClickRoast?) ==> Run(s, evs).roast == s.roast
    ensures (forall n :: 0 <= n < |evs| ==> !evs[n].ClickHeadline?) ==> Run(s, evs).headline == s.headline
    decreases |evs|
  {
    if |evs| > 0 {
      RunKeepsGenerated(Step(s, evs[0]), evs[1..]);
      assert forall n :: 0 < n < |evs| ==> evs[1..][n - 1] == evs[n];
    }
  }
}
