/** Dialling several addresses at once: the race. */
module Dial {
  import opened Common
  import opened DialOrder

  datatype Outcome = Connected(stream: nat) | Refused(error: nat) | Panicked

  /** What the loop waits for: a running dial ends, or the delay runs out.  Dials go by the
      order in which they started. */
  datatype Event = Finish(dial: nat, outcome: Outcome) | Tick

  /** The dials so far, each with its outcome once it has ended. */
  type Dials = seq<Option<Outcome>>

  datatype Verdict = Waiting | Won(stream: nat) | Lost(last: Option<Outcome>)

  const MAX_DIALS: nat := 4

  /** The first four addresses, in the order they are tried. */
  function Contenders(addrs: seq<Addr>): (r: seq<Addr>)
    ensures |r| <= MAX_DIALS
  {
    Interleaved(addrs)[..Min(MAX_DIALS, |Interleaved(addrs)|)]
  }

  function Running(dials: Dials): (n: nat)
    ensures n <= |dials|
    ensures n == 0 <==> forall i :: 0 <= i < |dials| ==> dials[i].Some?
  {
    if dials == [] then 0
    else Running(dials[..|dials| - 1]) + if dials[|dials| - 1].None? then 1 else 0
  }

  lemma {:induction false} OneEnds(dials: Dials, i: nat, outcome: Outcome)
    requires i < |dials| && dials[i].None?
    ensures Running(dials[i := Some(outcome)]) == Running(dials) - 1
  {
    var n, after := |dials| - 1, dials[i := Some(outcome)];
    if i < n {
      OneEnds(dials[..n], i, outcome);
      assert after[..n] == dials[..n][i := Some(outcome)];
    } else {
      assert after[..n] == dials[..n];
    }
  }

  lemma OneStarts(dials: Dials)
    ensures Running(dials + [None]) == Running(dials) + 1
  {
    assert (dials + [None])[..|dials|] == dials;
  }

  /** Dials that have ended did so by an event, and none has succeeded. */
  ghost predicate NoneWon(dials: Dials, events: seq<Event>) {
    forall i :: 0 <= i < |dials| && dials[i].Some? ==> Finish(i, dials[i].value) in events && !dials[i].value.Connected?
  }

  // ----- the course of a race over `n` addresses

  predicate Over(dials: Dials) {
    exists i :: 0 <= i < |dials| && dials[i].Some? && dials[i].value.Connected?
  }

  /** One more dial, if there is an address left. */
  function OneMore(n: nat, dials: Dials): Dials {
    if |dials| < n then dials + [None] else dials
  }

  /** With nobody dialled the next address is, unless the race is over. */
  function Kept(n: nat, dials: Dials): Dials {
    if Running(dials) == 0 && !Over(dials) then OneMore(n, dials) else dials
  }

  predicate IsRunning(dials: Dials, i: nat) {
    i < |dials| && dials[i].None?
  }

  /** A delay that runs out starts a dial, and so does a refusal; a panic and the success that
      ends the race do not.  Only running dials end. */
  function Met(n: nat, dials: Dials, e: Event): Dials {
    match e
    case Tick => OneMore(n, dials)
    case Finish(i, outcome) =>
      if !IsRunning(dials, i) then dials
      else if outcome.Refused? then OneMore(n, dials[i := Some(outcome)])
      else dials[i := Some(outcome)]
  }

  function Next(n: nat, dials: Dials, e: Event): Dials {
    Kept(n, Met(n, dials, e))
  }

  /** The dial for the first address. */
  function Start(n: nat): Dials {
    if n == 0 then [] else [None]
  }

  lemma StartIsKept(n: nat)
    ensures Start(n) == Kept(n, []) && Busy(n, Start(n))
  {
    OneStarts([]);
  }

  /** The dials once all these events have happened; after the race nothing does. */
  function Course(n: nat, dials: Dials, events: seq<Event>): Dials
    decreases |events|
  {
    if events == [] || Over(dials) then dials else Course(n, Next(n, dials, events[0]), events[1..])
  }

  /** The last running dial panics, and the loop has to begin again. */
  predicate LeavesNobody(dials: Dials, e: Event) {
    e.Finish? && e.outcome.Panicked? && IsRunning(dials, e.dial) && Running(dials) == 1
  }

  /** The event is a reason to dial the next address. */
  predicate IsReason(dials: Dials, e: Event) {
    e.Tick? || (e.outcome.Refused? && IsRunning(dials, e.dial)) || LeavesNobody(dials, e)
  }

  /** How many reasons there were to dial another address, until the race was over. */
  function Reasons(n: nat, dials: Dials, events: seq<Event>): nat
    decreases |events|
  {
    if events == [] || Over(dials) then 0
    else (if IsReason(dials, events[0]) then 1 else 0) + Reasons(n, Next(n, dials, events[0]), events[1..])
  }

  /** Somebody is dialled, or there is nobody left to dial, or the race is won. */
  ghost predicate Busy(n: nat, dials: Dials) {
    |dials| <= n && (Over(dials) || Running(dials) > 0 || |dials| == n)
  }

  lemma EndIsOver(dials: Dials, i: nat, outcome: Outcome)
    requires !Over(dials) && i < |dials|
    ensures Over(dials[i := Some(outcome)]) <==> outcome.Connected?
  {
    assert dials[i := Some(outcome)][i] == Some(outcome);
  }

  lemma KeptTwice(n: nat, dials: Dials)
    ensures Kept(n, Kept(n, dials)) == Kept(n, dials) && |dials| <= |Kept(n, dials)|
  {
    OneStarts(dials);
  }

  lemma KeptCounts(n: nat, dials: Dials)
    requires |dials| <= n
    ensures Busy(n, Kept(n, dials))
    ensures |Kept(n, dials)| == |dials| + if Running(dials) == 0 && !Over(dials) && |dials| < n then 1 else 0
  {
    OneStarts(dials);
  }

  lemma MetCounts(n: nat, dials: Dials, e: Event)
    requires Busy(n, dials) && !Over(dials)
    ensures
      var after := Met(n, dials, e);
      && |dials| <= |after| <= n
      && (if Running(after) == 0 && !Over(after) && |after| < n then |after| == |dials| && LeavesNobody(dials, e)
          else |after| == Min(n, |dials| + if IsReason(dials, e) then 1 else 0))
  {
    if e.Tick? {
      OneStarts(dials);
    } else if IsRunning(dials, e.dial) {
      var ended := dials[e.dial := Some(e.outcome)];
      OneEnds(dials, e.dial, e.outcome);
      EndIsOver(dials, e.dial, e.outcome);
      OneStarts(ended);
    }
  }

  /** An event leads to one more dial exactly if it is a reason for one, and there is an address
      left. */
  lemma NextCounts(n: nat, dials: Dials, e: Event)
    requires Busy(n, dials) && !Over(dials)
    ensures Grown(n, dials, Next(n, dials, e), if IsReason(dials, e) then 1 else 0)
    ensures Busy(n, Next(n, dials, e))
  {
    MetCounts(n, dials, e);
    KeptCounts(n, Met(n, dials, e));
  }

  /** There are exactly as many dials as there were reasons for one, up to the number of
      addresses. */
  lemma {:induction false} ExactlyPrompt(n: nat, dials: Dials, events: seq<Event>)
    requires Busy(n, dials)
    ensures Grown(n, dials, Course(n, dials, events), Reasons(n, dials, events))
    decreases |events|
  {
    if events != [] && !Over(dials) {
      var next := Next(n, dials, events[0]);
      NextCounts(n, dials, events[0]);
      ExactlyPrompt(n, next, events[1..]);
      GrownOn(n, dials, next, Course(n, next, events[1..]),
        if IsReason(dials, events[0]) then 1 else 0, Reasons(n, next, events[1..]));
    }
  }

  /** From one list of dials to another by so many, up to the number of addresses. */
  ghost predicate Grown(n: nat, before: Dials, after: Dials, more: nat) {
    |before| <= n && |after| == Min(n, |before| + more)
  }

  lemma GrownOn(n: nat, a: Dials, b: Dials, c: Dials, more: nat, evenMore: nat)
    requires Grown(n, a, b, more) && Grown(n, b, c, evenMore)
    ensures Grown(n, a, c, more + evenMore)
  {}

  /** Once all addresses were tried and nobody is dialled, nothing changes. */
  lemma {:induction false} CourseStays(n: nat, dials: Dials, events: seq<Event>)
    requires |dials| == n && Running(dials) == 0
    ensures Course(n, dials, events) == dials
  {
    if events != [] && !Over(dials) {
      assert Next(n, dials, events[0]) == dials;
      CourseStays(n, dials, events[1..]);
    }
  }

  // ----- the course, told step by step

  /** What one event does.  A delay starts a dial, if there is an address left; so does a refusal.
      A success starts none, and a panic only if it leaves nobody dialled. */
  ghost predicate Stepped(n: nat, before: Dials, after: Dials, e: Event) {
    match e
    case Tick => after == before + Another(n, before)
    case Finish(i, outcome) =>
      if i >= |before| || before[i].Some? then after == before
      else
        var ended := before[i := Some(outcome)];
        match outcome
        case Connected(_) => after == ended
        case Refused(_) => after == ended + Another(n, before)
        case Panicked => after == if None in ended then ended else ended + Another(n, before)
  }

  function Another(n: nat, dials: Dials): Dials {
    if |dials| < n then [None] else []
  }

  ghost predicate Succeeded(dials: Dials) {
    exists stream :: Some(Connected(stream)) in dials
  }

  /** The dials before the first event and after each of those that matter. */
  ghost predicate Walked(n: nat, states: seq<Dials>, events: seq<Event>) {
    && 0 < |states| <= |events| + 1 && states[0] == Another(n, [])
    && forall k :: 0 <= k < |states| - 1 ==> OneStep(n, states[k], states[k + 1], events[k])
  }

  ghost predicate OneStep(n: nat, before: Dials, after: Dials, e: Event) {
    !Succeeded(before) && Stepped(n, before, after, e)
  }

  /** Event `k` ended a dial without success. */
  ghost predicate Failed(states: seq<Dials>, events: seq<Event>, k: nat) {
    && k + 1 < |states| <= |events| + 1
    && events[k].Finish? && events[k].dial < |states[k]| && states[k][events[k].dial] == None
    && !events[k].outcome.Connected?
  }

  /** The failure that came last. */
  ghost predicate LastIs(states: seq<Dials>, events: seq<Event>, last: Option<Outcome>) {
    && (last.None? ==> forall k: nat :: !Failed(states, events, k))
    && (last.Some? ==> exists k: nat :: LastFailed(states, events, k, last.value))
  }

  ghost predicate LastFailed(states: seq<Dials>, events: seq<Event>, k: nat, outcome: Outcome) {
    Failed(states, events, k) && events[k].outcome == outcome && forall j: nat :: j > k ==> !Failed(states, events, j)
  }

  lemma RunningIsNone(dials: Dials)
    ensures Running(dials) == 0 <==> None !in dials
    ensures Over(dials) <==> Succeeded(dials)
  {}

  lemma NextIsStep(n: nat, dials: Dials, e: Event)
    requires Busy(n, dials) && !Over(dials)
    ensures Stepped(n, dials, Next(n, dials, e), e) && !Succeeded(dials)
  {
    RunningIsNone(dials);
    var met := Met(n, dials, e);
    RunningIsNone(met);
    if e.Tick? {
      OneStarts(dials);
    } else if IsRunning(dials, e.dial) {
      var ended := dials[e.dial := Some(e.outcome)];
      EndIsOver(dials, e.dial, e.outcome);
      OneStarts(ended);
      RunningIsNone(ended);
    }
  }

  lemma WalkOn(n: nat, states: seq<Dials>, events: seq<Event>, k: nat, next: Dials)
    requires Walked(n, states, events) && |states| == k + 1 && k < |events| && OneStep(n, states[k], next, events[k])
    ensures Walked(n, states + [next], events)
  {
    var all := states + [next];
    forall j | 0 <= j < |all| - 1
      ensures OneStep(n, all[j], all[j + 1], events[j])
    {
      if j < k {
        assert OneStep(n, states[j], states[j + 1], events[j]);
      }
    }
  }

  lemma FailedStays(states: seq<Dials>, events: seq<Event>, next: Dials, j: nat)
    requires |states| <= |events| && j + 1 < |states|
    ensures Failed(states + [next], events, j) <==> Failed(states, events, j)
  {}

  /** One more event: `last` is its outcome if it ended a dial without success. */
  lemma LastOn(states: seq<Dials>, events: seq<Event>, k: nat, next: Dials, last: Option<Outcome>, now: Option<Outcome>)
    requires |states| == k + 1 && k < |events| && LastIs(states, events, last)
    requires now == if Failed(states + [next], events, k) then Some(events[k].outcome) else last
    ensures LastIs(states + [next], events, now)
  {
    var all := states + [next];
    forall j: nat | j < k
      ensures Failed(all, events, j) <==> Failed(states, events, j)
    {
      FailedStays(states, events, next, j);
    }
    assert forall j: nat :: j > k ==> !Failed(all, events, j);
    assert forall j: nat :: j >= k ==> !Failed(states, events, j);
    if Failed(all, events, k) {
      assert LastFailed(all, events, k, events[k].outcome);
    } else if last.Some? {
      var j: nat :| LastFailed(states, events, j, last.value);
      assert j < k;
      assert LastFailed(all, events, j, last.value);
    }
  }

  /** The states up to event `k`. */
  ghost predicate Recorded(n: nat, states: seq<Dials>, events: seq<Event>, k: nat, last: Option<Outcome>) {
    && |states| == k + 1 && Walked(n, states, events) && LastIs(states, events, last) && Busy(n, states[k])
  }

  /** One more state. */
  lemma StepRecorded(n: nat, states: seq<Dials>, events: seq<Event>, k: nat, last: Option<Outcome>)
    requires Recorded(n, states, events, k, last) && k < |events| && !Over(states[k])
    ensures Recorded(n, states + [Next(n, states[k], events[k])], events, k + 1,
      LastAfter(states[k], events[k], last))
  {
    var e := events[k];
    var next := Next(n, states[k], e);
    NextIsStep(n, states[k], e);
    NextCounts(n, states[k], e);
    WalkOn(n, states, events, k, next);
    LastOn(states, events, k, next, last, LastAfter(states[k], e, last));
  }

  /** States that lead to such an end: with a success, or with the events. */
  ghost predicate Traced(n: nat, states: seq<Dials>, events: seq<Event>, end: (Dials, Option<Outcome>)) {
    && Walked(n, states, events) && states[|states| - 1] == end.0 && LastIs(states, events, end.1)
    && (|states| == |events| + 1 || Succeeded(end.0))
  }

  /** The dials and the error a course ends with. */
  ghost function Outlook(n: nat, dials: Dials, events: seq<Event>, last: Option<Outcome>): (Dials, Option<Outcome>) {
    (Course(n, dials, events), CourseLast(n, dials, events, last))
  }

  lemma OutlookStep(n: nat, dials: Dials, events: seq<Event>, k: nat, last: Option<Outcome>)
    requires k < |events| && !Over(dials)
    ensures Outlook(n, dials, events[k..], last)
      == Outlook(n, Next(n, dials, events[k]), events[k + 1..], LastAfter(dials, events[k], last))
  {
    assert events[k..][0] == events[k] && events[k..][1..] == events[k + 1..];
  }

  lemma OutlookEnds(n: nat, states: seq<Dials>, events: seq<Event>, k: nat, last: Option<Outcome>)
    requires Recorded(n, states, events, k, last) && (k == |events| || Over(states[k]))
    ensures Traced(n, states, events, Outlook(n, states[k], events[k..], last))
  {
    RunningIsNone(states[k]);
    assert k == |events| ==> events[k..] == [];
  }

  /** The states of a course. */
  lemma {:induction false} CourseWalks(n: nat, states: seq<Dials>, events: seq<Event>, k: nat, last: Option<Outcome>)
    returns (all: seq<Dials>)
    requires Recorded(n, states, events, k, last)
    ensures Traced(n, all, events, Outlook(n, states[k], events[k..], last))
    decreases |events| - k
  {
    all := states;
    if k == |events| || Over(states[k]) {
      OutlookEnds(n, states, events, k, last);
    } else {
      StepRecorded(n, states, events, k, last);
      OutlookStep(n, states[k], events, k, last);
      var next, now := Next(n, states[k], events[k]), LastAfter(states[k], events[k], last);
      all := CourseWalks(n, states + [next], events, k + 1, now);
    }
  }

  /** The error a course ends with. */
  function CourseLast(n: nat, dials: Dials, events: seq<Event>, last: Option<Outcome>): Option<Outcome>
    decreases |events|
  {
    if events == [] || Over(dials) then last
    else CourseLast(n, Next(n, dials, events[0]), events[1..], LastAfter(dials, events[0], last))
  }

  function LastAfter(dials: Dials, e: Event, last: Option<Outcome>): Option<Outcome> {
    if e.Finish? && IsRunning(dials, e.dial) && !e.outcome.Connected? then Some(e.outcome) else last
  }

  lemma {:induction false} CourseLastStays(n: nat, dials: Dials, events: seq<Event>, last: Option<Outcome>)
    requires |dials| == n && Running(dials) == 0
    ensures CourseLast(n, dials, events, last) == last
    decreases |events|
  {
    if events != [] && !Over(dials) {
      assert Next(n, dials, events[0]) == dials;
      CourseLastStays(n, dials, events[1..], last);
    }
  }

  // ----- the loop

  lemma OneMoreEvent(dials: Dials, events: seq<Event>, e: Event)
    requires NoneWon(dials, events)
    ensures NoneWon(dials, events + [e])
  {}

  lemma OneFails(dials: Dials, events: seq<Event>, i: nat, outcome: Outcome)
    requires NoneWon(dials, events) && i < |dials| && Finish(i, outcome) in events && !outcome.Connected?
    ensures NoneWon(dials[i := Some(outcome)], events)
  {}

  lemma NoneWonNotOver(dials: Dials, events: seq<Event>)
    requires NoneWon(dials, events)
    ensures !Over(dials)
  {}

  /** The dial succeeded, and none before it. */
  ghost predicate WonBy(dials: Dials, events: seq<Event>, i: nat, stream: nat)
    requires i < |dials|
  {
    dials[i] == Some(Connected(stream)) && Finish(i, Connected(stream)) in events && NoneWon(dials[i := None], events)
  }

  /** The race under way. */
  class Contest {
    const queue: seq<Addr>
    var dials: Dials
    var attempts: nat
    var last: Option<Outcome>
    ghost var lastDial: nat
    ghost var events: seq<Event>

    ghost predicate Valid()
      reads this
    {
      && |dials| <= |queue| && attempts == Running(dials) && NoneWon(dials, events)
      && (last.Some? ==> lastDial < |dials| && dials[lastDial] == last)
      && (attempts < |dials| ==> last.Some?)
    }

    constructor (queue: seq<Addr>)
      ensures Valid() && this.queue == queue && dials == [] && events == [] && last == None
    {
      this.queue := queue;
      dials, attempts, last, lastDial, events := [], 0, None, 0, [];
    }

    /** The next address is dialled, if there is one. */
    method StartNext()
      requires Valid()
      modifies this`dials, this`attempts
      ensures Valid() && dials == OneMore(|queue|, old(dials))
      ensures |old(dials)| < |queue| ==> attempts > 0
    {
      if |dials| < |queue| {
        OneStarts(dials);
        dials, attempts := dials + [None], attempts + 1;
      }
    }

    /** The delay runs out: the next address is dialled, if there is one. */
    method OnTick()
      requires Valid()
      modifies this`dials, this`attempts, this`events
      ensures Valid() && dials == OneMore(|queue|, old(dials))
      ensures events == old(events) + [Tick]
    {
      OneMoreEvent(dials, events, Tick);
      events := events + [Tick];
      StartNext();
    }

    /** A running dial ends: the race is won, or it goes on; a refusal starts the next dial, a
        panic does not. */
    method OnFinish(i: nat, outcome: Outcome) returns (won: bool)
      requires Valid() && IsRunning(dials, i)
      modifies this
      ensures events == old(events) + [Finish(i, outcome)]
      ensures won == outcome.Connected?
      ensures dials == Met(|queue|, old(dials), Finish(i, outcome))
      ensures won ==> |dials| <= |queue| && NoneWon(old(dials), events) && last == old(last)
      ensures !won ==> Valid() && last == Some(outcome)
    {
      OneMoreEvent(dials, events, Finish(i, outcome));
      events := events + [Finish(i, outcome)];
      OneEnds(dials, i, outcome);
      won := outcome.Connected?;
      if !won {
        OneFails(dials, events, i, outcome);
        last, lastDial := Some(outcome), i;
      }
      dials, attempts := dials[i := Some(outcome)], attempts - 1;
      if outcome.Refused? {
        StartNext();
      }
    }

    /** The loop's beginning: with nobody dialled the next address is, or the race is lost. */
    method Restart() returns (lost: bool)
      requires Valid()
      modifies this`dials, this`attempts
      ensures Valid() && dials == Kept(|queue|, old(dials))
      ensures lost <==> Running(dials) == 0 && |dials| == |queue|
      ensures !lost ==> attempts > 0
    {
      NoneWonNotOver(dials, events);
      if attempts == 0 {
        if |dials| == |queue| {
          return true;
        }
        StartNext();
      }
      lost := false;
    }

    /** One round of the loop: `won` is the stream of the dial that succeeded.  That a dial
        ends which is not running cannot happen; such an event is passed over. */
    method OnEvent(event: Event) returns (won: Option<nat>)
      requires Valid()
      modifies this
      ensures events == old(events) + [event] && dials == Met(|queue|, old(dials), event)
      ensures last == LastAfter(old(dials), event, old(last))
      ensures won.None? ==> Valid()
      ensures won.Some? ==> |dials| <= |queue| && event.Finish? && event.dial < |dials|
      ensures won.Some? ==> WonBy(dials, events, event.dial, won.value)
    {
      won := None;
      match event
      case Tick =>
        OnTick();
      case Finish(i, outcome) =>
        if i < |dials| && dials[i].None? {
          ghost var before := dials;
          var over := OnFinish(i, outcome);
          if over {
            assert dials[i := None] == before;
            won := Some(outcome.stream);
          }
        } else {
          OneMoreEvent(dials, events, event);
          events := events + [event];
        }
    }

    /** The first `k` of all events have been met, and the end of the course is still ahead. */
    ghost predicate OnTrack(all: seq<Event>, k: nat, whole: (Dials, Option<Outcome>))
      reads this
    {
      && Valid() && (dials == [] ==> last.None?)
      && OnCourse(|queue|, Kept(|queue|, dials), last, all, k, events, whole)
    }

    ghost predicate Ends(all: seq<Event>, r: Verdict, whole: (Dials, Option<Outcome>))
      reads this
    {
      |dials| <= |queue| && Ended(queue, all, r, queue[..|dials|], dials, whole)
    }

    lemma LosesHere(all: seq<Event>, k: nat, whole: (Dials, Option<Outcome>))
      requires OnTrack(all, k, whole) && Kept(|queue|, dials) == dials && Running(dials) == 0 && |dials| == |queue|
      ensures Ends(all, Lost(last), whole)
    {
      OnCourseLost(queue, |queue|, dials, last, all, k, events, whole);
    }

    lemma WaitsHere(all: seq<Event>, whole: (Dials, Option<Outcome>))
      requires OnTrack(all, |all|, whole) && Kept(|queue|, dials) == dials && Running(dials) > 0
      ensures Ends(all, Waiting, whole)
    {
      OnCourseWaiting(queue, |queue|, dials, last, all, events, whole);
    }

    /** The beginning of a round, and whether it goes on. */
    method Begin(all: seq<Event>, k: nat, ghost whole: (Dials, Option<Outcome>)) returns (end: Option<Verdict>)
      requires OnTrack(all, k, whole)
      modifies this`dials, this`attempts
      ensures end.None? ==> OnTrack(all, k, whole) && k < |all| && Kept(|queue|, dials) == dials
      ensures end.Some? ==> Ends(all, end.value, whole)
    {
      KeptTwice(|queue|, dials);
      var lost := Restart();
      assert OnTrack(all, k, whole) && Kept(|queue|, dials) == dials;
      end := None;
      if lost {
        LosesHere(all, k, whole);
        end := Some(Lost(last));
      } else if k == |all| {
        WaitsHere(all, whole);
        end := Some(Waiting);
      }
    }

    /** The rest of it: one event. */
    method Meet(all: seq<Event>, k: nat, ghost whole: (Dials, Option<Outcome>)) returns (end: Option<Verdict>)
      requires OnTrack(all, k, whole) && k < |all| && Kept(|queue|, dials) == dials
      modifies this
      ensures end.None? ==> OnTrack(all, k + 1, whole)
      ensures end.Some? ==> Ends(all, end.value, whole)
    {
      OnCourseStep(|queue|, dials, last, all, k, events, whole);
      var won := OnEvent(all[k]);
      end := None;
      if won.Some? {
        OnCourseWon(queue, |queue|, dials, last, all, k + 1, events, whole, all[k].dial, won.value);
        end := Some(Won(won.value));
      }
    }
  }

  /** What the race comes to: dials start in order, each address at most once; only a dial
      that started and succeeded wins; the race is lost only after all the addresses were
      dialled and failed; and as long as it goes on, somebody is dialled. */
  ghost predicate Fair(queue: seq<Addr>, events: seq<Event>, r: Verdict, started: seq<Addr>, dials: Dials) {
    && |dials| == |started| && started <= queue
    && match r
       case Won(stream) =>
         exists i :: 0 <= i < |dials| && WonBy(dials, events, i, stream)
       case Lost(last) =>
         && NoneWon(dials, events) && started == queue && Running(dials) == 0
         && if dials == [] then last.None? else last.Some? && last in dials
       case Waiting =>
         NoneWon(dials, events) && Running(dials) > 0
  }

  lemma NoneWonWider(dials: Dials, some: seq<Event>, events: seq<Event>)
    requires NoneWon(dials, some) && some <= events
    ensures NoneWon(dials, events)
  {}

  lemma WonByWider(dials: Dials, some: seq<Event>, events: seq<Event>, i: nat, stream: nat)
    requires i < |dials| && WonBy(dials, some, i, stream) && some <= events
    ensures WonBy(dials, events, i, stream)
  {
    NoneWonWider(dials[i := None], some, events);
  }

  /** After the first `k` events these are the dials and the error, and the rest of the course is
      still to come. */
  ghost predicate OnCourse(n: nat, dials: Dials, last: Option<Outcome>, events: seq<Event>, k: nat, seen: seq<Event>,
      whole: (Dials, Option<Outcome>))
  {
    k <= |events| && seen == events[..k] && Outlook(n, dials, events[k..], last) == whole
  }

  lemma OnCourseFirst(n: nat, events: seq<Event>)
    ensures OnCourse(n, Kept(n, []), None, events, 0, [], Outlook(n, Start(n), events, None))
  {
    StartIsKept(n);
    assert events[0..] == events;
  }

  lemma OnCourseStep(n: nat, dials: Dials, last: Option<Outcome>, events: seq<Event>, k: nat, seen: seq<Event>,
      whole: (Dials, Option<Outcome>))
    requires OnCourse(n, dials, last, events, k, seen, whole) && k < |events| && NoneWon(dials, seen)
    ensures OnCourse(n, Next(n, dials, events[k]), LastAfter(dials, events[k], last), events, k + 1,
      seen + [events[k]], whole)
  {
    NoneWonNotOver(dials, seen);
    OutlookStep(n, dials, events, k, last);
    assert events[..k] + [events[k]] == events[..k + 1];
  }

  lemma OnCourseWaiting(queue: seq<Addr>, n: nat, dials: Dials, last: Option<Outcome>, events: seq<Event>,
      seen: seq<Event>, whole: (Dials, Option<Outcome>))
    requires OnCourse(n, dials, last, events, |events|, seen, whole)
    requires NoneWon(dials, seen) && Running(dials) > 0 && |dials| <= |queue| == n
    ensures Ended(queue, events, Waiting, queue[..|dials|], dials, whole)
  {
    assert events[|events|..] == [] && seen == events;
  }

  lemma OnCourseLost(queue: seq<Addr>, n: nat, dials: Dials, last: Option<Outcome>, events: seq<Event>, k: nat,
      seen: seq<Event>, whole: (Dials, Option<Outcome>))
    requires OnCourse(n, dials, last, events, k, seen, whole) && |dials| == n && Running(dials) == 0
    requires NoneWon(dials, seen) && |queue| == n && (if dials == [] then last.None? else last.Some? && last in dials)
    ensures Ended(queue, events, Lost(last), queue[..|dials|], dials, whole)
  {
    assert queue[..|dials|] == queue;
    NoneWonWider(dials, seen, events);
    CourseStays(n, dials, events[k..]);
    CourseLastStays(n, dials, events[k..], last);
  }

  lemma OnCourseWon(queue: seq<Addr>, n: nat, dials: Dials, last: Option<Outcome>, events: seq<Event>, k: nat,
      seen: seq<Event>, whole: (Dials, Option<Outcome>), i: nat, stream: nat)
    requires OnCourse(n, Kept(n, dials), last, events, k, seen, whole) && i < |dials| && WonBy(dials, seen, i, stream)
    requires |dials| <= |queue| == n
    ensures Ended(queue, events, Won(stream), queue[..|dials|], dials, whole)
  {
    WonByWider(dials, seen, events, i, stream);
    assert Over(dials);
  }

  ghost predicate Foreseen(n: nat, events: seq<Event>, r: Verdict, dials: Dials, whole: (Dials, Option<Outcome>)) {
    dials == whole.0 && (r.Lost? ==> r.last == whole.1)
  }

  ghost predicate Ended(queue: seq<Addr>, events: seq<Event>, r: Verdict, started: seq<Addr>, dials: Dials,
      whole: (Dials, Option<Outcome>))
  {
    Fair(queue, events, r, started, dials) && Foreseen(|queue|, events, r, dials, whole)
  }

  method Contend(queue: seq<Addr>, events: seq<Event>) returns (r: Verdict, started: seq<Addr>, dials: Dials)
    ensures Ended(queue, events, r, started, dials, Outlook(|queue|, Start(|queue|), events, None))
  {
    var contest := new Contest(queue);
    ghost var whole := Outlook(|queue|, Start(|queue|), events, None);
    OnCourseFirst(|queue|, events);
    var k := 0;
    while true
      invariant contest.queue == queue && k <= |events| && contest.OnTrack(events, k, whole)
      decreases |events| - k
    {
      var end := contest.Begin(events, k, whole);
      if end.None? {
        end := contest.Meet(events, k, whole);
      }
      if end.Some? {
        return end.value, queue[..|contest.dials|], contest.dials;
      }
      k := k + 1;
    }
  }

  /** There was a dial for the first address and then one for every delay that ran out, every
      refusal and every panic that left nobody, as long as there were addresses. */
  ghost predicate Prompt(n: nat, events: seq<Event>, dials: Dials) {
    |dials| == Min(n, 1 + Reasons(n, Start(n), events))
  }

  lemma RaceIsPrompt(n: nat, events: seq<Event>)
    ensures Prompt(n, events, Course(n, Start(n), events))
  {
    StartIsKept(n);
    ExactlyPrompt(n, Start(n), events);
  }

  lemma StartTraced(n: nat, events: seq<Event>) returns (states: seq<Dials>)
    ensures Traced(n, states, events, Outlook(n, Start(n), events, None))
  {
    StartIsKept(n);
    assert events[0..] == events;
    states := CourseWalks(n, [Start(n)], events, 0, None);
  }

  /** The dials are those the states lead to, and the error of a race that is lost is the last
      there was. */
  ghost predicate Told(n: nat, events: seq<Event>, r: Verdict, dials: Dials, states: seq<Dials>) {
    && Walked(n, states, events) && dials == states[|states| - 1]
    && (|states| == |events| + 1 || Succeeded(dials))
    && (r.Lost? ==> LastIs(states, events, r.last))
  }

  /** The race over the first four addresses, in every course of events. */
  method Race(addrs: seq<Addr>, events: seq<Event>)
    returns (r: Verdict, started: seq<Addr>, dials: Dials, ghost states: seq<Dials>)
    ensures Fair(Contenders(addrs), events, r, started, dials)
    ensures Told(|Contenders(addrs)|, events, r, dials, states)
    ensures Prompt(|Contenders(addrs)|, events, dials)
    ensures dials == Course(|Contenders(addrs)|, Start(|Contenders(addrs)|), events)
    ensures Contenders(addrs) <= Interleaved(addrs) && |Contenders(addrs)| == Min(4, |addrs|)
  {
    InterleavedPermutes(addrs, false);
    assert |Interleaved(addrs)| == |multiset(Interleaved(addrs))| == |multiset(addrs)| == |addrs|;
    var order := Interleave(addrs);
    r, started, dials := Contend(order[..Min(MAX_DIALS, |order|)], events);
    RaceIsPrompt(|Contenders(addrs)|, events);
    states := StartTraced(|Contenders(addrs)|, events);
  }
}
