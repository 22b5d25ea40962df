/** The rules of the router, and the loop that works through them for a connection. */
module Router {
  import opened Common
  import opened Addresses
  import opened RuleMatcher

  datatype Action = Sniff | Resolve | HijackDns | Reject | Route(tag: string)

  datatype Rule = Rule(matcher: Matcher, action: Action)

  datatype Decision = Step(action: Action, next: nat) | Final(tag: string)

  /** What sniffing recognised. */
  datatype Sniffed = Sniffed(protocol: string, domain: Option<Bytes>)

  /** What the outside world would answer: the process tables; the first bytes of the stream
      and what they are; the address a name resolves to when rule `i` asks. */
  datatype World = World(
    process: Option<Process>, firstRead: Option<(Bytes, Option<Sniffed>)>, resolved: nat -> Option<Ip>)

  /** How it ends, with what is known by then.  `rule` is the number of the deciding rule. */
  datatype Verdict =
    | Routed(tag: string, rule: Option<nat>, facts: Facts, prefix: Bytes)
    | Rejected
    | Hijacked(facts: Facts, prefix: Bytes)

  // ----- what the steps add

  function WithSniffed(f: Facts, found: Option<Sniffed>): Facts {
    if found.None? then f
    else f.(protocol := Some(found.value.protocol), domain := if f.domain.None? then found.value.domain else f.domain)
  }

  /** The destination is given by name. */
  predicate NamesHost(f: Facts) {
    f.destination.Some? && f.destination.value.host.HostName?
  }

  function WithResolved(f: Facts, ip: Option<Ip>): Facts {
    if NamesHost(f) && ip.Some? then f.(resolvedIp := ip) else f
  }

  /** Where the connection stands: what is known, whether it may still be sniffed, and what
      was read of it. */
  datatype State = State(facts: Facts, unread: bool, prefix: Bytes)
  {
    function AfterSniff(w: World): State {
      if unread && w.firstRead.Some?
      then State(WithSniffed(facts, w.firstRead.value.1), false, w.firstRead.value.0)
      else this.(unread := false)
    }

    function AfterResolve(w: World, i: nat): State {
      this.(facts := WithResolved(facts, w.resolved(i)))
    }

    /** What rule `i` does that is not a decision. */
    function After(action: Action, w: World, i: nat): State {
      match action
      case Sniff => AfterSniff(w)
      case Resolve => AfterResolve(w, i)
      case _ => this
    }
  }

  /** What rule `i` finds out, told by the facts.  The first sniff takes what the client sent;
      what it recognises there gives the protocol, and the name if none is known.  Resolving gives
      the address of a destination that is a name.  Nothing else changes. */
  ghost predicate Enriches(action: Action, before: State, after: State, w: World, i: nat) {
    match action
    case Sniff =>
      if !before.unread then after == before
      else if w.firstRead.None? then after == before.(unread := false)
      else
        && !after.unread && after.prefix == w.firstRead.value.0
        && Recognised(w.firstRead.value.1, before.facts, after.facts)
    case Resolve =>
      && after.unread == before.unread && after.prefix == before.prefix
      && after.facts ==
         if NamesHost(before.facts) && w.resolved(i).Some? then before.facts.(resolvedIp := w.resolved(i))
         else before.facts
    case _ => after == before
  }

  /** What the first bytes tell: the protocol, and the name if none was known. */
  ghost predicate Recognised(found: Option<Sniffed>, before: Facts, after: Facts) {
    if found.None? then after == before
    else
      && after.protocol == Some(found.value.protocol)
      && after.domain == (if before.domain.Some? then before.domain else found.value.domain)
      && after == before.(protocol := after.protocol, domain := after.domain)
  }

  lemma AfterEnriches(action: Action, s: State, w: World, i: nat, after: State)
    ensures Enriches(action, s, after, w, i) <==> after == s.After(action, w, i)
  {}

  predicate Decides(action: Action) {
    action != Sniff && action != Resolve
  }

  function VerdictOf(action: Action, i: nat, s: State): Verdict
    requires Decides(action)
  {
    match action
    case Route(tag) => Routed(tag, Some(i + 1), s.facts, s.prefix)
    case Reject => Rejected
    case HijackDns => Hijacked(s.facts, s.prefix)
  }

  /** Peek at the beginning of the stream; if nothing comes in time all stays as it is. */
  method SniffStream(meta: Meta, w: World, prefix: Bytes) returns (read: Bytes)
    modifies meta`facts
    ensures Enriches(Sniff, State(old(meta.facts), true, prefix), State(meta.facts, false, read), w, 0)
  {
    if w.firstRead.None? {
      return prefix;
    }
    var found := w.firstRead.value.1;
    if found.Some? {
      meta.facts := meta.facts.(protocol := Some(found.value.protocol));
      if meta.facts.domain.None? {
        meta.facts := meta.facts.(domain := found.value.domain);
      }
    }
    read := w.firstRead.value.0;
  }

  /** Rules get to see the address of a destination that is a name; the destination stays the
      name, and so does everything else. */
  method ResolveStep(meta: Meta, addr: Option<Ip>)
    modifies meta`facts
    ensures meta.facts == old(meta.facts).(resolvedIp := meta.facts.resolvedIp)
    ensures NamesHost(old(meta.facts)) ==> meta.facts.DestIp() == if addr.Some? then addr else old(meta.facts.DestIp())
    ensures !NamesHost(old(meta.facts)) ==> meta.facts == old(meta.facts)
  {
    if meta.facts.destination.Some? && meta.facts.destination.value.host.HostName? && addr.Some? {
      meta.facts := meta.facts.(resolvedIp := addr);
    }
  }

  ghost predicate ValidRules(rules: seq<Rule>) {
    forall i :: 0 <= i < |rules| ==> rules[i].matcher.Valid()
  }

  // ----- one pass over the rules

  /** From left to right; a rule that fires acts, and the pass goes on behind it with what is
      known by then.  The mode is read anew after every rule that fired. */
  ghost function Pass(rules: seq<Rule>, final: string, i: nat, s: State, w: World, p: Option<Process>,
      modes: nat -> Bytes, round: nat): Verdict
    requires ValidRules(rules)
    decreases |rules| - i
  {
    if i >= |rules| then Routed(final, None, s.facts, s.prefix)
    else if !rules[i].matcher.Fires(s.facts, modes(round), p) then Pass(rules, final, i + 1, s, w, p, modes, round)
    else if Decides(rules[i].action) then VerdictOf(rules[i].action, i, s)
    else Pass(rules, final, i + 1, s.After(rules[i].action, w, i), w, p, modes, round + 1)
  }

  /** The place of the first rule from `i` on that fires. */
  ghost function FirstFiring(rules: seq<Rule>, i: nat, f: Facts, mode: Bytes, p: Option<Process>): (k: nat)
    requires ValidRules(rules) && i <= |rules|
    ensures i <= k <= |rules| && (k < |rules| ==> rules[k].matcher.Fires(f, mode, p))
    decreases |rules| - i
  {
    if i == |rules| || rules[i].matcher.Fires(f, mode, p) then i else FirstFiring(rules, i + 1, f, mode, p)
  }

  /** The pass jumps to the next rule that fires. */
  lemma {:induction false} PassJumps(rules: seq<Rule>, final: string, i: nat, s: State, w: World,
      p: Option<Process>, modes: nat -> Bytes, round: nat)
    requires ValidRules(rules) && i <= |rules|
    ensures
      var k := FirstFiring(rules, i, s.facts, modes(round), p);
      Pass(rules, final, i, s, w, p, modes, round) ==
        if k == |rules| then Routed(final, None, s.facts, s.prefix)
        else if Decides(rules[k].action) then VerdictOf(rules[k].action, k, s)
        else Pass(rules, final, k + 1, s.After(rules[k].action, w, k), w, p, modes, round + 1)
    decreases |rules| - i
  {
    if i < |rules| && !rules[i].matcher.Fires(s.facts, modes(round), p) {
      PassJumps(rules, final, i + 1, s, w, p, modes, round);
    }
  }

  /** The router's answer to a question from place `from` on. */
  ghost function Decided(rules: seq<Rule>, final: string, from: nat, f: Facts, mode: Bytes,
      p: Option<Process>): (d: Decision)
    requires ValidRules(rules) && from <= |rules|
    ensures d.Step? ==> from < d.next <= |rules| && !rules[d.next - 1].matcher.broken
  {
    var k := FirstFiring(rules, from, f, mode, p);
    if k == |rules| then Final(final) else Step(rules[k].action, k + 1)
  }

  /** What one more question makes of the pass. */
  lemma RoundStep(rules: seq<Rule>, final: string, from: nat, s: State, w: World, p: Option<Process>,
      modes: nat -> Bytes, round: nat)
    requires ValidRules(rules) && from <= |rules|
    ensures
      var d := Decided(rules, final, from, s.facts, modes(round), p);
      Pass(rules, final, from, s, w, p, modes, round) ==
        if d.Final? then Routed(d.tag, None, s.facts, s.prefix)
        else if Decides(d.action) then VerdictOf(d.action, d.next - 1, s)
        else Pass(rules, final, d.next, s.After(d.action, w, d.next - 1), w, p, modes, round + 1)
  {
    PassJumps(rules, final, from, s, w, p, modes, round);
  }

  /** Rules of which none names a missing set, in strictly increasing order, all below the
      bound. */
  ghost predicate Fired(rules: seq<Rule>, visited: seq<nat>, bound: nat) {
    && bound <= |rules|
    && (forall j, k :: 0 <= j < k < |visited| ==> visited[j] < visited[k])
    && (forall k :: 0 <= k < |visited| ==> visited[k] < bound && !rules[visited[k]].matcher.broken)
  }

  lemma FiredEnd(rules: seq<Rule>, visited: seq<nat>, bound: nat)
    requires Fired(rules, visited, bound)
    ensures Fired(rules, visited, |rules|)
  {}

  lemma FiredMore(rules: seq<Rule>, visited: seq<nat>, bound: nat, i: nat)
    requires Fired(rules, visited, bound) && bound <= i < |rules| && !rules[i].matcher.broken
    ensures Fired(rules, visited + [i], i + 1) && Fired(rules, visited + [i], |rules|)
  {}

  class Router {
    const rules: seq<Rule>
    const finalOutbound: string

    constructor (rules: seq<Rule>, finalOutbound: string)
      ensures this.rules == rules && this.finalOutbound == if finalOutbound == "" then "direct" else finalOutbound
    {
      this.rules := rules;
      this.finalOutbound := if finalOutbound == "" then "direct" else finalOutbound;
    }

    /** The first rule from `from` on that fires. */
    method Next(meta: Meta, from: nat, mode: Bytes, answer: Option<Process>) returns (d: Decision)
      requires ValidRules(rules) && from <= |rules|
      modifies meta`process
      ensures meta.Known(answer) == old(meta.Known(answer))
      ensures d == Decided(rules, finalOutbound, from, meta.facts, mode, old(meta.Known(answer)))
    {
      for i := from to |rules|
        invariant meta.Known(answer) == old(meta.Known(answer))
        invariant FirstFiring(rules, from, meta.facts, mode, old(meta.Known(answer)))
          == FirstFiring(rules, i, meta.facts, mode, old(meta.Known(answer)))
      {
        var hit := rules[i].matcher.Matches(meta, mode, answer);
        if hit {
          return Step(rules[i].action, i + 1);
        }
      }
      return Final(finalOutbound);
    }

    /** One turn of the loop: ask for the next rule that fires and do what it says.  It ends
        with a verdict, or it goes on behind the rule with what the rule has found out. */
    method Turn(meta: Meta, from: nat, unread: bool, prefix: Bytes, w: World, mode: Bytes)
      returns (d: Decision, v: Option<Verdict>, unread': bool, prefix': Bytes)
      requires ValidRules(rules) && from <= |rules|
      modifies meta`process, meta`facts
      ensures meta.Known(w.process) == old(meta.Known(w.process))
      ensures d == Decided(rules, finalOutbound, from, old(meta.facts), mode, old(meta.Known(w.process)))
      ensures
        var s := State(old(meta.facts), unread, prefix);
        if d.Final? then v == Some(Routed(d.tag, None, s.facts, s.prefix))
        else if Decides(d.action) then v == Some(VerdictOf(d.action, d.next - 1, s))
        else v == None && State(meta.facts, unread', prefix') == s.After(d.action, w, d.next - 1)
    {
      v, unread', prefix' := None, unread, prefix;
      d := Next(meta, from, mode, w.process);
      if d.Final? {
        v := Some(Routed(d.tag, None, meta.facts, prefix));
        return;
      }
      match d.action
      case Sniff =>
        if unread {
          unread' := false;
          prefix' := SniffStream(meta, w, prefix);
          AfterEnriches(Sniff, State(old(meta.facts), true, prefix), w, 0, State(meta.facts, false, prefix'));
        }
      case Resolve =>
        ResolveStep(meta, w.resolved(d.next - 1));
      case Route(tag) =>
        v := Some(Routed(tag, Some(d.next), meta.facts, prefix));
      case Reject =>
        v := Some(Rejected);
      case HijackDns =>
        v := Some(Hijacked(meta.facts, prefix));
    }

    /** The loop for a TCP connection, up to the verdict.  `visited` are the rules that fired;
        `rounds` counts the questions put to the router. */
    method HandleTcp(meta: Meta, needSniff: bool, w: World, modes: nat -> Bytes)
      returns (v: Verdict, visited: seq<nat>, rounds: nat)
      requires ValidRules(rules)
      modifies meta`process, meta`facts
      ensures v == Pass(rules, finalOutbound, 0, State(old(meta.facts), needSniff, []), w,
        old(meta.Known(w.process)), modes, 0)
      ensures Fired(rules, visited, |rules|) && rounds <= |visited| + 1 <= |rules| + 1
    {
      var prefix: Bytes := [];
      var from := 0;
      var unread := needSniff;
      visited, rounds := [], 0;
      ghost var p := meta.Known(w.process);
      ghost var whole := Pass(rules, finalOutbound, 0, State(meta.facts, needSniff, []), w, p, modes, 0);
      while true
        invariant from <= |rules| && rounds == |visited| <= from && meta.Known(w.process) == p
        invariant Fired(rules, visited, from)
        invariant whole == Pass(rules, finalOutbound, from, State(meta.facts, unread, prefix), w, p, modes, rounds)
        decreases |rules| - from
      {
        RoundStep(rules, finalOutbound, from, State(meta.facts, unread, prefix), w, p, modes, rounds);
        var d: Decision, ended: Option<Verdict>;
        d, ended, unread, prefix := Turn(meta, from, unread, prefix, w, modes(rounds));
        rounds := rounds + 1;
        if d.Final? {
          FiredEnd(rules, visited, from);
          return ended.value, visited, rounds;
        }
        FiredMore(rules, visited, from, d.next - 1);
        visited := visited + [d.next - 1];
        if ended.Some? {
          return ended.value, visited, rounds;
        }
        from := d.next;
      }
    }

    /** The same loop for a UDP session: its first packet is sniffed at once, and no rule
        sniffs. */
    method OpenUdp(meta: Meta, found: Option<Sniffed>, w: World, modes: nat -> Bytes)
      returns (v: Verdict, visited: seq<nat>, rounds: nat)
      requires ValidRules(rules)
      modifies meta`process, meta`facts
      ensures
        forall facts :: Recognised(found, old(meta.facts), facts) ==>
          v == Pass(rules, finalOutbound, 0, State(facts, false, []), w, old(meta.Known(w.process)), modes, 0)
      ensures Fired(rules, visited, |rules|) && rounds <= |visited| + 1 <= |rules| + 1
    {
      meta.facts := WithSniffed(meta.facts, found);
      v, visited, rounds := HandleTcp(meta, false, w, modes);
    }
  }

  // ----- what no rule changes, and rules that change nothing

  /** Whatever the rules find out, the connection goes where it wanted to go, and a name known
      beforehand stays known. */
  lemma {:induction false} TargetKept(rules: seq<Rule>, final: string, i: nat, s: State, w: World,
      p: Option<Process>, modes: nat -> Bytes, round: nat)
    requires ValidRules(rules)
    ensures
      var v := Pass(rules, final, i, s, w, p, modes, round);
      !v.Rejected? ==>
        && v.facts.destination == s.facts.destination
        && (s.facts.domain.Some? ==> v.facts.domain == s.facts.domain)
    decreases |rules| - i
  {
    if i < |rules| {
      if !rules[i].matcher.Fires(s.facts, modes(round), p) {
        TargetKept(rules, final, i + 1, s, w, p, modes, round);
      } else if !Decides(rules[i].action) {
        TargetKept(rules, final, i + 1, s.After(rules[i].action, w, i), w, p, modes, round + 1);
      }
    }
  }

  /** The same rules, apart from rules that name a missing set. */
  ghost predicate SameWhereWhole(rules: seq<Rule>, others: seq<Rule>) {
    && |rules| == |others|
    && forall i :: 0 <= i < |rules| ==> rules[i] == others[i] || (rules[i].matcher.broken && others[i].matcher.broken)
  }

  /** A rule that names a missing set never decides and never enriches: any other such rule in
      its place gives the same verdict, in every run. */
  lemma {:induction false} BrokenNeverActs(rules: seq<Rule>, others: seq<Rule>, final: string, i: nat, s: State,
      w: World, p: Option<Process>, modes: nat -> Bytes, round: nat)
    requires ValidRules(rules) && ValidRules(others) && SameWhereWhole(rules, others)
    ensures Pass(rules, final, i, s, w, p, modes, round) == Pass(others, final, i, s, w, p, modes, round)
    decreases |rules| - i
  {
    if i < |rules| {
      if !rules[i].matcher.Fires(s.facts, modes(round), p) {
        BrokenNeverActs(rules, others, final, i + 1, s, w, p, modes, round);
      } else if !Decides(rules[i].action) {
        BrokenNeverActs(rules, others, final, i + 1, s.After(rules[i].action, w, i), w, p, modes, round + 1);
      }
    }
  }

  // ----- with one mode throughout

  /** Where the connection stands before rule `i`: every earlier rule that fires on what was
      known before it has sniffed or resolved. */
  ghost function StateAt(rules: seq<Rule>, i: nat, s: State, w: World, p: Option<Process>, mode: Bytes): State
    requires ValidRules(rules) && i <= |rules|
  {
    if i == 0 then s
    else
      var before := StateAt(rules, i - 1, s, w, p, mode);
      if rules[i - 1].matcher.Fires(before.facts, mode, p) then before.After(rules[i - 1].action, w, i - 1) else before
  }

  /** Rule `i` fires on what is known before it, and decides. */
  ghost predicate Settles(rules: seq<Rule>, i: nat, s: State, w: World, p: Option<Process>, mode: Bytes)
    requires ValidRules(rules) && i < |rules|
  {
    Decides(rules[i].action) && rules[i].matcher.Fires(StateAt(rules, i, s, w, p, mode).facts, mode, p)
  }

  lemma {:induction false} PassFrom(rules: seq<Rule>, final: string, i: nat, s: State, w: World,
      p: Option<Process>, mode: Bytes, modes: nat -> Bytes, round: nat)
    returns (later: nat)
    requires ValidRules(rules) && i <= |rules| && forall r :: modes(r) == mode
    requires forall j :: 0 <= j < i ==> !Settles(rules, j, s, w, p, mode)
    ensures Pass(rules, final, 0, s, w, p, modes, round)
      == Pass(rules, final, i, StateAt(rules, i, s, w, p, mode), w, p, modes, later)
  {
    if i == 0 {
      later := round;
    } else {
      later := PassFrom(rules, final, i - 1, s, w, p, mode, modes, round);
      var before := StateAt(rules, i - 1, s, w, p, mode);
      assert !Settles(rules, i - 1, s, w, p, mode);
      if rules[i - 1].matcher.Fires(before.facts, mode, p) {
        later := later + 1;
      }
    }
  }

  /** What is known before each rule and at the end, in a pass with one mode throughout: a rule
      that fires on what is known before it enriches it. */
  ghost predicate Course(rules: seq<Rule>, states: seq<State>, s: State, w: World, p: Option<Process>, mode: Bytes)
    requires ValidRules(rules)
  {
    && |states| == |rules| + 1 && states[0] == s
    && forall i :: 0 <= i < |rules| ==>
      if rules[i].matcher.Fires(states[i].facts, mode, p)
      then Enriches(rules[i].action, states[i], states[i + 1], w, i)
      else states[i + 1] == states[i]
  }

  /** The verdict of rule `k`, given what is known before it. */
  ghost predicate VerdictIs(v: Verdict, action: Action, k: nat, s: State) {
    match action
    case Route(tag) => v == Routed(tag, Some(k + 1), s.facts, s.prefix)
    case Reject => v == Rejected
    case HijackDns => v == Hijacked(s.facts, s.prefix)
    case _ => false
  }

  lemma {:induction false} CourseIsStateAt(rules: seq<Rule>, states: seq<State>, i: nat, s: State, w: World,
      p: Option<Process>, mode: Bytes)
    requires ValidRules(rules) && Course(rules, states, s, w, p, mode) && i <= |rules|
    ensures states[i] == StateAt(rules, i, s, w, p, mode)
  {
    if i > 0 {
      CourseIsStateAt(rules, states, i - 1, s, w, p, mode);
      AfterEnriches(rules[i - 1].action, states[i - 1], w, i - 1, states[i]);
    }
  }

  /** The place has a rule that fires there, and its action is a verdict. */
  ghost predicate Ends(rules: seq<Rule>, states: seq<State>, k: nat, p: Option<Process>, mode: Bytes)
    requires ValidRules(rules) && |states| == |rules| + 1 && k < |rules|
  {
    && rules[k].action != Sniff && rules[k].action != Resolve
    && rules[k].matcher.Fires(states[k].facts, mode, p)
  }

  ghost predicate FirstEnds(rules: seq<Rule>, states: seq<State>, k: nat, p: Option<Process>, mode: Bytes)
    requires ValidRules(rules) && |states| == |rules| + 1 && k < |rules|
  {
    Ends(rules, states, k, p, mode) && forall j :: 0 <= j < k ==> !Ends(rules, states, j, p, mode)
  }

  /** With one mode throughout, the verdict is that of the first rule that fires and gives one,
      given what the rules before have found out; if none does, the final outbound takes it. */
  lemma FixedModeVerdict(rules: seq<Rule>, final: string, states: seq<State>, s: State, w: World, p: Option<Process>,
      mode: Bytes, modes: nat -> Bytes, round: nat)
    requires ValidRules(rules) && (forall r :: modes(r) == mode) && Course(rules, states, s, w, p, mode)
    ensures
      var v := Pass(rules, final, 0, s, w, p, modes, round);
      && ((forall j :: 0 <= j < |rules| ==> !Ends(rules, states, j, p, mode)) ==>
        v == Routed(final, None, states[|rules|].facts, states[|rules|].prefix))
      && (forall k :: 0 <= k < |rules| && FirstEnds(rules, states, k, p, mode) ==>
        VerdictIs(v, rules[k].action, k, states[k]))
  {
    forall j | 0 <= j <= |rules|
      ensures states[j] == StateAt(rules, j, s, w, p, mode)
      ensures j < |rules| ==> (Ends(rules, states, j, p, mode) <==> Settles(rules, j, s, w, p, mode))
    {
      CourseIsStateAt(rules, states, j, s, w, p, mode);
    }
    if forall j :: 0 <= j < |rules| ==> !Ends(rules, states, j, p, mode) {
      var later := PassFrom(rules, final, |rules|, s, w, p, mode, modes, round);
    }
    forall k | 0 <= k < |rules| && FirstEnds(rules, states, k, p, mode)
      ensures VerdictIs(Pass(rules, final, 0, s, w, p, modes, round), rules[k].action, k, states[k])
    {
      var later := PassFrom(rules, final, k, s, w, p, mode, modes, round);
    }
  }

  /** In any run, whatever the modes: behind a rule that fires and does not decide, the pass goes
      on with what the rule has found out, and with the mode read anew. */
  lemma EnrichedBehind(rules: seq<Rule>, final: string, i: nat, s: State, after: State, w: World, p: Option<Process>,
      modes: nat -> Bytes, round: nat)
    requires ValidRules(rules) && i < |rules| && rules[i].matcher.Fires(s.facts, modes(round), p)
    requires (rules[i].action == Sniff || rules[i].action == Resolve) && Enriches(rules[i].action, s, after, w, i)
    ensures Pass(rules, final, i, s, w, p, modes, round) == Pass(rules, final, i + 1, after, w, p, modes, round + 1)
  {
    AfterEnriches(rules[i].action, s, w, i, after);
  }

  /** A name the stream announces decides: behind a sniff, a rule for that name routes a
      connection of which only the address was known. */
  lemma SniffedNameRoutes(rules: seq<Rule>, final: string, s: State, w: World, p: Option<Process>, modes: nat -> Bytes,
      bytes: Bytes, protocol: string, name: Bytes, tag: string)
    requires ValidRules(rules) && |rules| >= 2 && rules[0].action == Sniff && rules[1].action == Route(tag)
    requires s.unread && s.facts.domain == None && w.firstRead == Some((bytes, Some(Sniffed(protocol, Some(name)))))
    requires rules[0].matcher.Fires(s.facts, modes(0), p)
    requires rules[1].matcher.Fires(s.facts.(protocol := Some(protocol), domain := Some(name)), modes(1), p)
    ensures Pass(rules, final, 0, s, w, p, modes, 0)
      == Routed(tag, Some(2), s.facts.(protocol := Some(protocol), domain := Some(name)), bytes)
  {
    var after := State(s.facts.(protocol := Some(protocol), domain := Some(name)), false, bytes);
    EnrichedBehind(rules, final, 0, s, after, w, p, modes, 0);
  }
}
