/** Whole runs of the subscription client: what the snapshot is, and why arrival order does not matter. */
module ClientRuns {
  import opened ByteStrings
  import opened EventStore
  import opened ClientSnapshot
  import opened Client

  function Run(config: Config, v: View, inputs: seq<Input>): View {
    if inputs == [] then v
    else Apply(config, Run(config, v, inputs[..|inputs| - 1]), inputs[|inputs| - 1]).0
  }

  /** The time of the last EOSE of the subscription. */
  function LastEose(config: Config, inputs: seq<Input>): Option<nat> {
    if inputs == [] then None
    else EoseAfter(config, LastEose(config, inputs[..|inputs| - 1]), inputs[|inputs| - 1])
  }

  /** After any inputs: stores sorted, distinct and bounded, the snapshot that of the last EOSE, modes and pending as
      promised. */
  lemma {:induction false} RunInvariant(config: Config, inputs: seq<Input>)
    requires config.Valid()
    ensures Invariant(config, Run(config, Initial(), inputs), LastEose(config, inputs))
  {
    if inputs != [] {
      var n := |inputs| - 1;
      RunInvariant(config, inputs[..n]);
      StepKeepsInvariant(config, Run(config, Initial(), inputs[..n]), LastEose(config, inputs[..n]), inputs[n]);
    }
  }

  // ----- diagnostics -----

  /** The diagnostic an input causes, whatever the state. */
  function MessageOf(config: Config, input: Input): seq<string> {
    if !input.Text? then []
    else
      match input.frame
      case Notice(Some(message)) => [message]
      case EventFrame(3, Some(sub), Some(Reject(message))) => if sub == config.subscriptionId then [message] else []
      case Closed(3, Some(sub), Some(reason)) => if sub == config.subscriptionId then [reason] else []
      case _ => []
  }

  function Messages(config: Config, inputs: seq<Input>): seq<string> {
    if inputs == [] then []
    else Messages(config, inputs[..|inputs| - 1]) + MessageOf(config, inputs[|inputs| - 1])
  }

  lemma StepPushes(config: Config, v: View, input: Input)
    ensures var w, message := Apply(config, v, input).0, MessageOf(config, input);
            w.diagnostics == if message == [] then v.diagnostics else Push(v.diagnostics, message[0])
  {
  }

  /** The client shows the last 32 diagnostics of everything it was ever sent. */
  lemma {:induction false} DiagnosticsAreLatest(config: Config, inputs: seq<Input>)
    ensures Run(config, Initial(), inputs).diagnostics == LastOf(Messages(config, inputs), MAX_DIAGNOSTICS)
  {
    if inputs != [] {
      var n := |inputs| - 1;
      DiagnosticsAreLatest(config, inputs[..n]);
      StepPushes(config, Run(config, Initial(), inputs[..n]), inputs[n]);
      var message := MessageOf(config, inputs[n]);
      if message != [] {
        PushLatest(Messages(config, inputs[..n]), message[0]);
        assert message == [message[0]];
      } else {
        assert Messages(config, inputs) == Messages(config, inputs[..n]);
      }
    }
  }

  // ----- one session: everything since the socket opened -----

  predicate IsClosed(config: Config, input: Input) {
    input.Text? && input.frame.Closed? && input.frame.arity == 3 && input.frame.sub == Some(config.subscriptionId) &&
    input.frame.reason.Some?
  }

  /** Frames and clock ticks, but no CLOSED and no reconnection. */
  predicate InSession(config: Config, input: Input) {
    input.MarkStale? || (input.Text? && !IsClosed(config, input))
  }

  predicate Accepts(config: Config, input: Input) {
    input.Text? && input.frame.EventFrame? && input.frame.arity == 3 &&
      input.frame.sub == Some(config.subscriptionId) &&
    input.frame.payload.Some? && input.frame.payload.value.Accept?
  }

  function EventOf(config: Config, input: Input): Event
    requires Accepts(config, input)
  {
    input.frame.payload.value.event
  }

  /** The accepted events. */
  function Events(config: Config, inputs: seq<Input>): set<Event> {
    if inputs == [] then {}
    else
      var n := |inputs| - 1;
      Events(config, inputs[..n]) + if Accepts(config, inputs[n]) then {EventOf(config, inputs[n])} else {}
  }

  function Eoses(config: Config, inputs: seq<Input>): nat {
    if inputs == [] then 0
    else Eoses(config, inputs[..|inputs| - 1]) + if IsEose(config, inputs[|inputs| - 1]) then 1 else 0
  }

  /** The accepted events that an EOSE does not drop: those before the first one are kept, a later one drops all. */
  function Retained(config: Config, inputs: seq<Input>): set<Event> {
    if inputs == [] then {}
    else
      var n := |inputs| - 1;
      if IsEose(config, inputs[n]) then (if Eoses(config, inputs[..n]) == 0 then Retained(config, inputs[..n]) else {})
      else Retained(config, inputs[..n]) + if Accepts(config, inputs[n]) then {EventOf(config, inputs[n])} else {}
  }

  /** How the view of a session stands to its inputs. */
  ghost predicate Follows(config: Config, start: View, v: View, inputs: seq<Input>) {
    if Eoses(config, inputs) == 0 then
      && v.mode == Snapshotting && IsNewest(v.pending, Retained(config, inputs), config.maxEvents)
      && v.committed == start.committed && v.snapshot == start.snapshot
    else
      && v.mode in {Live, Stale} && v.pending == []
      && IsNewest(v.committed, Retained(config, inputs), config.maxEvents)
      && v.snapshot.Some? && v.snapshot.value == Build(config, v.committed, v.snapshot.value.eoseAt)
  }

  ghost predicate Session(config: Config, start: View, inputs: seq<Input>) {
    && config.Valid() && start.mode == Snapshotting && start.pending == []
    && (forall i :: 0 <= i < |inputs| ==> InSession(config, inputs[i])) && Consistent(Events(config, inputs))
  }

  lemma {:induction false} RetainedEvents(config: Config, inputs: seq<Input>)
    ensures Retained(config, inputs) <= Events(config, inputs)
    ensures Eoses(config, inputs) <= 1 ==> Retained(config, inputs) == Events(config, inputs)
  {
    if inputs != [] { RetainedEvents(config, inputs[..|inputs| - 1]); }
  }

  /** The next accepted event goes to the pending or to the committed list. */
  lemma AcceptFollows(config: Config, start: View, v: View, inputs: seq<Input>, input: Input)
    requires config.Valid() && Follows(config, start, v, inputs) && Accepts(config, input)
    requires Consistent(Retained(config, inputs) + {EventOf(config, input)})
    ensures Follows(config, start, Apply(config, v, input).0, inputs + [input])
  {
    assert (inputs + [input])[..|inputs|] == inputs;
    var e := EventOf(config, input);
    if Eoses(config, inputs) == 0 {
      InsertKeepsNewest(v.pending, Retained(config, inputs), e, config.maxEvents);
    } else {
      InsertKeepsNewest(v.committed, Retained(config, inputs), e, config.maxEvents);
    }
  }

  lemma OtherFollows(config: Config, start: View, v: View, inputs: seq<Input>, input: Input)
    requires config.Valid() && Follows(config, start, v, inputs) && InSession(config, input) && !Accepts(config, input)
    ensures Follows(config, start, Apply(config, v, input).0, inputs + [input])
  {
    assert (inputs + [input])[..|inputs|] == inputs;
    if !IsEose(config, input) { QuietStep(config, v, input); }
  }

  /** Any other input leaves the events and the snapshot alone; at most a live client turns stale. */
  lemma QuietStep(config: Config, v: View, input: Input)
    requires InSession(config, input) && !Accepts(config, input) && !IsEose(config, input)
    ensures var w := Apply(config, v, input).0;
            && w.pending == v.pending && w.committed == v.committed && w.snapshot == v.snapshot
            && (w.mode == v.mode || (v.mode == Live && w.mode == Stale))
  {
  }

  /** The law of a session: what is pending before EOSE, and committed after it. */
  lemma {:induction false} SessionLaw(config: Config, start: View, inputs: seq<Input>)
    requires Session(config, start, inputs)
    ensures Follows(config, start, Run(config, start, inputs), inputs)
  {
    if inputs != [] {
      var n := |inputs| - 1;
      var before, last := inputs[..n], inputs[n];
      SessionLaw(config, start, before);
      RetainedEvents(config, before);
      assert before + [last] == inputs;
      if Accepts(config, last) {
        AcceptFollows(config, start, Run(config, start, before), before, last);
      } else {
        OtherFollows(config, start, Run(config, start, before), before, last);
      }
    }
  }

  /** With one EOSE the committed list is exactly the newest of the accepted events. */
  lemma OneEose(config: Config, start: View, inputs: seq<Input>)
    requires Session(config, start, inputs) && Eoses(config, inputs) == 1
    ensures IsNewest(Run(config, start, inputs).committed, Events(config, inputs), config.maxEvents)
  {
    SessionLaw(config, start, inputs);
    RetainedEvents(config, inputs);
  }

  /**
   * Confluence: sessions with the same accepted events and one EOSE each end with the same committed list and the same
   * snapshot, its EOSE time aside, whatever the arrival order, the duplicates and the place of the EOSE.
   */
  lemma Confluence(config: Config, a: View, xs: seq<Input>, b: View, ys: seq<Input>)
    requires Session(config, a, xs) && Session(config, b, ys) && Events(config, xs) == Events(config, ys)
    requires Eoses(config, xs) == 1 == Eoses(config, ys)
    ensures var v, w := Run(config, a, xs), Run(config, b, ys);
            && v.committed == w.committed && v.snapshot.Some? && w.snapshot.Some?
            && v.snapshot.value == w.snapshot.value.(eoseAt := v.snapshot.value.eoseAt)
  {
    SessionLaw(config, a, xs);
    SessionLaw(config, b, ys);
    OneEose(config, a, xs);
    OneEose(config, b, ys);
    var v, w := Run(config, a, xs), Run(config, b, ys);
    NewestUnique(v.committed, w.committed, Events(config, xs), config.maxEvents);
  }

  /** After further EOSEs the committed list is complete exactly when, for every dropped event, enough of the retained
      events are newer. */
  lemma ManyEoses(config: Config, start: View, inputs: seq<Input>)
    requires Session(config, start, inputs) && Eoses(config, inputs) >= 2
    ensures var v := Run(config, start, inputs);
            IsNewest(v.committed, Events(config, inputs), config.maxEvents) <==>
            forall e :: e in Events(config, inputs) - Retained(config, inputs) ==>
              |Above(Retained(config, inputs), e)| >= config.maxEvents
  {
    SessionLaw(config, start, inputs);
    RetainedEvents(config, inputs);
    CompleteIff(Run(config, start, inputs).committed, Retained(config, inputs), Events(config, inputs),
                config.maxEvents);
  }

  lemma CompleteIff(events: seq<Event>, kept: set<Event>, all: set<Event>, limit: nat)
    requires IsNewest(events, kept, limit) && kept <= all
    ensures IsNewest(events, all, limit) <==> forall e :: e in all - kept ==> |Above(kept, e)| >= limit
  {
    forall e | e in all - kept ensures Crowded(events, limit, e) <==> |Above(kept, e)| >= limit {
      CrowdedIffAbove(events, kept, limit, e);
    }
  }

  /** A second EOSE with nothing in between empties the committed list. */
  lemma SecondEoseDrops(config: Config, start: View, e: Event, t: nat, u: nat)
    requires config.Valid() && start.mode == Snapshotting && start.pending == []
    ensures var sub := Some(config.subscriptionId);
            var inputs := [Text(EventFrame(3, sub, Some(Accept(e))), t), Text(Eose(2, sub), t), Text(Eose(2, sub), u)];
            && Run(config, start, inputs).committed == [] && e in Events(config, inputs)
            && !IsNewest(Run(config, start, inputs).committed, Events(config, inputs), config.maxEvents)
  {
    var sub := Some(config.subscriptionId);
    var i0, i1, i2 := Text(EventFrame(3, sub, Some(Accept(e))), t), Text(Eose(2, sub), t), Text(Eose(2, sub), u);
    assert [i0, i1, i2][..2] == [i0, i1] && [i0, i1][..1] == [i0] && [i0][..0] == [];
    assert e in Events(config, [i0]) && e in Events(config, [i0, i1]);
    assert Run(config, start, [i0, i1]).pending == [];
  }
}
