/** The project subscription client: connection modes, the EOSE boundary and the cached snapshot. */
module Client {
  import opened ByteStrings
  import opened EventStore
  import opened ClientSnapshot

  const MAX_DIAGNOSTICS := 32

  datatype Mode = Connecting | Snapshotting | Live | Reconnecting | Stale | Unavailable

  /** What the structure, signature and relevance checks say about an event. */
  datatype Verdict = Accept(event: Event) | Irrelevant | Reject(message: string)

  /** A relay frame after JSON decoding: its arity and the parts the client looks at. */
  datatype Frame =
    | Malformed
    | EventFrame(arity: nat, sub: Option<string>, payload: Option<Verdict>)
    | Eose(arity: nat, sub: Option<string>)
    | Closed(arity: nat, sub: Option<string>, reason: Option<string>)
    | Notice(message: Option<string>)
    | Other

  datatype Input = BeginConnect | Opened(now: nat) | Disconnected | MarkStale(now: nat, after: nat)
    | Text(frame: Frame, at: nat)

  /** Whether the visible state changed, or the frame was refused. */
  datatype Outcome = Changed(visible: bool) | Refused

  datatype View = View(
    mode: Mode, pending: seq<Event>, committed: seq<Event>, snapshot: Option<Snapshot>, diagnostics: seq<string>,
    lastFrameAt: Option<nat>)

  function Initial(): View { View(Connecting, [], [], None, [], None) }

  // ----- transitions -----

  function Push(diagnostics: seq<string>, message: string): seq<string> {
    (if |diagnostics| == MAX_DIAGNOSTICS then diagnostics[1..] else diagnostics) + [message]
  }

  /** The last `limit` elements. */
  function LastOf(s: seq<string>, limit: nat): seq<string> { if |s| <= limit then s else s[|s| - limit..] }

  /** Pushing keeps the list of the latest messages. */
  lemma PushLatest(messages: seq<string>, message: string)
    ensures Push(LastOf(messages, MAX_DIAGNOSTICS), message) == LastOf(messages + [message], MAX_DIAGNOSTICS)
  {
  }

  function IngestEvent(config: Config, v: View, e: Event, now: nat): (View, Outcome) {
    if v.mode == Live || v.mode == Stale then
      var (committed, changed) := InsertBounded(v.committed, e, config.maxEvents);
      if changed then
        var at := match v.snapshot case Some(s) => s.eoseAt case None => now;
        (v.(committed := committed, snapshot := Some(Build(config, committed, at)), mode := Live), Changed(true))
      else (v, Changed(false))
    else (v.(pending := InsertBounded(v.pending, e, config.maxEvents).0), Changed(false))
  }

  function IngestEose(config: Config, v: View, now: nat): View {
    v.(committed := v.pending, pending := [], snapshot := Some(Build(config, v.pending, now)), mode := Live)
  }

  function Ingest(config: Config, v: View, frame: Frame, now: nat): (View, Outcome) {
    match frame
    case Malformed => (v, Refused)
    case Other => (v.(lastFrameAt := Some(now)), Changed(false))
    case Notice(message) =>
      var w := v.(lastFrameAt := Some(now));
      (if message.Some? then w.(diagnostics := Push(w.diagnostics, message.value)) else w, Changed(false))
    case EventFrame(arity, sub, payload) =>
      var w := v.(lastFrameAt := Some(now));
      if arity != 3 then (w, Refused)
      else if sub != Some(config.subscriptionId) then (w, Changed(false))
      else if payload.None? then (w, Refused)
      else
        (match payload.value
         case Irrelevant => (w, Changed(false))
         case Reject(message) => (w.(diagnostics := Push(w.diagnostics, message)), Changed(false))
         case Accept(e) => IngestEvent(config, w, e, now))
    case Eose(arity, sub) =>
      var w := v.(lastFrameAt := Some(now));
      if arity != 2 then (w, Refused)
      else if sub != Some(config.subscriptionId) then (w, Changed(false))
      else (IngestEose(config, w, now), Changed(true))
    case Closed(arity, sub, reason) =>
      var w := v.(lastFrameAt := Some(now));
      if arity != 3 then (w, Refused)
      else if sub != Some(config.subscriptionId) then (w, Changed(false))
      else if reason.None? then (w, Refused)
      else (w.(diagnostics := Push(w.diagnostics, reason.value), pending := [], mode := Unavailable), Changed(true))
  }

  predicate GoesStale(v: View, now: nat, after: nat) {
    v.mode == Live && v.lastFrameAt.Some? && now > v.lastFrameAt.value && now - v.lastFrameAt.value > after
  }

  function Apply(config: Config, v: View, input: Input): (View, Outcome) {
    match input
    case BeginConnect =>
      (v.(pending := [], mode := if v.snapshot.Some? then Reconnecting else Connecting), Changed(true))
    case Opened(now) => (v.(pending := [], lastFrameAt := Some(now), mode := Snapshotting), Changed(true))
    case Disconnected =>
      (v.(pending := [], mode := if v.snapshot.Some? then Reconnecting else Unavailable), Changed(true))
    case MarkStale(now, after) =>
      if GoesStale(v, now, after) then (v.(mode := Stale), Changed(true)) else (v, Changed(false))
    case Text(frame, at) => Ingest(config, v, frame, at)
  }

  // ----- the invariant -----

  ghost predicate StoreOk(events: seq<Event>, limit: nat) { Sorted(events) && DistinctIds(events) && |events| <= limit }

  /** The cached snapshot is the one of the committed events at the time of the last EOSE, if there was one. */
  ghost predicate Cached(config: Config, v: View, eose: Option<nat>) {
    v.snapshot == match eose case None => None case Some(t) => Some(Build(config, v.committed, t))
  }

  ghost predicate Invariant(config: Config, v: View, eose: Option<nat>) {
    && StoreOk(v.pending, config.maxEvents) && StoreOk(v.committed, config.maxEvents)
    && Cached(config, v, eose)
    && (v.mode in {Live, Stale, Reconnecting} ==> v.snapshot.Some?)
    && (v.mode in {Live, Stale} ==> v.pending == [])
    && |v.diagnostics| <= MAX_DIAGNOSTICS
  }

  predicate IsEose(config: Config, input: Input) {
    input.Text? && input.frame.Eose? && input.frame.arity == 2 && input.frame.sub == Some(config.subscriptionId)
  }

  function EoseAfter(config: Config, eose: Option<nat>, input: Input): Option<nat> {
    if IsEose(config, input) then Some(input.at) else eose
  }

  lemma InsertKeepsStore(events: seq<Event>, e: Event, limit: nat)
    requires StoreOk(events, limit)
    ensures StoreOk(InsertBounded(events, e, limit).0, limit)
  {
    InsertKeepsSorted(events, e, limit);
    InsertKeepsDistinct(events, e, limit);
  }

  /** Every transition keeps the invariant. */
  lemma StepKeepsInvariant(config: Config, v: View, eose: Option<nat>, input: Input)
    requires config.Valid() && Invariant(config, v, eose)
    ensures Invariant(config, Apply(config, v, input).0, EoseAfter(config, eose, input))
  {
    if input.Text? { FrameKeepsInvariant(config, v, eose, input.frame, input.at); }
  }

  lemma FrameKeepsInvariant(config: Config, v: View, eose: Option<nat>, frame: Frame, now: nat)
    requires config.Valid() && Invariant(config, v, eose)
    ensures Invariant(config, Ingest(config, v, frame, now).0, EoseAfter(config, eose, Text(frame, now)))
  {
    if frame.EventFrame? && frame.payload.Some? && frame.payload.value.Accept? {
      EventKeepsInvariant(config, v.(lastFrameAt := Some(now)), eose, frame.payload.value.event, now);
    }
  }

  lemma EventKeepsInvariant(config: Config, v: View, eose: Option<nat>, e: Event, now: nat)
    requires config.Valid() && Invariant(config, v, eose)
    ensures Invariant(config, IngestEvent(config, v, e, now).0, eose)
  {
    InsertKeepsStore(v.pending, e, config.maxEvents);
    InsertKeepsStore(v.committed, e, config.maxEvents);
  }

  /** A frame that reports no visible change leaves the snapshot, the committed events and the mode alone. */
  lemma UnchangedMeansUnchanged(config: Config, v: View, frame: Frame, now: nat)
    requires Ingest(config, v, frame, now).1 != Changed(true)
    ensures var w := Ingest(config, v, frame, now).0;
            w.snapshot == v.snapshot && w.committed == v.committed && w.mode == v.mode
  {
  }

  /** The frames that are refused: undecodable, of the wrong size, or without the part the subscription needs. */
  lemma RefusedIff(config: Config, v: View, frame: Frame, now: nat)
    ensures Ingest(config, v, frame, now).1 == Refused <==>
            || frame.Malformed?
            || (frame.Eose? && frame.arity != 2)
            || (frame.EventFrame? &&
                (frame.arity != 3 || (frame.sub == Some(config.subscriptionId) && frame.payload == None)))
            || (frame.Closed? &&
                (frame.arity != 3 || (frame.sub == Some(config.subscriptionId) && frame.reason == None)))
  {
    if frame.EventFrame? && frame.payload.Some? && frame.payload.value.Accept? {
      assert IngestEvent(config, v.(lastFrameAt := Some(now)), frame.payload.value.event, now).1.Changed?;
    }
  }

  /** A new event always reports a change; neither the list nor the snapshot changes exactly when the list is full of
      newer events. */
  lemma ReportedButUnchanged(config: Config, v: View, eose: Option<nat>, e: Event, now: nat)
    requires config.Valid() && Invariant(config, v, eose) && v.mode in {Live, Stale}
    ensures var (w, r) := IngestEvent(config, v, e, now);
            && (r == Changed(true) <==> !HasId(v.committed, e.id))
            && (!HasId(v.committed, e.id) ==>
                (w.committed == v.committed <==> Crowded(v.committed, config.maxEvents, e)))
            && (w.committed == v.committed ==> w.snapshot == v.snapshot)
  {
    if !HasId(v.committed, e.id) { InsertChangesNothing(v.committed, e, config.maxEvents); }
  }

  // ----- the object -----

  class ProjectClient {
    const config: Config
    var mode: Mode
    var pending: seq<Event>
    var committed: seq<Event>
    var snapshot: Option<Snapshot>
    var diagnostics: seq<string>
    var lastFrameAt: Option<nat>
    ghost var eose: Option<nat>

    /** The invariant holds for the time of the last EOSE of the subscription. */
    ghost predicate Valid()
      reads this
    {
      config.Valid() && Invariant(config, Contents(), eose)
    }

    ghost function Contents(): View
      reads this
    {
      View(mode, pending, committed, snapshot, diagnostics, lastFrameAt)
    }

    constructor (config: Config)
      ensures this.config == config && Contents() == Initial() && eose == None
      ensures config.Valid() ==> Valid()
    {
      this.config, eose := config, None;
      mode, pending, committed, snapshot, diagnostics, lastFrameAt := Connecting, [], [], None, [], None;
    }

    method Connect()
      modifies this
      ensures Contents() == Apply(config, old(Contents()), BeginConnect).0
      ensures eose == old(eose) && (old(Valid()) ==> Valid())
    {
      if Valid() { StepKeepsInvariant(config, Contents(), eose, BeginConnect); }
      pending := [];
      mode := if snapshot.Some? then Reconnecting else Connecting;
    }

    method Open(now: nat)
      modifies this
      ensures Contents() == Apply(config, old(Contents()), Opened(now)).0
      ensures eose == old(eose) && (old(Valid()) ==> Valid())
    {
      if Valid() { StepKeepsInvariant(config, Contents(), eose, Opened(now)); }
      pending, lastFrameAt, mode := [], Some(now), Snapshotting;
    }

    method Disconnect()
      modifies this
      ensures Contents() == Apply(config, old(Contents()), Disconnected).0
      ensures eose == old(eose) && (old(Valid()) ==> Valid())
    {
      if Valid() { StepKeepsInvariant(config, Contents(), eose, Disconnected); }
      pending := [];
      mode := if snapshot.Some? then Reconnecting else Unavailable;
    }

    /** Saturating subtraction: a clock that went back is no delay. */
    method Age(now: nat, after: nat) returns (stale: bool)
      modifies this
      ensures (Contents(), Changed(stale)) == Apply(config, old(Contents()), MarkStale(now, after))
      ensures eose == old(eose) && (old(Valid()) ==> Valid())
    {
      if Valid() { StepKeepsInvariant(config, Contents(), eose, MarkStale(now, after)); }
      var delay := if lastFrameAt.Some? && now > lastFrameAt.value then now - lastFrameAt.value else 0;
      stale := mode == Live && lastFrameAt.Some? && delay > after;
      if stale { mode := Stale; }
    }

    /** Keeps the last 32 messages; a list that was within the bound stays within it. */
    method PushDiagnostic(message: string)
      modifies this`diagnostics
      ensures diagnostics == Push(old(diagnostics), message)
      ensures |old(diagnostics)| <= MAX_DIAGNOSTICS ==>
              diagnostics == LastOf(old(diagnostics) + [message], MAX_DIAGNOSTICS)
    {
      if |diagnostics| <= MAX_DIAGNOSTICS { PushLatest(diagnostics, message); }
      if |diagnostics| == MAX_DIAGNOSTICS { diagnostics := diagnostics[1..]; }
      diagnostics := diagnostics + [message];
    }

    method ReceiveEvent(e: Event, now: nat) returns (r: Outcome)
      modifies this
      ensures (Contents(), r) == IngestEvent(config, old(Contents()), e, now)
      ensures eose == old(eose) && (old(Valid()) ==> Valid())
    {
      if Valid() { EventKeepsInvariant(config, Contents(), eose, e, now); }
      if mode == Live || mode == Stale {
        var changed;
        committed, changed := Insert(committed, e, config.maxEvents);
        if changed {
          var at := match snapshot case Some(s) => s.eoseAt case None => now;
          snapshot := Some(Build(config, committed, at));
          mode := Live;
          return Changed(true);
        }
      } else {
        var added;
        pending, added := Insert(pending, e, config.maxEvents);
      }
      return Changed(false);
    }

    method Receive(frame: Frame, now: nat) returns (r: Outcome)
      modifies this
      ensures (Contents(), r) == Apply(config, old(Contents()), Text(frame, now))
      ensures eose == EoseAfter(config, old(eose), Text(frame, now)) && (old(Valid()) ==> Valid())
    {
      if Valid() { StepKeepsInvariant(config, Contents(), eose, Text(frame, now)); }
      if frame.Malformed? { return Refused; }
      lastFrameAt := Some(now);
      match frame
      case EventFrame(arity, sub, payload) =>
        if arity != 3 { return Refused; }
        if sub != Some(config.subscriptionId) { return Changed(false); }
        if payload.None? { return Refused; }
        match payload.value {
          case Irrelevant => return Changed(false);
          case Reject(message) =>
            PushDiagnostic(message);
            return Changed(false);
          case Accept(e) => r := ReceiveEvent(e, now);
        }
      case Eose(arity, sub) =>
        if arity != 2 { return Refused; }
        if sub != Some(config.subscriptionId) { return Changed(false); }
        eose := Some(now);
        committed, pending := pending, [];
        snapshot := Some(Build(config, committed, now));
        mode := Live;
        return Changed(true);
      case Closed(arity, sub, reason) =>
        if arity != 3 { return Refused; }
        if sub != Some(config.subscriptionId) { return Changed(false); }
        if reason.None? { return Refused; }
        PushDiagnostic(reason.value);
        pending, mode := [], Unavailable;
        return Changed(true);
      case Notice(message) =>
        if message.Some? { PushDiagnostic(message.value); }
        return Changed(false);
      case Other => return Changed(false);
    }
  }
}
