/** The connection mode after any inputs, read off the inputs: the last control input decides it, and a live client is
    stale exactly from a tick that came too late until the next new event. */
module ClientModes {
  import opened ByteStrings
  import opened EventStore
  import opened ClientSnapshot
  import opened Client
  import opened ClientRuns

  // ----- what the inputs say -----

  /** Connecting, opening, disconnecting, and the EOSE and CLOSED frames of the subscription. */
  predicate IsControl(config: Config, input: Input) {
    input.BeginConnect? || input.Opened? || input.Disconnected? || IsEose(config, input) || IsClosed(config, input)
  }

  ghost predicate AnyEose(config: Config, inputs: seq<Input>) {
    exists i :: 0 <= i < |inputs| && IsEose(config, inputs[i])
  }

  /** An input that resets the clock: opening, or a frame that decodes. */
  predicate IsSign(input: Input) { input.Opened? || (input.Text? && !input.frame.Malformed?) }

  function TimeOf(input: Input): nat
    requires IsSign(input)
  {
    if input.Opened? then input.now else input.at
  }

  /** The time of the last sign of life. */
  function LastSign(inputs: seq<Input>): Option<nat> {
    if inputs == [] then None
    else if IsSign(inputs[|inputs| - 1]) then Some(TimeOf(inputs[|inputs| - 1]))
    else LastSign(inputs[..|inputs| - 1])
  }

  function After(config: Config, inputs: seq<Input>): View { Run(config, Initial(), inputs) }

  lemma AfterSnoc(config: Config, inputs: seq<Input>, input: Input)
    ensures After(config, inputs + [input]) == Apply(config, After(config, inputs), input).0
  {
    assert (inputs + [input])[..|inputs|] == inputs;
  }

  /** A snapshot is there exactly once there has been an EOSE, and the clock shows the last sign of life. */
  lemma {:induction false} SnapshotIffEose(config: Config, inputs: seq<Input>)
    requires config.Valid()
    ensures After(config, inputs).snapshot.Some? <==> AnyEose(config, inputs)
    ensures After(config, inputs).lastFrameAt == LastSign(inputs)
  {
    if inputs != [] {
      var n := |inputs| - 1;
      var front, last := inputs[..n], inputs[n];
      SnapshotIffEose(config, front);
      RunInvariant(config, front);
      assert AnyEose(config, inputs) <==> AnyEose(config, front) || IsEose(config, last) by {
        if i :| 0 <= i < |front| && IsEose(config, front[i]) { assert IsEose(config, inputs[i]); }
        if i :| 0 <= i < |inputs| && IsEose(config, inputs[i]) { assert i < n ==> IsEose(config, front[i]); }
      }
      StepSnapshot(config, After(config, front), last);
    }
  }

  lemma StepSnapshot(config: Config, v: View, input: Input)
    requires v.mode in {Live, Stale} ==> v.snapshot.Some?
    ensures var w := Apply(config, v, input).0;
            && (w.snapshot.Some? <==> v.snapshot.Some? || IsEose(config, input))
            && w.lastFrameAt == if IsSign(input) then Some(TimeOf(input)) else v.lastFrameAt
  {
  }

  // ----- the last control input decides -----

  ghost predicate IsLastControl(config: Config, inputs: seq<Input>, k: int) {
    0 <= k < |inputs| && IsControl(config, inputs[k]) && forall i :: k < i < |inputs| ==> !IsControl(config, inputs[i])
  }

  /** The mode right after a control input, `seen` telling whether there has been an EOSE before. */
  ghost predicate ModeAfter(config: Config, input: Input, seen: bool, mode: Mode) {
    && (input.BeginConnect? ==> mode == if seen then Reconnecting else Connecting)
    && (input.Opened? ==> mode == Snapshotting)
    && (input.Disconnected? ==> mode == if seen then Reconnecting else Unavailable)
    && (IsEose(config, input) ==> mode == Live)
    && (IsClosed(config, input) ==> mode == Unavailable)
  }

  lemma ControlStep(config: Config, v: View, input: Input)
    requires IsControl(config, input)
    ensures ModeAfter(config, input, v.snapshot.Some?, Apply(config, v, input).0.mode)
  {
  }

  ghost predicate SameMode(a: Mode, b: Mode) { a == b || (a in {Live, Stale} && b in {Live, Stale}) }

  lemma OtherStep(config: Config, v: View, input: Input)
    requires !IsControl(config, input)
    ensures SameMode(v.mode, Apply(config, v, input).0.mode)
  {
  }

  /** Without any control input the client is still connecting. */
  lemma {:induction false} NoControl(config: Config, inputs: seq<Input>)
    requires forall i :: 0 <= i < |inputs| ==> !IsControl(config, inputs[i])
    ensures After(config, inputs).mode == Connecting
  {
    if inputs != [] {
      var n := |inputs| - 1;
      NoControl(config, inputs[..n]);
      OtherStep(config, After(config, inputs[..n]), inputs[n]);
    }
  }

  /** The mode is the one the last control input leads to, live and stale taken together. */
  lemma {:induction false} ModeIs(config: Config, inputs: seq<Input>, k: nat) returns (mode: Mode)
    requires config.Valid() && IsLastControl(config, inputs, k)
    ensures ModeAfter(config, inputs[k], AnyEose(config, inputs[..k]), mode)
    ensures SameMode(mode, After(config, inputs).mode)
  {
    var n := |inputs| - 1;
    if k == n {
      SnapshotIffEose(config, inputs[..n]);
      ControlStep(config, After(config, inputs[..n]), inputs[n]);
      mode := After(config, inputs).mode;
    } else {
      assert IsLastControl(config, inputs[..n], k);
      mode := ModeIs(config, inputs[..n], k);
      assert inputs[..n][..k] == inputs[..k];
      OtherStep(config, After(config, inputs[..n]), inputs[n]);
    }
  }

  /** CLOSED keeps what was committed and its snapshot, and drops what is pending. */
  lemma ClosedKeeps(config: Config, inputs: seq<Input>, input: Input)
    requires IsClosed(config, input)
    ensures var v, w := After(config, inputs), After(config, inputs + [input]);
            w.mode == Unavailable && w.pending == [] && w.committed == v.committed && w.snapshot == v.snapshot
  {
    AfterSnoc(config, inputs, input);
  }

  // ----- live or stale -----

  /** A tick that comes more than the allowed delay after the last sign of life. */
  ghost predicate Trips(inputs: seq<Input>, j: nat)
    requires j < |inputs|
  {
    && inputs[j].MarkStale? && LastSign(inputs[..j]).Some?
    && inputs[j].now > LastSign(inputs[..j]).value + inputs[j].after
  }

  /** An accepted event whose identifier is not among the committed ones. */
  ghost predicate Refreshes(config: Config, inputs: seq<Input>, i: nat)
    requires i < |inputs|
  {
    && Accepts(config, inputs[i])
    && !HasId(After(config, inputs[..i]).committed, EventOf(config, inputs[i]).id)
  }

  lemma LiveStep(config: Config, v: View, input: Input)
    requires v.mode in {Live, Stale} && !IsControl(config, input)
    ensures var w := Apply(config, v, input).0;
            w.mode == Stale <==>
            || (input.MarkStale? && v.lastFrameAt.Some? && input.now > v.lastFrameAt.value + input.after)
            || (v.mode == Stale && !(Accepts(config, input) && !HasId(v.committed, EventOf(config, input).id)))
  {
  }

  /** Some tick since the EOSE came too late, and no new event since. */
  ghost predicate IsStale(config: Config, inputs: seq<Input>, k: nat) {
    exists j :: k < j < |inputs| && Trips(inputs, j) && forall i :: j < i < |inputs| ==> !Refreshes(config, inputs, i)
  }

  /** After an EOSE the client is stale exactly from a late tick until the next new event, and live otherwise. */
  lemma {:induction false} StaleIff(config: Config, inputs: seq<Input>, k: nat)
    requires config.Valid() && IsLastControl(config, inputs, k) && IsEose(config, inputs[k])
    ensures After(config, inputs).mode in {Live, Stale}
    ensures After(config, inputs).mode == Stale <==> IsStale(config, inputs, k)
  {
    var n := |inputs| - 1;
    if k < n {
      var front, last := inputs[..n], inputs[n];
      assert IsLastControl(config, front, k);
      StaleIff(config, front, k);
      SnapshotIffEose(config, front);
      LiveStep(config, After(config, front), last);
      StaleStep(config, inputs, k);
    }
  }

  lemma StaleStep(config: Config, inputs: seq<Input>, k: nat)
    requires k < |inputs| - 1
    ensures var n := |inputs| - 1;
            IsStale(config, inputs, k) <==>
            Trips(inputs, n) || (IsStale(config, inputs[..n], k) && !Refreshes(config, inputs, n))
  {
    var n := |inputs| - 1;
    var front := inputs[..n];
    forall j | 0 <= j < n
      ensures (Trips(front, j) <==> Trips(inputs, j)) && (Refreshes(config, front, j) <==> Refreshes(config, inputs, j))
    {
      assert front[..j] == inputs[..j];
    }
  }
}
