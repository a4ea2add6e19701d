/** The quorum engine as a state machine over claims, payloads and local epoch changes. */
module Engine {
  import opened Wrappers
  import opened Bytes
  import opened Ordering
  import opened Counters
  import opened Claims

  /** One line of the report's log; no reason means accepted. */
  datatype Observation = Observation(epoch: U64, source: Text, sender: Text, hash: Text, refusal: Option<Reason>)

  datatype State = State(
    threshold: nat,
    epoch: U64,
    limits: Limits,
    seen: set<Text>,
    votes: map<Key, nat>,
    observations: seq<Observation>,
    rejectionsSeen: nat,
    accepted: nat,
    rejected: map<Reason, nat>)

  datatype Input =
    | Gossip(data: seq<Byte>, source: Text)
    | FromPeer(claim: Claim, peer: Text)
    | Replayed(record: Claim)
    | Advance(to: U64)
    | Tick

  // ---------------------------------------------------------------- construction and local epoch changes

  function RaisedCeiling(ceiling: U64, epoch: U64, skew: U64): U64 {
    Higher(ceiling, Lower(SatAdd(epoch, skew), EPOCH_ABSOLUTE_MAX))
  }

  function Initial(threshold: nat, epoch: U64, limits: Limits): State {
    var widened := limits.(
      maxSenders := Max(Max(limits.maxSenders, threshold), 1),
      maxEpoch := RaisedCeiling(limits.maxEpoch, epoch, limits.maxEpochSkew));
    State(threshold, epoch, widened, {}, map[], [], 0, 0, map[])
  }

  function Reset(s: State, epoch: U64): State {
    State(s.threshold, epoch, s.limits, {}, map[], [], 0, 0, map[])
  }

  function AdvanceTo(s: State, epoch: U64): State {
    Reset(s.(limits := s.limits.(maxEpoch := RaisedCeiling(s.limits.maxEpoch, epoch, s.limits.maxEpochSkew))), epoch)
  }

  // ---------------------------------------------------------------- the gates

  /** Refused, with or without a line in the log; or passed with the votes it casts. */
  datatype Verdict = Refused(reason: Reason, logged: bool) | Passed(keys: seq<Key>)

  /** Gates 1 to 6: nothing is written before all of them pass. */
  function Gates(env: Env, s: State, c: Claim, source: Text): Verdict {
    var shape := ShapeViolation(s.limits, c);
    if shape.Some? then Refused(shape.value, false)
    else if c.sender != source then Refused(SourceMismatch, false)
    else if c.hash != env.digest(c.epoch, c.sender, c.entries) then Refused(ClaimHashMismatch, true)
    else if c.epoch < s.epoch then Refused(StaleEpoch, true)
    else if c.epoch > SatAdd(s.epoch, s.limits.maxEpochSkew) then Refused(EpochJumpTooLarge, true)
    else
      match VoteKeys(env, c.entries)
      case Failure(reason) => Refused(reason, true)
      case Success(keys) => Passed(keys)
  }

  /** Gate 7: a newer claim that passed moves the engine to its epoch. */
  function Adopted(s: State, epoch: U64): State {
    if epoch > s.epoch then Reset(s, epoch) else s
  }

  /** Gate 8: the sender cap and the one-claim-per-sender rule. */
  function Admission(s: State, sender: Text): Option<Reason> {
    if sender !in s.seen && |s.seen| >= s.limits.maxSenders then Some(SenderLimitExceeded)
    else if sender in s.seen then Some(DuplicateSender)
    else None
  }

  function Judge(env: Env, s: State, c: Claim, source: Text): Verdict {
    match Gates(env, s, c, source)
    case Refused(reason, logged) => Refused(reason, logged)
    case Passed(keys) =>
      var refusal := Admission(Adopted(s, c.epoch), c.sender);
      if refusal.Some? then Refused(refusal.value, true) else Passed(keys)
  }

  // ---------------------------------------------------------------- what each outcome writes

  function CountRejection(s: State, reason: Reason): State {
    s.(rejected := Bump(s.rejected, reason))
  }

  function RecordRejection(s: State, c: Claim, source: Text, reason: Reason): State {
    var line := Observation(c.epoch, source, c.sender, c.hash, Some(reason));
    CountRejection(s.(
      rejectionsSeen := s.rejectionsSeen + 1,
      observations := if s.rejectionsSeen + 1 <= s.limits.maxRejectionObservations then s.observations + [line]
                      else s.observations), reason)
  }

  function Tally(votes: map<Key, nat>, keys: seq<Key>): map<Key, nat> {
    if keys == [] then votes else Bump(Tally(votes, keys[..|keys| - 1]), keys[|keys| - 1])
  }

  /** Gate 9. */
  function Admitted(env: Env, s: State, c: Claim, source: Text, keys: seq<Key>): State {
    s.(
      seen := s.seen + {c.sender},
      votes := Tally(s.votes, keys),
      observations := s.observations +
        [Observation(s.epoch, source, c.sender, env.digest(c.epoch, c.sender, c.entries), None)],
      accepted := s.accepted + 1)
  }

  /** Gates 8 and 9, in the epoch the claim named. */
  function Settled(env: Env, s: State, c: Claim, source: Text, keys: seq<Key>): State {
    var refusal := Admission(s, c.sender);
    if refusal.Some? then RecordRejection(s, c, source, refusal.value) else Admitted(env, s, c, source, keys)
  }

  function Receive(env: Env, s: State, c: Claim, source: Text): State {
    match Gates(env, s, c, source)
    case Refused(reason, logged) =>
      if logged then RecordRejection(s, c, source, reason) else CountRejection(s, reason)
    case Passed(keys) => Settled(env, Adopted(s, c.epoch), c, source, keys)
  }

  /** The claim an input delivers with its source, or why none was delivered. */
  function Delivery(env: Env, s: State, i: Input): Result<(Claim, Text), Reason>
    requires !i.Advance? && !i.Tick?
  {
    match i
    case Gossip(data, source) =>
      if |data| > MAX_CLAIM_BYTES then Failure(OversizeClaim)
      else if env.decode(data).None? then Failure(MalformedClaim)
      else Success((env.decode(data).value, source))
    case FromPeer(c, source) => Success((c, source))
    case Replayed(c) =>
      if |c.sender| > s.limits.maxSenderIdLen then Failure(InvalidSenderId)
      else if env.peer(c.sender).None? then Failure(UnparsableSender)
      else Success((c, env.peer(c.sender).value))
  }

  predicate Local(i: Input) {
    i.Advance? || i.Tick?
  }

  function Step(env: Env, s: State, i: Input): State {
    match i
    case Advance(epoch) => AdvanceTo(s, epoch)
    case Tick => AdvanceTo(s, SatAdd(s.epoch, 1))
    case _ =>
      match Delivery(env, s, i)
      case Failure(reason) => CountRejection(s, reason)
      case Success(d) => Receive(env, s, d.0, d.1)
  }

  function Run(env: Env, s: State, inputs: seq<Input>): State {
    if inputs == [] then s else Step(env, Run(env, s, inputs[..|inputs| - 1]), inputs[|inputs| - 1])
  }

  /** The verdict on an input that delivers something. */
  function VerdictOn(env: Env, s: State, i: Input): Verdict
    requires !Local(i)
  {
    match Delivery(env, s, i)
    case Failure(reason) => Refused(reason, false)
    case Success(d) => Judge(env, s, d.0, d.1)
  }

  predicate Rejects(env: Env, s: State, i: Input) {
    !Local(i) && VerdictOn(env, s, i).Refused?
  }

  predicate Accepts(env: Env, s: State, i: Input) {
    !Local(i) && VerdictOn(env, s, i).Passed?
  }

  // ---------------------------------------------------------------- rejected input never moves the engine

  /** Everything but the record of rejections. */
  datatype Core = Core(
    threshold: nat, epoch: U64, limits: Limits, seen: set<Text>, votes: map<Key, nat>, accepted: nat,
    log: seq<Observation>)

  /** The accepted lines of the log. */
  function AcceptedLines(log: seq<Observation>): seq<Observation> {
    if log == [] then []
    else
      var last := log[|log| - 1];
      AcceptedLines(log[..|log| - 1]) + if last.refusal.None? then [last] else []
  }

  function CoreOf(s: State): Core {
    Core(s.threshold, s.epoch, s.limits, s.seen, s.votes, s.accepted, AcceptedLines(s.observations))
  }

  lemma LinesAppend(log: seq<Observation>, line: Observation)
    ensures AcceptedLines(log + [line]) == AcceptedLines(log) + if line.refusal.None? then [line] else []
  {
    assert (log + [line])[..|log|] == log;
  }

  lemma RecordKeepsCore(s: State, c: Claim, source: Text, reason: Reason)
    ensures CoreOf(RecordRejection(s, c, source, reason)) == CoreOf(s)
  {
    LinesAppend(s.observations, Observation(c.epoch, source, c.sender, c.hash, Some(reason)));
  }

  /** The claim passed every check of its own but names a later epoch. */
  predicate Moves(env: Env, s: State, i: Input) {
    !Local(i) &&
    match Delivery(env, s, i)
    case Failure(_) => false
    case Success(d) => Gates(env, s, d.0, d.1).Passed? && d.0.epoch > s.epoch
  }

  lemma RefusedCore(env: Env, s: State, c: Claim, source: Text)
    requires Judge(env, s, c, source).Refused?
    ensures var moved := Gates(env, s, c, source).Passed? && c.epoch > s.epoch;
      && CoreOf(Receive(env, s, c, source)) == CoreOf(if moved then Reset(s, c.epoch) else s)
      && (moved ==> s.limits.maxSenders == 0)
  {
    match Gates(env, s, c, source) {
      case Refused(reason, _) => RecordKeepsCore(s, c, source, reason);
      case Passed(_) =>
        var now := Adopted(s, c.epoch);
        RecordKeepsCore(now, c, source, Admission(now, c.sender).value);
    }
  }

  /**
   * A refused input changes nothing but the record of refusals, except exactly when the
   * sender cap is zero and the claim passed gates 1 to 6 with a later epoch.
   */
  lemma RefusalMovesCoreIff(env: Env, s: State, i: Input)
    requires !Local(i)
    ensures Rejects(env, s, i) && CoreOf(Step(env, s, i)) != CoreOf(s) <==>
      Moves(env, s, i) && s.limits.maxSenders == 0
  {
    var d := Delivery(env, s, i);
    if d.Success? && Rejects(env, s, i) {
      RefusedCore(env, s, d.value.0, d.value.1);
    }
  }

  lemma AdoptedByCore(s: State, t: State, epoch: U64)
    requires CoreOf(s) == CoreOf(t)
    ensures CoreOf(Adopted(s, epoch)) == CoreOf(Adopted(t, epoch))
  {
  }

  lemma AdmittedByCore(env: Env, s: State, t: State, c: Claim, source: Text, keys: seq<Key>)
    requires CoreOf(s) == CoreOf(t)
    ensures CoreOf(Admitted(env, s, c, source, keys)) == CoreOf(Admitted(env, t, c, source, keys))
  {
    var line := Observation(s.epoch, source, c.sender, env.digest(c.epoch, c.sender, c.entries), None);
    LinesAppend(s.observations, line);
    LinesAppend(t.observations, line);
  }

  lemma SettledByCore(env: Env, s: State, t: State, c: Claim, source: Text, keys: seq<Key>)
    requires CoreOf(s) == CoreOf(t)
    ensures CoreOf(Settled(env, s, c, source, keys)) == CoreOf(Settled(env, t, c, source, keys))
  {
    var refusal := Admission(s, c.sender);
    if refusal.Some? {
      RecordKeepsCore(s, c, source, refusal.value);
      RecordKeepsCore(t, c, source, refusal.value);
    } else {
      AdmittedByCore(env, s, t, c, source, keys);
    }
  }

  lemma GatesByCore(env: Env, s: State, t: State, c: Claim, source: Text)
    requires CoreOf(s) == CoreOf(t)
    ensures Gates(env, s, c, source) == Gates(env, t, c, source)
  {
  }

  lemma JudgeByCore(env: Env, s: State, t: State, c: Claim, source: Text)
    requires CoreOf(s) == CoreOf(t)
    ensures Judge(env, s, c, source) == Judge(env, t, c, source)
  {
    GatesByCore(env, s, t, c, source);
    AdoptedByCore(s, t, c.epoch);
  }

  /** Only the core decides what happens to an input. */
  lemma VerdictByCore(env: Env, s: State, t: State, i: Input)
    requires CoreOf(s) == CoreOf(t) && !Local(i)
    ensures VerdictOn(env, s, i) == VerdictOn(env, t, i) && Delivery(env, s, i) == Delivery(env, t, i)
    ensures Moves(env, s, i) == Moves(env, t, i)
  {
    var d := Delivery(env, s, i);
    if d.Success? {
      GatesByCore(env, s, t, d.value.0, d.value.1);
      JudgeByCore(env, s, t, d.value.0, d.value.1);
    }
  }

  lemma ReceiveByCore(env: Env, s: State, t: State, c: Claim, source: Text)
    requires CoreOf(s) == CoreOf(t)
    ensures CoreOf(Receive(env, s, c, source)) == CoreOf(Receive(env, t, c, source))
  {
    GatesByCore(env, s, t, c, source);
    match Gates(env, s, c, source) {
      case Refused(reason, logged) =>
        RecordKeepsCore(s, c, source, reason);
        RecordKeepsCore(t, c, source, reason);
      case Passed(keys) =>
        AdoptedByCore(s, t, c.epoch);
        SettledByCore(env, Adopted(s, c.epoch), Adopted(t, c.epoch), c, source, keys);
    }
  }

  lemma StepByCore(env: Env, s: State, t: State, i: Input)
    requires CoreOf(s) == CoreOf(t)
    ensures CoreOf(Step(env, s, i)) == CoreOf(Step(env, t, i))
  {
    if !Local(i) && Delivery(env, s, i).Success? {
      var d := Delivery(env, s, i).value;
      ReceiveByCore(env, s, t, d.0, d.1);
    }
  }

  /** The run without those of its refused inputs that `drop` picks. */
  function Surviving(env: Env, s: State, inputs: seq<Input>, drop: set<nat>): seq<Input> {
    if inputs == [] then []
    else
      var n := |inputs| - 1;
      Surviving(env, s, inputs[..n], drop) +
      if n in drop && Rejects(env, Run(env, s, inputs[..n]), inputs[n]) then [] else [inputs[n]]
  }

  lemma RunAppend(env: Env, s: State, inputs: seq<Input>, i: Input)
    ensures Run(env, s, inputs + [i]) == Step(env, Run(env, s, inputs), i)
  {
    assert (inputs + [i])[..|inputs|] == inputs;
  }

  lemma StepKeepsCap(env: Env, s: State, i: Input)
    ensures Step(env, s, i).limits.maxSenders == s.limits.maxSenders && Step(env, s, i).threshold == s.threshold
  {
  }

  /** Deleting any of the refused inputs of any run changes nothing but the record of refusals. */
  lemma {:induction false} NonInterference(env: Env, s: State, inputs: seq<Input>, drop: set<nat>)
    requires s.limits.maxSenders >= 1
    ensures CoreOf(Run(env, s, Surviving(env, s, inputs, drop))) == CoreOf(Run(env, s, inputs))
    ensures Run(env, s, inputs).limits.maxSenders == s.limits.maxSenders
  {
    if inputs != [] {
      var n := |inputs| - 1;
      var kept := Surviving(env, s, inputs[..n], drop);
      var before := Run(env, s, inputs[..n]);
      NonInterference(env, s, inputs[..n], drop);
      StepKeepsCap(env, before, inputs[n]);
      if n in drop && Rejects(env, before, inputs[n]) {
        RefusalMovesCoreIff(env, before, inputs[n]);
        assert kept + [] == kept;
      } else {
        RunAppend(env, s, kept, inputs[n]);
        StepByCore(env, Run(env, s, kept), before, inputs[n]);
      }
    }
  }

  // ---------------------------------------------------------------- the epoch and its ceiling

  function Ticks(inputs: seq<Input>): nat {
    if inputs == [] then 0 else Ticks(inputs[..|inputs| - 1]) + if inputs[|inputs| - 1].Tick? then 1 else 0
  }

  /** Which inputs of a run are accepted claims. */
  function Outcomes(env: Env, s: State, inputs: seq<Input>): (r: seq<bool>)
    ensures |r| == |inputs|
  {
    if inputs == [] then []
    else
      var n := |inputs| - 1;
      Outcomes(env, s, inputs[..n]) + [Accepts(env, Run(env, s, inputs[..n]), inputs[n])]
  }

  function Trues(flags: seq<bool>): nat {
    if flags == [] then 0 else Trues(flags[..|flags| - 1]) + if flags[|flags| - 1] then 1 else 0
  }

  function Acceptances(env: Env, s: State, inputs: seq<Input>): nat {
    Trues(Outcomes(env, s, inputs))
  }

  predicate Anchored(s: State) {
    s.limits.maxEpoch >= Lower(s.epoch, EPOCH_ABSOLUTE_MAX)
  }

  /**
   * Setting up only widens: the sender cap to what the threshold needs and at least
   * one, the ceiling to what the starting epoch needs up to the absolute maximum.
   */
  lemma InitialAnchored(threshold: nat, epoch: U64, limits: Limits)
    ensures var w := Initial(threshold, epoch, limits).limits;
      && Anchored(Initial(threshold, epoch, limits))
      && w == limits.(maxSenders := w.maxSenders, maxEpoch := w.maxEpoch)
      && limits.maxEpoch <= w.maxEpoch <= Higher(limits.maxEpoch, EPOCH_ABSOLUTE_MAX)
      && limits.maxSenders <= w.maxSenders && threshold <= w.maxSenders && 1 <= w.maxSenders
      && w.maxSenders in {limits.maxSenders, threshold, 1}
  {
  }

  /** A claim never touches the limits and moves the epoch only upward, by at most the skew, within the ceiling. */
  lemma ClaimMovesEpoch(env: Env, s: State, i: Input)
    requires !Local(i) && s.limits.maxSenders >= 1
    ensures var t := Step(env, s, i);
      && t.limits == s.limits
      && s.epoch <= t.epoch <= SatAdd(s.epoch, s.limits.maxEpochSkew)
      && (t.epoch != s.epoch ==> Accepts(env, s, i) && t.epoch <= s.limits.maxEpoch)
  {
    if Rejects(env, s, i) {
      RefusalMovesCoreIff(env, s, i);
    }
  }

  lemma LocalMovesEpoch(env: Env, s: State, i: Input)
    requires Local(i)
    ensures var t := Step(env, s, i);
      && t.limits == s.limits.(maxEpoch := t.limits.maxEpoch)
      && s.limits.maxEpoch <= t.limits.maxEpoch <= Higher(s.limits.maxEpoch, EPOCH_ABSOLUTE_MAX)
      && Anchored(t)
      && (i.Tick? ==> s.epoch <= t.epoch <= s.epoch + 1)
      && (i.Advance? ==> t.epoch == i.to)
      && t.threshold == s.threshold && t.seen == {} && t.votes == map[] && t.observations == []
      && t.rejectionsSeen == 0 && t.accepted == 0 && t.rejected == map[]
  {
  }

  /** Over any run: the ceiling only rises, and never past the absolute maximum or where it started. */
  lemma {:induction false} CeilingBounds(env: Env, s: State, inputs: seq<Input>)
    requires s.limits.maxSenders >= 1
    ensures var t := Run(env, s, inputs);
      && t.limits == s.limits.(maxEpoch := t.limits.maxEpoch)
      && s.limits.maxEpoch <= t.limits.maxEpoch <= Higher(s.limits.maxEpoch, EPOCH_ABSOLUTE_MAX)
      && (Anchored(s) ==> Anchored(t))
  {
    if inputs != [] {
      var n := |inputs| - 1;
      var before := Run(env, s, inputs[..n]);
      CeilingBounds(env, s, inputs[..n]);
      if Local(inputs[n]) {
        LocalMovesEpoch(env, before, inputs[n]);
      } else {
        ClaimMovesEpoch(env, before, inputs[n]);
      }
    }
  }

  lemma StepRise(env: Env, s: State, i: Input)
    requires s.limits.maxSenders >= 1 && !i.Advance?
    ensures var t := Step(env, s, i);
      s.epoch <= t.epoch <= s.epoch +
        (if i.Tick? then 1 else 0) + if Accepts(env, s, i) then s.limits.maxEpochSkew else 0
  {
    if Local(i) {
      LocalMovesEpoch(env, s, i);
    } else {
      ClaimMovesEpoch(env, s, i);
    }
  }

  /** The most a run's ticks and accepted claims can raise the epoch. */
  function Allowance(inputs: seq<Input>, outcomes: seq<bool>, skew: nat): nat
    requires |inputs| == |outcomes|
  {
    if inputs == [] then 0
    else
      var n := |inputs| - 1;
      Allowance(inputs[..n], outcomes[..n], skew) + (if inputs[n].Tick? then 1 else 0) + if outcomes[n] then skew else 0
  }

  function Times(n: nat, skew: nat): nat {
    if n == 0 then 0 else Times(n - 1, skew) + skew
  }

  lemma {:induction false} TimesIsProduct(n: nat, skew: nat)
    ensures Times(n, skew) == n * skew
  {
    if n > 0 {
      TimesIsProduct(n - 1, skew);
    }
  }

  lemma {:induction false} AllowanceCounts(inputs: seq<Input>, outcomes: seq<bool>, skew: nat)
    requires |inputs| == |outcomes|
    ensures Allowance(inputs, outcomes, skew) == Ticks(inputs) + Times(Trues(outcomes), skew)
    decreases |inputs|
  {
    if inputs != [] {
      AllowanceCounts(inputs[..|inputs| - 1], outcomes[..|inputs| - 1], skew);
    }
  }

  lemma {:induction false} EpochRises(env: Env, s: State, inputs: seq<Input>)
    requires s.limits.maxSenders >= 1 && forall i :: i in inputs ==> !i.Advance?
    ensures s.epoch <= Run(env, s, inputs).epoch
    ensures Run(env, s, inputs).epoch <= s.epoch + Allowance(inputs, Outcomes(env, s, inputs), s.limits.maxEpochSkew)
  {
    if inputs != [] {
      var n := |inputs| - 1;
      var front := inputs[..n];
      assert inputs == front + [inputs[n]] && inputs[n] in inputs;
      EpochRises(env, s, front);
      CeilingBounds(env, s, front);
      StepRise(env, Run(env, s, front), inputs[n]);
      assert Outcomes(env, s, inputs)[..n] == Outcomes(env, s, front);
    }
  }

  /** An engine set up from the clock never accepts an epoch past the absolute maximum, whatever it is fed. */
  lemma ClockCeiling(env: Env, threshold: nat, epoch: U64, now: U64, inputs: seq<Input>, i: Input)
    requires var s := Run(env, Initial(threshold, epoch, AtUnixTime(now)), inputs); Accepts(env, s, i)
    ensures var s := Run(env, Initial(threshold, epoch, AtUnixTime(now)), inputs);
      && s.limits.maxEpoch <= EPOCH_ABSOLUTE_MAX
      && Delivery(env, s, i).value.0.epoch <= EPOCH_ABSOLUTE_MAX
  {
    var start := Initial(threshold, epoch, AtUnixTime(now));
    InitialAnchored(threshold, epoch, AtUnixTime(now));
    CeilingBounds(env, start, inputs);
  }

  /** Without operator jumps the epoch only rises: one per tick, at most the skew per accepted claim. */
  lemma EpochBounds(env: Env, s: State, inputs: seq<Input>)
    requires s.limits.maxSenders >= 1 && forall i :: i in inputs ==> !i.Advance?
    ensures s.epoch <= Run(env, s, inputs).epoch
    ensures Run(env, s, inputs).epoch <=
      s.epoch + Ticks(inputs) + Acceptances(env, s, inputs) * s.limits.maxEpochSkew
  {
    EpochRises(env, s, inputs);
    AllowanceCounts(inputs, Outcomes(env, s, inputs), s.limits.maxEpochSkew);
    TimesIsProduct(Acceptances(env, s, inputs), s.limits.maxEpochSkew);
  }

  function Capped(epoch: nat): U64 {
    if epoch > U64_MAX then U64_MAX else epoch
  }

  /** A tick takes the next epoch until there is none; a claim never takes a step back. */
  lemma StepFloor(env: Env, s: State, i: Input)
    requires !i.Advance?
    ensures Step(env, s, i).epoch >= Capped(s.epoch + if i.Tick? then 1 else 0)
    ensures i.Tick? ==> Step(env, s, i).epoch == Capped(s.epoch + 1)
  {
    if !Local(i) && Delivery(env, s, i).Success? {
      var d := Delivery(env, s, i).value;
      assert Adopted(s, d.0.epoch).epoch >= s.epoch;
    }
  }

  predicate Reaches(s: State, epoch: nat) {
    s.epoch >= Capped(epoch)
  }

  lemma FloorRises(env: Env, s: State, i: Input, floor: nat)
    requires !i.Advance? && Reaches(s, floor)
    ensures Reaches(Step(env, s, i), floor + if i.Tick? then 1 else 0)
  {
    StepFloor(env, s, i);
  }

  lemma {:induction false} TicksReach(env: Env, s: State, inputs: seq<Input>)
    requires forall i :: i in inputs ==> !i.Advance?
    ensures Reaches(Run(env, s, inputs), s.epoch + Ticks(inputs))
  {
    if inputs != [] {
      var front, last := inputs[..|inputs| - 1], inputs[|inputs| - 1];
      assert inputs == front + [last];
      TicksReach(env, s, front);
      FloorRises(env, Run(env, s, front), last, s.epoch + Ticks(front));
      RunAppend(env, s, front, last);
    }
  }

  /** Without operator jumps every tick of a run shows in the epoch, whatever claims come between. */
  lemma TicksAdvance(env: Env, s: State, inputs: seq<Input>)
    requires forall i :: i in inputs ==> !i.Advance?
    ensures Run(env, s, inputs).epoch >= Capped(s.epoch + Ticks(inputs))
  {
    TicksReach(env, s, inputs);
  }

  /** Left to its timer the engine counts epochs up to the last one there is. */
  lemma {:induction false} TicksAlone(env: Env, s: State, n: nat)
    ensures Run(env, s, seq(n, i => Tick)).epoch == Capped(s.epoch + n)
  {
    if n > 0 {
      var ticks := seq(n, i => Tick);
      assert ticks[..n - 1] == seq(n - 1, i => Tick);
      TicksAlone(env, s, n - 1);
      StepFloor(env, Run(env, s, ticks[..n - 1]), Tick);
    }
  }

  /** The ceiling leaves room for a claim one skew ahead, up to the absolute maximum. */
  predicate Roomy(s: State) {
    s.limits.maxEpoch >= Lower(SatAdd(s.epoch, s.limits.maxEpochSkew), EPOCH_ABSOLUTE_MAX)
  }

  /** The ceiling stays, or rises to one skew past the epoch, up to the absolute maximum. */
  predicate RaisedTo(before: U64, s: State) {
    s.limits.maxEpoch == before ||
    s.limits.maxEpoch == Lower(SatAdd(s.epoch, s.limits.maxEpochSkew), EPOCH_ABSOLUTE_MAX)
  }

  /** Setting up leaves that room and raises the ceiling no further than it takes. */
  lemma InitialLeavesRoom(threshold: nat, epoch: U64, limits: Limits)
    ensures var t := Initial(threshold, epoch, limits); Roomy(t) && RaisedTo(limits.maxEpoch, t)
  {
  }

  /** So does every local change of epoch. */
  lemma LocalLeavesRoom(env: Env, s: State, i: Input)
    requires Local(i)
    ensures Roomy(Step(env, s, i)) && RaisedTo(s.limits.maxEpoch, Step(env, s, i))
  {
  }

  /** The clock's ceiling is one skew past now, up to the absolute maximum, and every other limit is the default. */
  lemma ClockLimits(now: U64)
    ensures AtUnixTime(now).maxEpoch <= EPOCH_ABSOLUTE_MAX
    ensures now + MAX_EPOCH_SKEW <= EPOCH_ABSOLUTE_MAX ==> AtUnixTime(now).maxEpoch == now + MAX_EPOCH_SKEW
    ensures now + MAX_EPOCH_SKEW > EPOCH_ABSOLUTE_MAX ==> AtUnixTime(now).maxEpoch == EPOCH_ABSOLUTE_MAX
    ensures AtUnixTime(now).(maxEpoch := EPOCH_ABSOLUTE_MAX) == DEFAULT_LIMITS
  {
  }

  // ---------------------------------------------------------------- accounting

  /** Claims and payloads handled since the last reset, counting the claim that caused it. */
  function Handled(env: Env, s: State, inputs: seq<Input>): nat {
    if inputs == [] then 0
    else
      var n := |inputs| - 1;
      var before := Run(env, s, inputs[..n]);
      if Local(inputs[n]) then 0
      else if Moves(env, before, inputs[n]) then 1
      else 1 + Handled(env, s, inputs[..n])
  }

  /** Every input since the reset is counted once, and the log is short by exactly the lines over the cap. */
  ghost predicate Reconciles(s: State, handled: nat) {
    && s.accepted + Sum(s.rejected) == handled
    && s.rejectionsSeen <= Sum(s.rejected)
    && |AcceptedLines(s.observations)| == s.accepted
    && |s.observations| == s.accepted +
         if s.rejectionsSeen < s.limits.maxRejectionObservations then s.rejectionsSeen
         else s.limits.maxRejectionObservations
  }

  lemma ResetReconciles(s: State, epoch: U64)
    ensures Reconciles(Reset(s, epoch), 0)
  {
  }

  lemma CountReconciles(s: State, reason: Reason, handled: nat)
    requires Reconciles(s, handled)
    ensures Reconciles(CountRejection(s, reason), handled + 1)
  {
    BumpSum(s.rejected, reason);
  }

  lemma RecordReconciles(s: State, c: Claim, source: Text, reason: Reason, handled: nat)
    requires Reconciles(s, handled)
    ensures Reconciles(RecordRejection(s, c, source, reason), handled + 1)
  {
    BumpSum(s.rejected, reason);
    RecordKeepsCore(s, c, source, reason);
  }

  lemma AdmitReconciles(env: Env, s: State, c: Claim, source: Text, keys: seq<Key>, handled: nat)
    requires Reconciles(s, handled)
    ensures Reconciles(Admitted(env, s, c, source, keys), handled + 1)
  {
    LinesAppend(s.observations, Observation(s.epoch, source, c.sender, env.digest(c.epoch, c.sender, c.entries), None));
  }

  lemma SettledReconciles(env: Env, s: State, c: Claim, source: Text, keys: seq<Key>, handled: nat)
    requires Reconciles(s, handled)
    ensures Reconciles(Settled(env, s, c, source, keys), handled + 1)
  {
    var refusal := Admission(s, c.sender);
    if refusal.Some? {
      RecordReconciles(s, c, source, refusal.value, handled);
    } else {
      AdmitReconciles(env, s, c, source, keys, handled);
    }
  }

  lemma ReceiveReconciles(env: Env, s: State, c: Claim, source: Text, handled: nat)
    requires Reconciles(s, handled)
    ensures var moved := Gates(env, s, c, source).Passed? && c.epoch > s.epoch;
      Reconciles(Receive(env, s, c, source), 1 + if moved then 0 else handled)
  {
    match Gates(env, s, c, source) {
      case Refused(reason, logged) =>
        if logged {
          RecordReconciles(s, c, source, reason, handled);
        } else {
          CountReconciles(s, reason, handled);
        }
      case Passed(keys) =>
        ResetReconciles(s, c.epoch);
        SettledReconciles(env, Adopted(s, c.epoch), c, source, keys, if c.epoch > s.epoch then 0 else handled);
    }
  }

  lemma StepReconciles(env: Env, s: State, i: Input, handled: nat)
    requires Reconciles(s, handled)
    ensures Reconciles(Step(env, s, i), if Local(i) then 0 else 1 + if Moves(env, s, i) then 0 else handled)
  {
    if i.Advance? {
      ResetReconciles(AdvanceTo(s, i.to), i.to);
    } else if i.Tick? {
      ResetReconciles(AdvanceTo(s, SatAdd(s.epoch, 1)), SatAdd(s.epoch, 1));
    } else {
      match Delivery(env, s, i) {
        case Failure(reason) => CountReconciles(s, reason, handled);
        case Success(d) => ReceiveReconciles(env, s, d.0, d.1, handled);
      }
    }
  }

  /** Accepted plus refused equals everything handled since the last reset, on every run. */
  lemma {:induction false} RunReconciles(env: Env, threshold: nat, epoch: U64, limits: Limits, inputs: seq<Input>)
    ensures var s := Initial(threshold, epoch, limits);
      Reconciles(Run(env, s, inputs), Handled(env, s, inputs))
  {
    var s := Initial(threshold, epoch, limits);
    if inputs == [] {
      ResetReconciles(s, epoch);
    } else {
      var n := |inputs| - 1;
      RunReconciles(env, threshold, epoch, limits, inputs[..n]);
      StepReconciles(env, Run(env, s, inputs[..n]), inputs[n], Handled(env, s, inputs[..n]));
    }
  }
}
