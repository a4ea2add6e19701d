/** Every refusal names a check that really fails, and what the log can hold is bounded. */
module Verdicts {
  import opened Wrappers
  import opened Bytes
  import opened Counters
  import opened Tries
  import opened BinNodes
  import opened Networks
  import opened Claims
  import opened Engine
  import opened Histories

  /** The reasons that concern one entry, each by what is wrong with it. */
  ghost predicate EntryViolates(env: Env, e: ClaimEntry, reason: Reason) {
    var n := env.parse(e.prefix);
    match reason
    case UnassignedAsn => e.asn == 0
    case AsnOutOfRange => e.asn > ASN_MAX
    case InvalidPrefix => |e.prefix| > MAX_PREFIX_LEN || n.None?
    case DefaultRoutePrefix => n.Some? && n.value.len == 0
    case Ipv4MappedPrefix => n.Some? && n.value.V6? && n.value.len > 0 && !Apart(IpToBits(n.value), MappedPath())
    case _ => false
  }

  /** The domain of claims, reason by reason, whatever order the checks are made in. */
  ghost predicate Violates(env: Env, s: State, c: Claim, source: Text, reason: Reason) {
    match reason
    case InvalidSenderId => |c.sender| > s.limits.maxSenderIdLen
    case MalformedClaimHash => !HexDigest(c.hash)
    case EmptyClaim => |c.entries| < s.limits.minEntries
    case TooManyEntries => |c.entries| > s.limits.maxEntries
    case EpochOutOfRange => c.epoch > s.limits.maxEpoch
    case SourceMismatch => c.sender != source
    case ClaimHashMismatch => c.hash != env.digest(c.epoch, c.sender, c.entries)
    case StaleEpoch => c.epoch < s.epoch
    case EpochJumpTooLarge => c.epoch > s.epoch + s.limits.maxEpochSkew
    case ConflictingEntry => Contradicts(env, c.entries)
    case SenderLimitExceeded =>
      if c.epoch > s.epoch then s.limits.maxSenders == 0
      else c.sender !in s.seen && |s.seen| >= s.limits.maxSenders
    case DuplicateSender => c.epoch <= s.epoch && c.sender in s.seen
    case _ => exists e :: e in c.entries && EntryViolates(env, e, reason)
  }

  /** Two good entries give one network two ASNs. */
  ghost predicate Contradicts(env: Env, es: seq<ClaimEntry>) {
    exists e, f :: e in es && f in es && SamePrefix(EntryKey(env, e), EntryKey(env, f)) && e.asn != f.asn
  }

  /** Masking an IPv6 prefix first does not change whether it meets the range of IPv4. */
  lemma MaskedTouches(n: Network)
    requires n.len > 0
    ensures TouchesMapped(Canonicalized(n)) <==> n.V6? && !Apart(IpToBits(n), MappedPath())
  {
    if n.V6? {
      CanonicalSamePath(n);
      TouchesMappedMeaning(Canonicalized(n));
    }
  }

  lemma EntryReason(env: Env, e: ClaimEntry)
    ensures EntryKey(env, e).Failure? ==> EntryViolates(env, e, EntryKey(env, e).error)
    ensures EntryKey(env, e).Success? ==> forall r :: !EntryViolates(env, e, r)
  {
    var n := env.parse(e.prefix);
    if n.Some? && n.value.len > 0 {
      MaskedTouches(n.value);
    }
  }

  lemma {:induction false} EntriesReason(env: Env, es: seq<ClaimEntry>)
    requires VoteKeys(env, es).Failure?
    ensures var r := VoteKeys(env, es).error;
      if r == ConflictingEntry then Contradicts(env, es) else exists e :: e in es && EntryViolates(env, e, r)
  {
    var front, last := es[..|es| - 1], es[|es| - 1];
    assert es == front + [last];
    if VoteKeys(env, front).Failure? {
      EntriesReason(env, front);
    } else {
      EntryReason(env, last);
      if EntryKey(env, last).Success? {
        var keys := VoteKeys(env, front).value;
        VoteKeysMeaning(env, front);
        var k :| k in keys && k.prefix == EntryKey(env, last).value.prefix && k != EntryKey(env, last).value;
        assert Asserts(env, front, k);
        var e :| e in front && EntryKey(env, e) == Success(k);
        KeyAsn(env, e);
        KeyAsn(env, last);
        assert SamePrefix(EntryKey(env, e), EntryKey(env, last));
      }
    }
  }

  /** A capped sum can be exceeded only where the plain one is. */
  lemma SatAddBound(a: U64, b: U64, x: U64)
    ensures x > SatAdd(a, b) <==> x > a + b
  {
  }

  /** The reported reason always holds of the claim. */
  lemma RefusalIsTrue(env: Env, s: State, c: Claim, source: Text)
    requires Judge(env, s, c, source).Refused?
    ensures Violates(env, s, c, source, Judge(env, s, c, source).reason)
  {
    SatAddBound(s.epoch, s.limits.maxEpochSkew, c.epoch);
    if VoteKeys(env, c.entries).Failure? {
      EntriesReason(env, c.entries);
    }
  }

  lemma AdmissibleIsClean(env: Env, es: seq<ClaimEntry>, reason: Reason)
    requires VoteKeys(env, es).Success?
    ensures !Contradicts(env, es) && forall e :: e in es ==> !EntryViolates(env, e, reason)
  {
    VoteKeysMeaning(env, es);
    forall e | e in es ensures !EntryViolates(env, e, reason) {
      EntryReason(env, e);
    }
  }

  lemma AcceptedIsClean(env: Env, s: State, c: Claim, source: Text, reason: Reason)
    requires Judge(env, s, c, source).Passed?
    ensures !Violates(env, s, c, source, reason)
  {
    SatAddBound(s.epoch, s.limits.maxEpochSkew, c.epoch);
    AdmissibleIsClean(env, c.entries, reason);
  }

  /** A claim is accepted exactly when no reason to refuse it holds. */
  lemma AcceptedIff(env: Env, s: State, c: Claim, source: Text)
    ensures Judge(env, s, c, source).Passed? <==> forall r :: !Violates(env, s, c, source, r)
  {
    if Judge(env, s, c, source).Passed? {
      forall r ensures !Violates(env, s, c, source, r) {
        AcceptedIsClean(env, s, c, source, r);
      }
    } else {
      RefusalIsTrue(env, s, c, source);
    }
  }

  // ---------------------------------------------------------------- which reason is reported

  /** The order of the checks; what is wrong inside the entries comes as one. */
  function Rank(reason: Reason): nat {
    match reason
    case OversizeClaim => 0
    case MalformedClaim => 1
    case InvalidSenderId => 2
    case UnparsableSender => 3
    case MalformedClaimHash => 4
    case EmptyClaim => 5
    case TooManyEntries => 6
    case EpochOutOfRange => 7
    case SourceMismatch => 8
    case ClaimHashMismatch => 9
    case StaleEpoch => 10
    case EpochJumpTooLarge => 11
    case UnassignedAsn | AsnOutOfRange | InvalidPrefix | DefaultRoutePrefix | Ipv4MappedPrefix | ConflictingEntry => 12
    case SenderLimitExceeded => 13
    case DuplicateSender => 14
  }

  lemma EntryReasonRank(env: Env, es: seq<ClaimEntry>)
    ensures VoteKeys(env, es).Failure? ==> Rank(VoteKeys(env, es).error) == 12
  {
    if VoteKeys(env, es).Failure? {
      EntriesReason(env, es);
    }
  }

  lemma ShapeFirst(env: Env, s: State, c: Claim, source: Text, q: Reason)
    requires Violates(env, s, c, source, q)
    ensures ShapeViolation(s.limits, c).Some? ==> Rank(ShapeViolation(s.limits, c).value) <= Rank(q)
    ensures ShapeViolation(s.limits, c).None? ==> Rank(q) >= 8
  {
  }

  lemma GatesFirst(env: Env, s: State, c: Claim, source: Text, q: Reason)
    requires Violates(env, s, c, source, q)
    ensures Gates(env, s, c, source).Refused? ==> Rank(Gates(env, s, c, source).reason) <= Rank(q)
    ensures Gates(env, s, c, source).Passed? ==> Rank(q) >= 13
  {
    ShapeFirst(env, s, c, source, q);
    EntryReasonRank(env, c.entries);
    SatAddBound(s.epoch, s.limits.maxEpochSkew, c.epoch);
    if VoteKeys(env, c.entries).Success? {
      AdmissibleIsClean(env, c.entries, q);
    }
  }

  /** Of all reasons that hold, the one reported is that of the first check. */
  lemma RefusalIsFirst(env: Env, s: State, c: Claim, source: Text, q: Reason)
    requires Judge(env, s, c, source).Refused? && Violates(env, s, c, source, q)
    ensures Rank(Judge(env, s, c, source).reason) <= Rank(q)
  {
    GatesFirst(env, s, c, source, q);
  }

  /** The order of the checks inside one entry. */
  function EntryRank(reason: Reason): nat {
    match reason
    case UnassignedAsn => 0
    case AsnOutOfRange => 1
    case InvalidPrefix => 2
    case DefaultRoutePrefix => 3
    case _ => 4
  }

  lemma EntryFirst(env: Env, e: ClaimEntry, q: Reason)
    requires EntryKey(env, e).Failure? && EntryViolates(env, e, q)
    ensures EntryRank(EntryKey(env, e).error) <= EntryRank(q)
  {
  }

  /** The first entry that makes the list inadmissible decides, by the first of its own checks. */
  ghost predicate Decides(env: Env, es: seq<ClaimEntry>, n: nat, reason: Reason) {
    && n < |es| && Admissible(env, es[..n]) && !Admissible(env, es[..n + 1])
    && if EntryKey(env, es[n]).Success? then reason == ConflictingEntry
       else EntryViolates(env, es[n], reason) &&
            forall q :: EntryViolates(env, es[n], q) ==> EntryRank(reason) <= EntryRank(q)
  }

  lemma {:induction false} FirstBadEntry(env: Env, es: seq<ClaimEntry>) returns (n: nat)
    requires VoteKeys(env, es).Failure?
    ensures Decides(env, es, n, VoteKeys(env, es).error)
  {
    var front, last := es[..|es| - 1], es[|es| - 1];
    VoteKeysMeaning(env, es);
    VoteKeysMeaning(env, front);
    if VoteKeys(env, front).Failure? {
      n := FirstBadEntry(env, front);
      assert es[..n] == front[..n] && es[..n + 1] == front[..n + 1] && es[n] == front[n];
    } else {
      n := |front|;
      assert es[..n] == front && es[..n + 1] == es;
      EntryReason(env, last);
      forall q | EntryViolates(env, last, q) ensures EntryRank(VoteKeys(env, es).error) <= EntryRank(q) {
        EntryFirst(env, last, q);
      }
    }
  }

  // ---------------------------------------------------------------- whole inputs

  /** The reasons that can hold of whatever arrives, payloads and operators' records included. */
  ghost predicate InputViolates(env: Env, s: State, i: Input, reason: Reason)
    requires !Local(i)
  {
    match i
    case Gossip(data, source) =>
      || (reason.OversizeClaim? && |data| > 65_536)
      || (reason.MalformedClaim? && env.decode(data).None?)
      || (env.decode(data).Some? && Violates(env, s, env.decode(data).value, source, reason))
    case FromPeer(c, source) => Violates(env, s, c, source, reason)
    case Replayed(c) =>
      || (reason.InvalidSenderId? && |c.sender| > s.limits.maxSenderIdLen)
      || (reason.UnparsableSender? && env.peer(c.sender).None?)
      || (env.peer(c.sender).Some? && Violates(env, s, c, env.peer(c.sender).value, reason))
  }

  lemma UndeliveredFirst(env: Env, s: State, i: Input, q: Reason)
    requires !Local(i) && Delivery(env, s, i).Failure?
    ensures InputViolates(env, s, i, Delivery(env, s, i).error)
    ensures InputViolates(env, s, i, q) ==> Rank(Delivery(env, s, i).error) <= Rank(q)
  {
    if i.Gossip? && env.decode(i.data).Some? {
      DeliveryReasons(env, s, env.decode(i.data).value, i.source, q);
    } else if i.Replayed? && env.peer(i.record.sender).Some? {
      DeliveryReasons(env, s, i.record, env.peer(i.record.sender).value, q);
    }
  }

  /** What is found on delivery is never found by the gates. */
  lemma DeliveryReasons(env: Env, s: State, c: Claim, source: Text, q: Reason)
    ensures Violates(env, s, c, source, q) ==> Rank(q) >= 2 && q != UnparsableSender
  {
  }

  lemma DeliveredReasons(env: Env, s: State, i: Input, q: Reason)
    requires !Local(i) && Delivery(env, s, i).Success?
    ensures var d := Delivery(env, s, i).value;
      InputViolates(env, s, i, q) <==> Violates(env, s, d.0, d.1, q)
  {
  }

  /** Whatever arrives, the reason it is refused for holds of it, and none that holds is checked earlier. */
  lemma InputRefusal(env: Env, s: State, i: Input, q: Reason)
    requires Rejects(env, s, i)
    ensures InputViolates(env, s, i, VerdictOn(env, s, i).reason)
    ensures InputViolates(env, s, i, q) ==> Rank(VerdictOn(env, s, i).reason) <= Rank(q)
  {
    if Delivery(env, s, i).Failure? {
      UndeliveredFirst(env, s, i, q);
    } else {
      var d := Delivery(env, s, i).value;
      RefusalIsTrue(env, s, d.0, d.1);
      DeliveredReasons(env, s, i, VerdictOn(env, s, i).reason);
      DeliveredReasons(env, s, i, q);
      if Violates(env, s, d.0, d.1, q) {
        RefusalIsFirst(env, s, d.0, d.1, q);
      }
    }
  }

  /** Whatever arrives is accepted exactly when no reason to refuse it holds. */
  lemma InputAcceptedIff(env: Env, s: State, i: Input)
    requires !Local(i)
    ensures Accepts(env, s, i) <==> forall r :: !InputViolates(env, s, i, r)
  {
    if Accepts(env, s, i) {
      var d := Delivery(env, s, i).value;
      forall r ensures !InputViolates(env, s, i, r) {
        DeliveredReasons(env, s, i, r);
        AcceptedIsClean(env, s, d.0, d.1, r);
      }
    } else {
      InputRefusal(env, s, i, VerdictOn(env, s, i).reason);
    }
  }

  // ---------------------------------------------------------------- what a refusal writes

  /** Found before the sender is known to be who it says. */
  predicate Unauthenticated(reason: Reason) {
    || reason.InvalidSenderId? || reason.MalformedClaimHash? || reason.EmptyClaim? || reason.TooManyEntries?
    || reason.EpochOutOfRange? || reason.SourceMismatch?
  }

  /** One counter up by one, and the claim's own words in the log where a line is kept and fits. */
  ghost predicate Wrote(s: State, t: State, c: Claim, source: Text, reason: Reason, logged: bool) {
    var kept := logged && s.rejectionsSeen < s.limits.maxRejectionObservations;
    && (forall r :: Count(t.rejected, r) == Count(s.rejected, r) + if r == reason then 1 else 0)
    && t.observations == s.observations +
         if kept then [Observation(c.epoch, source, c.sender, c.hash, Some(reason))] else []
  }

  lemma RecordWrites(s: State, c: Claim, source: Text, reason: Reason)
    ensures Wrote(s, RecordRejection(s, c, source, reason), c, source, reason, true)
    ensures Wrote(s, CountRejection(s, reason), c, source, reason, false)
  {
  }

  lemma GateLogs(env: Env, s: State, c: Claim, source: Text)
    requires Gates(env, s, c, source).Refused?
    ensures Gates(env, s, c, source).logged <==> !Unauthenticated(Gates(env, s, c, source).reason)
  {
    if VoteKeys(env, c.entries).Failure? {
      EntriesReason(env, c.entries);
    }
  }

  /**
   * A refusal raises one counter by one and keeps a line of what was received, in the
   * claim's own words, only once the sender is authenticated and the log has room.
   */
  lemma RefusalWrites(env: Env, s: State, c: Claim, source: Text)
    requires Judge(env, s, c, source).Refused? && s.limits.maxSenders >= 1
    ensures var reason := Judge(env, s, c, source).reason;
      Wrote(s, Receive(env, s, c, source), c, source, reason, !Unauthenticated(reason))
  {
    var reason := Judge(env, s, c, source).reason;
    RecordWrites(s, c, source, reason);
    if Gates(env, s, c, source).Refused? {
      GateLogs(env, s, c, source);
    } else {
      RefusedCore(env, s, c, source);
    }
  }

  /** Whatever is refused before it is a claim raises its counter by one and leaves no line. */
  lemma UndeliveredWrites(env: Env, s: State, i: Input)
    requires !Local(i) && Delivery(env, s, i).Failure?
    ensures var t := Step(env, s, i);
      && t == s.(rejected := t.rejected)
      && forall r :: Count(t.rejected, r) == Count(s.rejected, r) + if r == VerdictOn(env, s, i).reason then 1 else 0
  {
  }

  // ---------------------------------------------------------------- what the log can hold

  /** A line keeps nothing longer than the limits allow, and only of an authenticated sender. */
  predicate Small(s: State, line: Observation) {
    line.sender == line.source && |line.sender| <= s.limits.maxSenderIdLen && |line.hash| == CLAIM_HASH_LEN
  }

  ghost predicate LogBounded(s: State) {
    && (forall line :: line in s.observations ==> Small(s, line))
    && |s.observations| <= s.limits.maxSenders + s.limits.maxRejectionObservations
  }

  lemma OneMoreSmall(s: State, t: State, line: Observation)
    requires t.limits == s.limits && t.observations == s.observations + [line] && Small(s, line)
    requires forall l :: l in s.observations ==> Small(s, l)
    ensures forall l :: l in t.observations ==> Small(t, l)
  {
  }

  lemma SettledSmall(env: Env, s: State, c: Claim, source: Text, keys: seq<Key>)
    requires forall line :: line in s.observations ==> Small(s, line)
    requires c.sender == source && |c.sender| <= s.limits.maxSenderIdLen && |c.hash| == CLAIM_HASH_LEN
    requires c.hash == env.digest(c.epoch, c.sender, c.entries)
    ensures var t := Settled(env, s, c, source, keys);
      t.limits == s.limits && forall line :: line in t.observations ==> Small(t, line)
  {
    var t := Settled(env, s, c, source, keys);
    if t.observations != s.observations {
      OneMoreSmall(s, t, t.observations[|s.observations|]);
    }
  }

  lemma LinesSmall(env: Env, s: State, c: Claim, source: Text)
    requires forall line :: line in s.observations ==> Small(s, line)
    ensures var t := Receive(env, s, c, source);
      t.limits == s.limits && forall line :: line in t.observations ==> Small(t, line)
  {
    match Gates(env, s, c, source) {
      case Refused(reason, logged) =>
        var t := Receive(env, s, c, source);
        if t.observations != s.observations {
          OneMoreSmall(s, t, Observation(c.epoch, source, c.sender, c.hash, Some(reason)));
        }
      case Passed(keys) => SettledSmall(env, Adopted(s, c.epoch), c, source, keys);
    }
  }

  lemma StepLinesSmall(env: Env, s: State, i: Input)
    requires forall line :: line in s.observations ==> Small(s, line)
    ensures forall line :: line in Step(env, s, i).observations ==> Small(Step(env, s, i), line)
  {
    if !Local(i) && Delivery(env, s, i).Success? {
      var d := Delivery(env, s, i).value;
      LinesSmall(env, s, d.0, d.1);
    }
  }

  lemma {:induction false} RunLinesSmall(env: Env, s: State, inputs: seq<Input>)
    requires forall line :: line in s.observations ==> Small(s, line)
    ensures forall line :: line in Run(env, s, inputs).observations ==> Small(Run(env, s, inputs), line)
  {
    if inputs != [] {
      var n := |inputs| - 1;
      RunLinesSmall(env, s, inputs[..n]);
      StepLinesSmall(env, Run(env, s, inputs[..n]), inputs[n]);
    }
  }

  /** However many inputs arrive, the log stays within its caps and holds no oversize or unauthenticated text. */
  lemma LogStaysBounded(env: Env, threshold: nat, epoch: U64, limits: Limits, inputs: seq<Input>)
    ensures LogBounded(Run(env, Initial(threshold, epoch, limits), inputs))
  {
    var s := Initial(threshold, epoch, limits);
    RunLinesSmall(env, s, inputs);
    RunReconciles(env, threshold, epoch, limits, inputs);
    VotesAreHistory(env, threshold, epoch, limits, inputs);
  }
}
