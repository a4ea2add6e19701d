/** The votes are the exact history of the claims accepted since the last reset. */
module Histories {
  import opened Wrappers
  import opened Bytes
  import opened Ordering
  import opened Counters
  import opened Claims
  import opened Engine

  /** The claim of an accepted input. */
  function Payload(env: Env, s: State, i: Input): Claim
    requires Accepts(env, s, i)
  {
    Delivery(env, s, i).value.0
  }

  /** What the ledger becomes when one more input arrives in the given state. */
  function Entered(env: Env, s: State, i: Input, ledger: seq<Claim>): seq<Claim> {
    (if Local(i) || Moves(env, s, i) then [] else ledger) + if Accepts(env, s, i) then [Payload(env, s, i)] else []
  }

  /** The claims accepted since the epoch last changed hands, oldest first. */
  function Ledger(env: Env, s: State, inputs: seq<Input>): seq<Claim> {
    if inputs == [] then []
    else
      var n := |inputs| - 1;
      Entered(env, Run(env, s, inputs[..n]), inputs[n], Ledger(env, s, inputs[..n]))
  }

  /** How many claims of the ledger assert the vote. */
  ghost function VotesFor(env: Env, ledger: seq<Claim>, key: Key): nat {
    if ledger == [] then 0
    else VotesFor(env, ledger[..|ledger| - 1], key) + if Asserts(env, ledger[|ledger| - 1].entries, key) then 1 else 0
  }

  /** The accepted lines of the log are the claims of the ledger, in order. */
  ghost predicate LogMatches(s: State, ledger: seq<Claim>) {
    var lines := AcceptedLines(s.observations);
    |lines| == |ledger| &&
    forall i :: 0 <= i < |ledger| ==>
      lines[i] == Observation(s.epoch, ledger[i].sender, ledger[i].sender, ledger[i].hash, None)
  }

  /** One admitted sender per claim, no sender twice. */
  ghost predicate SendersMatch(s: State, ledger: seq<Claim>) {
    && s.accepted == |ledger| == |s.seen| <= s.limits.maxSenders
    && (forall t :: t in s.seen <==> exists c :: c in ledger && c.sender == t)
    && (forall i, j :: 0 <= i < j < |ledger| ==> ledger[i].sender != ledger[j].sender)
  }

  /** Every count is exact, and no key is kept without a vote. */
  ghost predicate VotesMatch(env: Env, votes: map<Key, nat>, ledger: seq<Claim>) {
    && (forall key :: Count(votes, key) == VotesFor(env, ledger, key))
    && (forall key :: key in votes ==> votes[key] >= 1)
  }

  /** What the state keeps of the ledger. */
  ghost predicate Recorded(env: Env, s: State, ledger: seq<Claim>) {
    && SendersMatch(s, ledger) && VotesMatch(env, s.votes, ledger) && LogMatches(s, ledger)
    && forall c :: c in ledger ==> c.epoch == s.epoch && Admissible(env, c.entries)
  }

  lemma {:induction false} TallyCounts(votes: map<Key, nat>, keys: seq<Key>, key: Key)
    requires OnePerPrefix(keys)
    ensures Count(Tally(votes, keys), key) == Count(votes, key) + if key in keys then 1 else 0
    ensures key in Tally(votes, keys) <==> key in votes || key in keys
  {
    if keys != [] {
      var front := keys[..|keys| - 1];
      assert keys == front + [keys[|keys| - 1]];
      TallyCounts(votes, front, key);
      assert keys[|keys| - 1] !in front;
    }
  }

  lemma VotesAppend(env: Env, ledger: seq<Claim>, c: Claim, key: Key)
    ensures VotesFor(env, ledger + [c], key) == VotesFor(env, ledger, key) + if Asserts(env, c.entries, key) then 1 else 0
  {
    assert (ledger + [c])[..|ledger|] == ledger;
  }

  lemma ResetRecorded(env: Env, s: State, epoch: U64)
    ensures Recorded(env, Reset(s, epoch), [])
  {
  }

  lemma TallyRecorded(env: Env, votes: map<Key, nat>, ledger: seq<Claim>, c: Claim, keys: seq<Key>, key: Key)
    requires Count(votes, key) == VotesFor(env, ledger, key) && (key in votes ==> votes[key] >= 1)
    requires VoteKeys(env, c.entries) == Success(keys)
    ensures Count(Tally(votes, keys), key) == VotesFor(env, ledger + [c], key)
    ensures key in Tally(votes, keys) ==> Tally(votes, keys)[key] >= 1
  {
    VoteKeysMeaning(env, c.entries);
    TallyCounts(votes, keys, key);
    VotesAppend(env, ledger, c, key);
  }

  lemma TallyMatches(env: Env, votes: map<Key, nat>, ledger: seq<Claim>, c: Claim, keys: seq<Key>)
    requires VotesMatch(env, votes, ledger) && VoteKeys(env, c.entries) == Success(keys)
    ensures VotesMatch(env, Tally(votes, keys), ledger + [c])
  {
    var grown := Tally(votes, keys);
    forall key ensures Count(grown, key) == VotesFor(env, ledger + [c], key) && (key in grown ==> grown[key] >= 1) {
      TallyRecorded(env, votes, ledger, c, keys, key);
    }
  }

  lemma SendersGrow(s: State, t: State, c: Claim, ledger: seq<Claim>)
    requires SendersMatch(s, ledger) && c.sender !in s.seen && |s.seen| < s.limits.maxSenders
    requires t.seen == s.seen + {c.sender} && t.accepted == s.accepted + 1 && t.limits == s.limits
    ensures SendersMatch(t, ledger + [c])
  {
    var grown := ledger + [c];
    assert forall x :: x in grown <==> x in ledger || x == c;
    forall i, j | 0 <= i < j < |grown| ensures grown[i].sender != grown[j].sender {
      assert grown[i] in ledger;
    }
  }

  lemma LogGrows(s: State, t: State, c: Claim, ledger: seq<Claim>)
    requires LogMatches(s, ledger) && t.epoch == s.epoch
    requires t.observations == s.observations + [Observation(s.epoch, c.sender, c.sender, c.hash, None)]
    ensures LogMatches(t, ledger + [c])
  {
    LinesAppend(s.observations, Observation(s.epoch, c.sender, c.sender, c.hash, None));
  }

  lemma AdmitRecorded(env: Env, s: State, c: Claim, source: Text, keys: seq<Key>, ledger: seq<Claim>)
    requires Recorded(env, s, ledger) && c.sender !in s.seen && |s.seen| < s.limits.maxSenders
    requires c.epoch == s.epoch && VoteKeys(env, c.entries) == Success(keys)
    requires source == c.sender && c.hash == env.digest(c.epoch, c.sender, c.entries)
    ensures Recorded(env, Admitted(env, s, c, source, keys), ledger + [c])
  {
    var t := Admitted(env, s, c, source, keys);
    VoteKeysMeaning(env, c.entries);
    TallyMatches(env, s.votes, ledger, c, keys);
    SendersGrow(s, t, c, ledger);
    LogGrows(s, t, c, ledger);
  }

  lemma RecordedByCore(env: Env, s: State, t: State, ledger: seq<Claim>)
    requires Recorded(env, s, ledger) && CoreOf(s) == CoreOf(t)
    ensures Recorded(env, t, ledger)
  {
  }

  lemma AcceptRecorded(env: Env, s: State, c: Claim, source: Text, ledger: seq<Claim>)
    requires Recorded(env, s, ledger) && Judge(env, s, c, source).Passed?
    ensures Recorded(env, Receive(env, s, c, source), (if c.epoch > s.epoch then [] else ledger) + [c])
  {
    var keys := Gates(env, s, c, source).keys;
    var now := Adopted(s, c.epoch);
    var before := if c.epoch > s.epoch then [] else ledger;
    ResetRecorded(env, s, c.epoch);
    AdmitRecorded(env, now, c, source, keys, before);
  }

  lemma RefusalRecorded(env: Env, s: State, i: Input, ledger: seq<Claim>)
    requires Recorded(env, s, ledger) && s.limits.maxSenders >= 1 && Rejects(env, s, i)
    ensures Recorded(env, Step(env, s, i), ledger) && !Moves(env, s, i)
  {
    RefusalMovesCoreIff(env, s, i);
    RecordedByCore(env, s, Step(env, s, i), ledger);
    RefusalMovesNothing(env, s, i);
  }

  lemma LaterClaimAccepted(env: Env, s: State, i: Input)
    requires Moves(env, s, i) && s.limits.maxSenders >= 1
    ensures Accepts(env, s, i)
  {
  }

  lemma ResetStepRecorded(env: Env, s: State, i: Input)
    requires Local(i)
    ensures Recorded(env, Step(env, s, i), [])
  {
    ResetRecorded(env, Step(env, s, i), Step(env, s, i).epoch);
  }

  lemma AcceptStepRecorded(env: Env, s: State, i: Input, ledger: seq<Claim>)
    requires Recorded(env, s, ledger) && Accepts(env, s, i)
    ensures Recorded(env, Step(env, s, i), (if Moves(env, s, i) then [] else ledger) + [Payload(env, s, i)])
  {
    var d := Delivery(env, s, i).value;
    AcceptRecorded(env, s, d.0, d.1, ledger);
  }

  lemma StepRecorded(env: Env, s: State, i: Input, ledger: seq<Claim>)
    requires Recorded(env, s, ledger) && s.limits.maxSenders >= 1
    ensures Recorded(env, Step(env, s, i), Entered(env, s, i, ledger))
  {
    if Local(i) {
      ResetStepRecorded(env, s, i);
    } else if Accepts(env, s, i) {
      AcceptStepRecorded(env, s, i, ledger);
    } else {
      RefusalRecorded(env, s, i, ledger);
      assert ledger + [] == ledger;
    }
  }

  /**
   * In every reachable state the votes for a network and an ASN number exactly the
   * claims accepted since the last reset that assert it; those claims come from
   * distinct senders, name the current epoch, and are as many as the engine says.
   */
  lemma {:induction false} VotesAreHistory(env: Env, threshold: nat, epoch: U64, limits: Limits, inputs: seq<Input>)
    ensures var s := Initial(threshold, epoch, limits);
      Recorded(env, Run(env, s, inputs), Ledger(env, s, inputs))
  {
    var s := Initial(threshold, epoch, limits);
    if inputs == [] {
      ResetRecorded(env, s, epoch);
    } else {
      var n := |inputs| - 1;
      VotesAreHistory(env, threshold, epoch, limits, inputs[..n]);
      NonInterference(env, s, inputs[..n], {});
      StepRecorded(env, Run(env, s, inputs[..n]), inputs[n], Ledger(env, s, inputs[..n]));
    }
  }

  // ---------------------------------------------------------------- deleted refusals and orders of arrival

  lemma LedgerAppend(env: Env, s: State, inputs: seq<Input>, i: Input)
    ensures Ledger(env, s, inputs + [i]) == Entered(env, Run(env, s, inputs), i, Ledger(env, s, inputs))
  {
    assert (inputs + [i])[..|inputs|] == inputs;
  }

  lemma EnteredByCore(env: Env, s: State, t: State, i: Input, ledger: seq<Claim>)
    requires CoreOf(s) == CoreOf(t)
    ensures Entered(env, s, i, ledger) == Entered(env, t, i, ledger)
  {
    if !Local(i) {
      VerdictByCore(env, s, t, i);
    }
  }

  /** Deleting any of the refused inputs of a run leaves the same claims accepted, in the same order. */
  lemma {:induction false} LedgerSurvives(env: Env, s: State, inputs: seq<Input>, drop: set<nat>)
    requires s.limits.maxSenders >= 1
    ensures Ledger(env, s, Surviving(env, s, inputs, drop)) == Ledger(env, s, inputs)
  {
    if inputs != [] {
      var n := |inputs| - 1;
      var front, last := inputs[..n], inputs[n];
      var kept, before := Surviving(env, s, front, drop), Run(env, s, front);
      assert inputs == front + [last];
      LedgerSurvives(env, s, front, drop);
      LedgerAppend(env, s, front, last);
      NonInterference(env, s, front, drop);
      if n in drop && Rejects(env, before, last) {
        RefusalMovesNothing(env, before, last);
        assert kept + [] == kept && Ledger(env, s, front) + [] == Ledger(env, s, front);
      } else {
        LedgerAppend(env, s, kept, last);
        EnteredByCore(env, Run(env, s, kept), before, last, Ledger(env, s, front));
      }
    }
  }

  lemma RefusalMovesNothing(env: Env, s: State, i: Input)
    requires s.limits.maxSenders >= 1 && Rejects(env, s, i)
    ensures !Moves(env, s, i)
  {
    if Moves(env, s, i) {
      LaterClaimAccepted(env, s, i);
    }
  }

  lemma {:induction false} VotesJoin(env: Env, l: seq<Claim>, m: seq<Claim>, key: Key)
    ensures VotesFor(env, l + m, key) == VotesFor(env, l, key) + VotesFor(env, m, key)
    decreases m
  {
    if m == [] {
      assert l + m == l;
    } else {
      var front, last := m[..|m| - 1], m[|m| - 1];
      assert m == front + [last] && l + m == (l + front) + [last];
      VotesJoin(env, l, front, key);
      VotesAppend(env, l + front, last, key);
      VotesAppend(env, front, last, key);
    }
  }

  lemma TakeOut<T>(m: seq<T>, i: nat)
    requires i < |m|
    ensures multiset(m) == multiset(m[..i] + m[i + 1..]) + multiset{m[i]}
  {
    assert m == m[..i] + [m[i]] + m[i + 1..];
  }

  lemma SameWithout<T>(l: seq<T>, m: seq<T>, i: nat)
    requires l != [] && i < |m| && m[i] == l[|l| - 1] && multiset(l) == multiset(m)
    ensures multiset(l[..|l| - 1]) == multiset(m[..i] + m[i + 1..])
  {
    var n := |l| - 1;
    TakeOut(m, i);
    assert l == l[..n] + [l[n]];
    assert multiset(l[..n]) == multiset(l) - multiset{l[n]};
  }

  lemma TakeOutVotes(env: Env, m: seq<Claim>, i: nat, key: Key)
    requires i < |m|
    ensures VotesFor(env, m, key) ==
      VotesFor(env, m[..i] + m[i + 1..], key) + if Asserts(env, m[i].entries, key) then 1 else 0
  {
    assert m == m[..i] + [m[i]] + m[i + 1..];
    VotesJoin(env, m[..i] + [m[i]], m[i + 1..], key);
    VotesAppend(env, m[..i], m[i], key);
    VotesJoin(env, m[..i], m[i + 1..], key);
  }

  /** Votes do not depend on the order of the claims. */
  lemma {:induction false} VotesReorder(env: Env, l: seq<Claim>, m: seq<Claim>, key: Key)
    requires multiset(l) == multiset(m)
    ensures VotesFor(env, l, key) == VotesFor(env, m, key)
    decreases l
  {
    assert |l| == |multiset(l)| == |multiset(m)| == |m|;
    if l != [] {
      var n := |l| - 1;
      assert l[n] in multiset(m);
      var i :| 0 <= i < |m| && m[i] == l[n];
      var rest := m[..i] + m[i + 1..];
      SameWithout(l, m, i);
      VotesReorder(env, l[..n], rest, key);
      TakeOutVotes(env, m, i, key);
    }
  }

  /** Two engines that accepted the same claims, in whatever orders, hold the same senders and votes. */
  lemma SameClaimsSameTally(env: Env, s: State, t: State, l: seq<Claim>, m: seq<Claim>)
    requires Recorded(env, s, l) && Recorded(env, t, m) && multiset(l) == multiset(m)
    ensures s.seen == t.seen && s.votes == t.votes && s.accepted == t.accepted
  {
    assert |l| == |multiset(l)| == |multiset(m)| == |m|;
    assert forall c :: c in l <==> c in multiset(l);
    assert forall c :: c in m <==> c in multiset(m);
    forall x ensures x in s.seen <==> x in t.seen {
      assert (exists c :: c in l && c.sender == x) <==> exists c :: c in m && c.sender == x;
    }
    forall key ensures Count(s.votes, key) == Count(t.votes, key) {
      VotesReorder(env, l, m, key);
    }
    SameCounts(s.votes, t.votes);
  }

  lemma SameCounts(a: map<Key, nat>, b: map<Key, nat>)
    requires forall key :: Count(a, key) == Count(b, key)
    requires (forall key :: key in a ==> a[key] >= 1) && forall key :: key in b ==> b[key] >= 1
    ensures a == b
  {
    forall key ensures key in a <==> key in b {
      assert Count(a, key) == Count(b, key);
    }
    forall key | key in a ensures a[key] == b[key] {
      assert Count(a, key) == Count(b, key);
    }
  }

  // ---------------------------------------------------------------- at most one vote per sender and network

  ghost function VoteSum(votes: map<Key, nat>, prefix: Text, asns: seq<nat>): nat {
    if asns == [] then 0 else Count(votes, Key(prefix, asns[0])) + VoteSum(votes, prefix, asns[1..])
  }

  ghost function LedgerSum(env: Env, ledger: seq<Claim>, prefix: Text, asns: seq<nat>): nat {
    if asns == [] then 0 else VotesFor(env, ledger, Key(prefix, asns[0])) + LedgerSum(env, ledger, prefix, asns[1..])
  }

  lemma {:induction false} SumsAgree(env: Env, s: State, ledger: seq<Claim>, prefix: Text, asns: seq<nat>)
    requires forall key :: Count(s.votes, key) == VotesFor(env, ledger, key)
    ensures VoteSum(s.votes, prefix, asns) == LedgerSum(env, ledger, prefix, asns)
  {
    if asns != [] {
      SumsAgree(env, s, ledger, prefix, asns[1..]);
    }
  }

  /** An admissible claim asserts at most one ASN for a network. */
  lemma OneAsnPerClaim(env: Env, es: seq<ClaimEntry>, prefix: Text, a: nat, b: nat)
    requires Admissible(env, es) && Asserts(env, es, Key(prefix, a)) && Asserts(env, es, Key(prefix, b))
    ensures a == b
  {
    var e :| e in es && EntryKey(env, e) == Success(Key(prefix, a));
    var f :| f in es && EntryKey(env, f) == Success(Key(prefix, b));
    KeyAsn(env, e);
    KeyAsn(env, f);
    assert SamePrefix(EntryKey(env, e), EntryKey(env, f));
  }

  lemma {:induction false} SumAppend(env: Env, ledger: seq<Claim>, c: Claim, prefix: Text, asns: seq<nat>)
    requires Admissible(env, c.entries) && Distinct(asns)
    ensures LedgerSum(env, ledger, prefix, asns) <= LedgerSum(env, ledger + [c], prefix, asns)
    ensures LedgerSum(env, ledger + [c], prefix, asns) <= LedgerSum(env, ledger, prefix, asns) + 1
    ensures (forall a :: a in asns ==> !Asserts(env, c.entries, Key(prefix, a))) ==>
      LedgerSum(env, ledger + [c], prefix, asns) == LedgerSum(env, ledger, prefix, asns)
  {
    if asns != [] {
      SumAppend(env, ledger, c, prefix, asns[1..]);
      VotesAppend(env, ledger, c, Key(prefix, asns[0]));
      if Asserts(env, c.entries, Key(prefix, asns[0])) {
        forall a | a in asns[1..] ensures !Asserts(env, c.entries, Key(prefix, a)) {
          if Asserts(env, c.entries, Key(prefix, a)) {
            OneAsnPerClaim(env, c.entries, prefix, asns[0], a);
          }
        }
      }
    }
  }

  lemma {:induction false} LedgerSumNothing(env: Env, prefix: Text, asns: seq<nat>)
    ensures LedgerSum(env, [], prefix, asns) == 0
  {
    if asns != [] {
      LedgerSumNothing(env, prefix, asns[1..]);
    }
  }

  lemma {:induction false} LedgerSumBound(env: Env, ledger: seq<Claim>, prefix: Text, asns: seq<nat>)
    requires Distinct(asns) && forall c :: c in ledger ==> Admissible(env, c.entries)
    ensures LedgerSum(env, ledger, prefix, asns) <= |ledger|
    decreases ledger
  {
    if ledger == [] {
      LedgerSumNothing(env, prefix, asns);
    } else {
      var front, last := ledger[..|ledger| - 1], ledger[|ledger| - 1];
      assert ledger == front + [last];
      LedgerSumBound(env, front, prefix, asns);
      SumAppend(env, front, last, prefix, asns);
    }
  }

  /** For one network the votes of all ASNs together are at most the accepted claims. */
  lemma NetworkVotesBounded(env: Env, s: State, ledger: seq<Claim>, prefix: Text, asns: seq<nat>)
    requires Recorded(env, s, ledger) && Distinct(asns)
    ensures VoteSum(s.votes, prefix, asns) <= s.accepted
  {
    SumsAgree(env, s, ledger, prefix, asns);
    LedgerSumBound(env, ledger, prefix, asns);
  }

  lemma PairBounded(env: Env, s: State, ledger: seq<Claim>, prefix: Text, a: nat, b: nat)
    requires Recorded(env, s, ledger) && a != b
    ensures Count(s.votes, Key(prefix, a)) + Count(s.votes, Key(prefix, b)) <= s.accepted
  {
    NetworkVotesBounded(env, s, ledger, prefix, [a, b]);
    assert [a, b][1..] == [b] && [b][1..] == [];
    assert VoteSum(s.votes, prefix, [b]) == Count(s.votes, Key(prefix, b));
  }

  /** With a threshold above half the senders no network has two winners, so no tie is ever broken. */
  lemma MajorityIsUnique(env: Env, s: State, ledger: seq<Claim>, prefix: Text, a: nat, b: nat)
    requires Recorded(env, s, ledger) && 2 * s.threshold > |s.seen|
    requires Count(s.votes, Key(prefix, a)) >= s.threshold && Count(s.votes, Key(prefix, b)) >= s.threshold
    ensures a == b
  {
    if a != b {
      PairBounded(env, s, ledger, prefix, a, b);
    }
  }
}
