/** verify/receipts.go: the loops of rules 6, 7 and 10, and what their silence accounts for. */
module Accounting {
  import opened Bytes
  import opened Run
  import opened RegistryTime
  import opened RegistryLog
  import opened Reconcile

  function AcceptStandings(v: View, lastAt: Option<Instant>, complete: Option<Instant>, accepted: seq<Acceptance>,
                           n: nat): seq<Standing>
    requires n <= |accepted|
  {
    seq(n, i requires 0 <= i < n => AcceptStanding(v, lastAt, complete, accepted[i]))
  }

  /** The standing of the registry's event i, once the acceptances are matched. */
  function ParentOf(v: View, lastAt: Option<Instant>, complete: Option<Instant>, log: Log,
                    logComplete: Option<Instant>, i: nat): Standing
    requires i < |v.order| && Loaded(v)
  {
    var s, n := v.order[i], |log.accepted|;
    ParentStanding(ReceivedAt(v.events[s]), s, Claims(v, lastAt, complete, log.accepted, s, n),
      HighestNamed(log.accepted, n), log.last, logComplete)
  }

  function ParentStandings(v: View, lastAt: Option<Instant>, complete: Option<Instant>, log: Log,
                           logComplete: Option<Instant>, n: nat): seq<Standing>
    requires n <= |v.order| && Loaded(v)
  {
    seq(n, i requires 0 <= i < n => ParentOf(v, lastAt, complete, log, logComplete, i))
  }

  function KeyStandings(accepted: seq<Acceptance>, n: nat): seq<Standing>
    requires n <= |accepted|
  {
    seq(n, i requires 0 <= i < n => KeyStanding(accepted, i))
  }

  function ReceiptStandings(log: View, logLast: Option<Instant>, complete: Option<Instant>, receipts: seq<Receipt>,
                            n: nat): seq<Standing>
    requires n <= |receipts|
  {
    seq(n, i requires 0 <= i < n => ReceiptStanding(log, logLast, complete, receipts[i]))
  }

  lemma Push(ss: seq<Standing>, s: Standing, check: Check)
    ensures AllFailing(ss + [s], check) == AllFailing(ss, check) + Failing(s, check)
    ensures AllWaiting(ss + [s], check) == AllWaiting(ss, check) + Waiting(s, check)
  {
    assert (ss + [s])[..|ss|] == ss;
  }

  lemma AcceptPush(v: View, lastAt: Option<Instant>, complete: Option<Instant>, accepted: seq<Acceptance>, n: nat)
    requires n < |accepted|
    ensures AcceptStandings(v, lastAt, complete, accepted, n + 1) ==
              AcceptStandings(v, lastAt, complete, accepted, n) + [AcceptStanding(v, lastAt, complete, accepted[n])]
  {
    hide AcceptStanding;
  }

  lemma ParentPush(v: View, lastAt: Option<Instant>, complete: Option<Instant>, log: Log, logComplete: Option<Instant>,
                   n: nat)
    requires n < |v.order| && Loaded(v)
    ensures ParentStandings(v, lastAt, complete, log, logComplete, n + 1) ==
              ParentStandings(v, lastAt, complete, log, logComplete, n) +
                [ParentOf(v, lastAt, complete, log, logComplete, n)]
  {
    hide ParentOf;
  }

  lemma KeyPush(accepted: seq<Acceptance>, n: nat)
    requires n < |accepted|
    ensures KeyStandings(accepted, n + 1) == KeyStandings(accepted, n) + [KeyStanding(accepted, n)]
    ensures forall key :: KeySeen(accepted, key, n + 1) <==> KeySeen(accepted, key, n) || accepted[n].key == Some(key)
  {
  }

  lemma ReceiptPush(log: View, logLast: Option<Instant>, complete: Option<Instant>, receipts: seq<Receipt>, n: nat)
    requires n < |receipts|
    ensures ReceiptStandings(log, logLast, complete, receipts, n + 1) ==
              ReceiptStandings(log, logLast, complete, receipts, n) +
                [ReceiptStanding(log, logLast, complete, receipts[n])]
  {
    hide ReceiptStanding;
  }

  /** Nothing reported yet. */
  lemma NoStandings(check: Check)
    ensures AllFailing([], check) == [] && AllWaiting([], check) == []
  {
  }

  function Claimed(claimed: map<int, nat>, s: int): nat
  {
    if s in claimed then claimed[s] else 0
  }

  method MatchAcceptances(run: Run, v: View, lastAt: Option<Instant>, complete: Option<Instant>,
                          accepted: seq<Acceptance>)
    returns (claimed: map<int, nat>, highest: int)
    requires run.Valid()
    modifies run
    ensures run.Valid()
    ensures run.failures == old(run.failures) +
              AllFailing(AcceptStandings(v, lastAt, complete, accepted, |accepted|), AcceptedUnmatched)
    ensures run.unconfirmed == old(run.unconfirmed) +
              AllWaiting(AcceptStandings(v, lastAt, complete, accepted, |accepted|), AcceptedUnmatched)
    ensures forall s :: Claimed(claimed, s) == Claims(v, lastAt, complete, accepted, s, |accepted|)
    ensures highest == HighestNamed(accepted, |accepted|)
  {
    hide Run.Valid, AcceptStanding, NamedSequence, AllFailing, AllWaiting, Failing, Waiting, AcceptStandings, Claims,
      Agrees;
    NoStandings(AcceptedUnmatched);
    AcceptNone(v, lastAt, complete, accepted);
    claimed, highest := map[], 0;
    for i := 0 to |accepted|
      invariant run.Valid() && highest == HighestNamed(accepted, i)
      invariant run.failures == old(run.failures) +
          AllFailing(AcceptStandings(v, lastAt, complete, accepted, i), AcceptedUnmatched)
      invariant run.unconfirmed == old(run.unconfirmed) +
          AllWaiting(AcceptStandings(v, lastAt, complete, accepted, i), AcceptedUnmatched)
      invariant forall s :: Claimed(claimed, s) == Claims(v, lastAt, complete, accepted, s, i)
    {
      var named, standing := NamedSequence(accepted[i].payload), AcceptStanding(v, lastAt, complete, accepted[i]);
      if named.Some? && named.value > highest {
        highest := named.value;
      }
      AcceptPush(v, lastAt, complete, accepted, i);
      Push(AcceptStandings(v, lastAt, complete, accepted, i), standing, AcceptedUnmatched);
      ReportStanding(run, standing, AcceptedUnmatched);
      ghost var before := claimed;
      if standing == Fine {
        FineNames(v, lastAt, complete, accepted[i]);
        claimed := claimed[named.value := Claimed(claimed, named.value) + 1];
      }
      ClaimStep(v, lastAt, complete, accepted, i, before, claimed);
    }
  }

  lemma AcceptNone(v: View, lastAt: Option<Instant>, complete: Option<Instant>, accepted: seq<Acceptance>)
    ensures AcceptStandings(v, lastAt, complete, accepted, 0) == []
    ensures forall s :: Claims(v, lastAt, complete, accepted, s, 0) == 0
  {
  }

  lemma ClaimStep(v: View, lastAt: Option<Instant>, complete: Option<Instant>, accepted: seq<Acceptance>, n: nat,
                  before: map<int, nat>, after: map<int, nat>)
    requires n < |accepted| && forall s :: Claimed(before, s) == Claims(v, lastAt, complete, accepted, s, n)
    requires var named := NamedSequence(accepted[n].payload);
             if AcceptStanding(v, lastAt, complete, accepted[n]) == Fine
             then named.Some? && after == before[named.value := Claimed(before, named.value) + 1] else after == before
    ensures forall s :: Claimed(after, s) == Claims(v, lastAt, complete, accepted, s, n + 1)
  {
    hide AcceptStanding, NamedSequence;
    forall s
      ensures Claimed(after, s) == Claims(v, lastAt, complete, accepted, s, n + 1)
    {
      assert Claimed(before, s) == Claims(v, lastAt, complete, accepted, s, n);
    }
  }

  lemma FineNames(v: View, lastAt: Option<Instant>, complete: Option<Instant>, a: Acceptance)
    requires AcceptStanding(v, lastAt, complete, a) == Fine
    ensures NamedSequence(a.payload).Some? && NamedSequence(a.payload).value in v.events
    ensures Agrees(v.events[NamedSequence(a.payload).value], a)
  {
    hide NamedSequence, Agrees;
  }

  method MatchParents(run: Run, v: View, lastAt: Option<Instant>, complete: Option<Instant>, log: Log,
                      logComplete: Option<Instant>,
                      claimed: map<int, nat>, highest: int)
    requires run.Valid() && Loaded(v)
    requires forall s :: Claimed(claimed, s) == Claims(v, lastAt, complete, log.accepted, s, |log.accepted|)
    requires highest == HighestNamed(log.accepted, |log.accepted|)
    modifies run
    ensures run.Valid()
    ensures run.failures == old(run.failures) +
              AllFailing(ParentStandings(v, lastAt, complete, log, logComplete, |v.order|), ParentUnmatched)
    ensures run.unconfirmed == old(run.unconfirmed) +
              AllWaiting(ParentStandings(v, lastAt, complete, log, logComplete, |v.order|), ParentUnmatched)
  {
    hide Run.Valid, ParentStanding, Claims, HighestNamed, ReceivedAt, Claimed, AllFailing, AllWaiting, Failing,
      Waiting, ParentStandings;
    NoStandings(ParentUnmatched);
    ParentNone(v, lastAt, complete, log, logComplete);
    for i := 0 to |v.order|
      invariant run.Valid()
      invariant run.failures == old(run.failures) +
          AllFailing(ParentStandings(v, lastAt, complete, log, logComplete, i), ParentUnmatched)
      invariant run.unconfirmed == old(run.unconfirmed) +
          AllWaiting(ParentStandings(v, lastAt, complete, log, logComplete, i), ParentUnmatched)
    {
      var sequence := v.order[i];
      var standing :=
        ParentStanding(ReceivedAt(v.events[sequence]), sequence, Claimed(claimed, sequence), highest, log.last,
          logComplete);
      ParentPush(v, lastAt, complete, log, logComplete, i);
      Push(ParentStandings(v, lastAt, complete, log, logComplete, i), standing, ParentUnmatched);
      ReportStanding(run, standing, ParentUnmatched);
    }
  }

  lemma ParentNone(v: View, lastAt: Option<Instant>, complete: Option<Instant>, log: Log, logComplete: Option<Instant>)
    requires Loaded(v)
    ensures ParentStandings(v, lastAt, complete, log, logComplete, 0) == []
  {
  }

  method CheckKeys(run: Run, accepted: seq<Acceptance>)
    requires run.Valid()
    modifies run
    ensures run.Valid()
    ensures run.failures == old(run.failures) + AllFailing(KeyStandings(accepted, |accepted|), DoubleAcceptance)
    ensures run.unconfirmed == old(run.unconfirmed) + AllWaiting(KeyStandings(accepted, |accepted|), DoubleAcceptance)
  {
    hide Run.Valid, AllFailing, AllWaiting, Failing, Waiting, KeyStandings, KeySeen;
    NoStandings(DoubleAcceptance);
    KeyNone(accepted);
    var acceptedAt: map<Bytes, nat> := map[];
    for i := 0 to |accepted|
      invariant run.Valid()
      invariant run.failures == old(run.failures) + AllFailing(KeyStandings(accepted, i), DoubleAcceptance)
      invariant run.unconfirmed == old(run.unconfirmed) + AllWaiting(KeyStandings(accepted, i), DoubleAcceptance)
      invariant forall key :: key in acceptedAt <==> KeySeen(accepted, key, i)
    {
      var key := accepted[i].key;
      var standing := if key.None? || key.value in acceptedAt then Bad else Fine;
      KeyPush(accepted, i);
      Push(KeyStandings(accepted, i), standing, DoubleAcceptance);
      ReportStanding(run, standing, DoubleAcceptance);
      if standing == Fine {
        acceptedAt := acceptedAt[key.value := i];
      }
    }
  }

  lemma KeyNone(accepted: seq<Acceptance>)
    ensures KeyStandings(accepted, 0) == [] && forall key :: !KeySeen(accepted, key, 0)
  {
  }

  method CheckReceipts(run: Run, log: View, logLast: Option<Instant>, complete: Option<Instant>, receipts: seq<Receipt>)
    requires run.Valid()
    modifies run
    ensures run.Valid()
    ensures run.failures == old(run.failures) +
              AllFailing(ReceiptStandings(log, logLast, complete, receipts, |receipts|), ReceiptNotLogged)
    ensures run.unconfirmed == old(run.unconfirmed) +
              AllWaiting(ReceiptStandings(log, logLast, complete, receipts, |receipts|), ReceiptNotLogged)
  {
    hide Run.Valid, ReceiptStanding, AllFailing, AllWaiting, Failing, Waiting;
    NoStandings(ReceiptNotLogged);
    assert ReceiptStandings(log, logLast, complete, receipts, 0) == [];
    for i := 0 to |receipts|
      invariant run.Valid()
      invariant run.failures == old(run.failures) +
          AllFailing(ReceiptStandings(log, logLast, complete, receipts, i), ReceiptNotLogged)
      invariant run.unconfirmed == old(run.unconfirmed) +
          AllWaiting(ReceiptStandings(log, logLast, complete, receipts, i), ReceiptNotLogged)
    {
      var standing := ReceiptStanding(log, logLast, complete, receipts[i]);
      ReceiptPush(log, logLast, complete, receipts, i);
      Push(ReceiptStandings(log, logLast, complete, receipts, i), standing, ReceiptNotLogged);
      ReportStanding(run, standing, ReceiptNotLogged);
    }
  }
}
