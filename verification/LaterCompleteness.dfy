/** verify/receipts.go: knowing the bundles complete later only turns unconfirmed items into failures. */
module LaterCompleteness {
  import opened Bytes
  import opened Run
  import opened RegistryTime
  import opened RegistryLog
  import opened PolicyRules
  import opened Reconcile
  import opened Accounting
  import opened Reconciled
  import opened WindowCloses

  /** The same, or settled from unconfirmed to failed. */
  predicate Settles(s: Standing, s': Standing)
  {
    s == s' || (s == Unsure && s' == Bad)
  }

  ghost predicate AllSettle(ss: seq<Standing>, ss': seq<Standing>)
  {
    |ss| == |ss'| && forall i :: 0 <= i < |ss| ==> Settles(ss[i], ss'[i])
  }

  /** Failures only grow, and what is reported in all stays as many. */
  lemma {:induction false} SettledReports(ss: seq<Standing>, ss': seq<Standing>, check: Check)
    requires AllSettle(ss, ss')
    ensures |AllFailing(ss, check)| <= |AllFailing(ss', check)|
    ensures |AllFailing(ss, check)| + |AllWaiting(ss, check)| == |AllFailing(ss', check)| + |AllWaiting(ss', check)|
  {
    if ss != [] {
      var init, init' := ss[..|ss| - 1], ss'[..|ss| - 1];
      SettledReports(init, init', check);
      SettledOne(ss[|ss| - 1], ss'[|ss| - 1], check);
      ReportsStep(ss, check);
      ReportsStep(ss', check);
    }
  }

  lemma ReportsStep(ss: seq<Standing>, check: Check)
    requires ss != []
    ensures |AllFailing(ss, check)| == |AllFailing(ss[..|ss| - 1], check)| + |Failing(ss[|ss| - 1], check)|
    ensures |AllWaiting(ss, check)| == |AllWaiting(ss[..|ss| - 1], check)| + |Waiting(ss[|ss| - 1], check)|
  {
    hide Failing, Waiting;
  }

  lemma SettledOne(s: Standing, s': Standing, check: Check)
    requires Settles(s, s')
    ensures |Failing(s, check)| <= |Failing(s', check)|
    ensures |Failing(s, check)| + |Waiting(s, check)| == |Failing(s', check)| + |Waiting(s', check)|
  {
  }

  /** The same bundle, with its latest anchor known later. */
  ghost predicate SameEvents(v: View, v': View)
  {
    v'.events == v.events && v'.order == v.order && v'.from == v.from && v'.to == v.to && v'.created == v.created
  }

  lemma {:induction false} SameLast(v: View, v': View, n: nat)
    requires SameEvents(v, v') && Loaded(v) && Loaded(v') && n <= |v.order|
    ensures LastAt(v, n) == LastAt(v', n)
  {
    hide ReceivedAt, Later;
    if n > 0 {
      SameLast(v, v', n - 1);
    }
  }

  lemma PastTheEnd(v: View, s: int)
    requires Verified(v) && s > v.to
    ensures s !in v.events
  {
  }

  lemma AcceptSettles(v: View, v': View, last: Option<Instant>, c: Option<Instant>, c': Option<Instant>, a: Acceptance)
    requires Verified(v) && SameEvents(v, v') && NoLater(c, c')
    ensures Settles(AcceptStanding(v, last, c, a), AcceptStanding(v', last, c', a))
    ensures AcceptStanding(v, last, c, a) == Fine <==> AcceptStanding(v', last, c', a) == Fine
  {
    hide NamedSequence, Agrees, Verified, NoLater, DueBy, Before;
    var s := NamedSequence(a.payload);
    if DueBy(a.receivedAt, MSD_SECONDS, c) {
      DueStaysDue(a.receivedAt, MSD_SECONDS, c, c');
    }
    if s.Some? && s.value > v.to {
      PastTheEnd(v, s.value);
    }
  }

  lemma {:induction false} ClaimsSame(v: View, v': View, last: Option<Instant>, c: Option<Instant>, c': Option<Instant>,
                                      accepted: seq<Acceptance>, s: int, n: nat)
    requires Verified(v) && SameEvents(v, v') && NoLater(c, c') && n <= |accepted|
    ensures Claims(v, last, c, accepted, s, n) == Claims(v', last, c', accepted, s, n)
  {
    hide AcceptStanding, NamedSequence, Verified, SameEvents, NoLater;
    if n > 0 {
      ClaimsSame(v, v', last, c, c', accepted, s, n - 1);
      AcceptSettles(v, v', last, c, c', accepted[n - 1]);
    }
  }

  lemma ParentSettles(at: Option<Instant>, s: int, count: nat, highest: int, last: Option<Instant>, c: Option<Instant>,
                      c': Option<Instant>)
    requires NoLater(c, c')
    ensures Settles(ParentStanding(at, s, count, highest, last, c), ParentStanding(at, s, count, highest, last, c'))
  {
    hide NoLater, DueBy, Before;
    if DueBy(at, MSD_SECONDS, c) {
      DueStaysDue(at, MSD_SECONDS, c, c');
    }
  }

  lemma ReceiptSettles(v: View, v': View, last: Option<Instant>, c: Option<Instant>, c': Option<Instant>, r: Receipt)
    requires Verified(v) && SameEvents(v, v') && NoLater(c, c')
    ensures Settles(ReceiptStanding(v, last, c, r), ReceiptStanding(v', last, c', r))
  {
    hide Verified, NoLater, DueBy, Before;
    if DueBy(r.sealBy, 0, c) {
      DueStaysDue(r.sealBy, 0, c, c');
    }
    if r.decision.Some? && r.decision.value > v.to {
      PastTheEnd(v, r.decision.value);
    }
  }

  /** The same bundles and receipts, with both latest anchors no earlier. */
  ghost predicate KnownLater(c: Case, c': Case)
  {
    && SameEvents(c.registry, c'.registry) && SameEvents(c.decisions, c'.decisions)
    && NoLater(c.registry.anchored, c'.registry.anchored) && NoLater(c.decisions.anchored, c'.decisions.anchored)
    && c'.receipts == c.receipts && c'.publicId == c.publicId && c'.logFor == c.logFor
  }

  lemma KnownLaterGives(c: Case, c': Case)
    requires KnownLater(c, c') && Loaded(c.registry) && Loaded(c.decisions) && Loaded(c'.registry)
              && Loaded(c'.decisions)
    ensures LogOf(c) == LogOf(c') && RegistryLast(c) == RegistryLast(c')
    ensures Records(c.registry) == Records(c'.registry) && Records(c.decisions) == Records(c'.decisions)
    ensures c'.publicId == c.publicId && c'.logFor == c.logFor
    ensures NoLater(Complete(c.registry), Complete(c'.registry))
              && NoLater(Complete(c.decisions), Complete(c'.decisions))
  {
    hide ReadLog, Loaded, LastAt, Latest, Later, NoLater;
    assert Records(c.decisions) == Records(c'.decisions);
    assert Records(c.registry) == Records(c'.registry);
    SameLast(c.registry, c'.registry, |c.registry.order|);
    LaterAnchor(Latest(c.registry.created, |c.registry.created|), c.registry.anchored, c'.registry.anchored);
    LaterAnchor(Latest(c.decisions.created, |c.decisions.created|), c.decisions.anchored, c'.decisions.anchored);
  }

  lemma AcceptsSettle(c: Case, c': Case)
    requires WellLoaded(c) && KnownLater(c, c')
    requires Loaded(c.registry) && Loaded(c.decisions) && Loaded(c'.registry) && Loaded(c'.decisions)
    ensures AllSettle(Accepts6(c), Accepts6(c'))
  {
    hide AcceptStanding, LogOf, RegistryLast, Complete, Loaded, Verified, SameEvents, Settles, NoLater;
    KnownLaterGives(c, c');
    forall i | 0 <= i < |LogOf(c).accepted|
      ensures Settles(Accepts6(c)[i], Accepts6(c')[i])
    {
      AcceptSettles(c.registry, c'.registry, RegistryLast(c), Complete(c.registry), Complete(c'.registry),
        LogOf(c).accepted[i]);
    }
  }

  lemma ParentsSettle(c: Case, c': Case)
    requires WellLoaded(c) && KnownLater(c, c')
    requires Loaded(c.registry) && Loaded(c.decisions) && Loaded(c'.registry) && Loaded(c'.decisions)
    ensures AllSettle(Parents6(c), Parents6(c'))
  {
    hide ParentOf, LogOf, RegistryLast, Complete, Loaded, Verified, Settles, NoLater;
    KnownLaterGives(c, c');
    forall i | 0 <= i < |c.registry.order|
      ensures Settles(Parents6(c)[i], Parents6(c')[i])
    {
      ParentOfSettles(c, c', i);
    }
  }

  lemma ParentOfSettles(c: Case, c': Case, i: nat)
    requires WellLoaded(c) && KnownLater(c, c')
    requires Loaded(c.registry) && Loaded(c.decisions) && Loaded(c'.registry) && Loaded(c'.decisions)
    requires i < |c.registry.order|
    ensures Settles(ParentOf(c.registry, RegistryLast(c), Complete(c.registry), LogOf(c), Complete(c.decisions), i),
                    ParentOf(c'.registry, RegistryLast(c'), Complete(c'.registry), LogOf(c'), Complete(c'.decisions),
                      i))
  {
    hide LogOf, RegistryLast, Complete, Verified, Settles, NoLater, Claims, HighestNamed, ParentStanding, ReceivedAt;
    KnownLaterGives(c, c');
    var log, s := LogOf(c), c.registry.order[i];
    var n := |log.accepted|;
    ClaimsSame(c.registry, c'.registry, RegistryLast(c), Complete(c.registry), Complete(c'.registry), log.accepted, s,
      n);
    ParentSettles(
      ReceivedAt(c.registry.events[s]), s,
        Claims(c.registry, RegistryLast(c), Complete(c.registry), log.accepted, s, n),
      HighestNamed(log.accepted, n), log.last, Complete(c.decisions), Complete(c'.decisions));
  }

  lemma ReceiptsSettle(c: Case, c': Case)
    requires WellLoaded(c) && KnownLater(c, c')
    requires Loaded(c.registry) && Loaded(c.decisions) && Loaded(c'.registry) && Loaded(c'.decisions)
    ensures AllSettle(Receipts10(c), Receipts10(c'))
  {
    hide ReceiptStanding, LogOf, RegistryLast, Complete, Loaded, Verified, SameEvents, Settles, NoLater;
    KnownLaterGives(c, c');
    forall i | 0 <= i < |c.receipts|
      ensures Settles(Receipts10(c)[i], Receipts10(c')[i])
    {
      ReceiptSettles(c.decisions, c'.decisions, LogOf(c).last, Complete(c.decisions), Complete(c'.decisions),
        c.receipts[i]);
    }
  }

  /** Item by item, each standing stays or goes from unconfirmed to failed, and every other rule says the same. */
  ghost predicate ItemsSettle(c: Case, c': Case)
    requires Loaded(c.registry) && Loaded(c.decisions) && Loaded(c'.registry) && Loaded(c'.decisions)
    requires IsItsLog(c) && IsItsLog(c')
  {
    && AllSettle(Accepts6(c), Accepts6(c')) && AllSettle(Parents6(c), Parents6(c')) && Keys7(c) == Keys7(c')
    && AllSettle(Receipts10(c), Receipts10(c'))
    && PolicyFailures(c) == PolicyFailures(c') && CloseFailures(c) == CloseFailures(c')
  }

  /**
   * For fixed bundles and receipts, moving the latest anchors later can only turn unconfirmed items into failures, each
   * acceptance's, event's and receipt's into its own: a pass stays a pass, and a failure stays a failure.
   */
  lemma VerdictIsMonotone(c: Case, c': Case)
    requires WellLoaded(c) && WellLoaded(c') && KnownLater(c, c')
    requires Loaded(c.registry) && Loaded(c.decisions) && Loaded(c'.registry) && Loaded(c'.decisions)
    ensures IsItsLog(c) <==> IsItsLog(c')
    ensures IsItsLog(c) ==> ItemsSettle(c, c')
    ensures |Failures(c)| <= |Failures(c')| && |Failures(c)| + |Waits(c)| == |Failures(c')| + |Waits(c')|
    ensures Failures(c) == [] && Waits(c) == [] <==> Failures(c') == [] && Waits(c') == []
    ensures Failures(c) != [] ==> Failures(c') != []
  {
    hide KnownLater, WellLoaded, Loaded, LogOf, Accepts6, Parents6, Receipts10, AllSettle, PolicyFailures,
      CloseFailures, KeyStandings, AllFailing, AllWaiting;
    KnownLaterGives(c, c');
    if IsItsLog(c) {
      SameRules(c, c');
      AcceptsSettle(c, c');
      ParentsSettle(c, c');
      ReceiptsSettle(c, c');
      SettledReports(Accepts6(c), Accepts6(c'), AcceptedUnmatched);
      SettledReports(Parents6(c), Parents6(c'), ParentUnmatched);
      SettledReports(Receipts10(c), Receipts10(c'), ReceiptNotLogged);
    }
  }

  /** The other rules do not look at completeness. */
  lemma SameRules(c: Case, c': Case)
    requires KnownLater(c, c') && IsItsLog(c) && IsItsLog(c')
    requires Loaded(c.registry) && Loaded(c.decisions) && Loaded(c'.registry) && Loaded(c'.decisions)
    ensures PolicyFailures(c) == PolicyFailures(c') && CloseFailures(c) == CloseFailures(c') && Keys7(c) == Keys7(c')
  {
    hide LogOf, Records, TimeProblems, HashProblems, AmendmentProblems, DecisionsProblems, ClosesFindings,
      DueFindings, ClosedBy, OpensOnPolicy, KeyStandings, Loaded;
    KnownLaterGives(c, c');
    SameOpening(c.decisions, c'.decisions);
  }

  lemma SameOpening(v: View, v': View)
    requires SameEvents(v, v')
    ensures OpensOnPolicy(v) == OpensOnPolicy(v')
  {
  }
}
