/** verify/receipts.go: reconciliation reports each rule exactly where it is broken. */
module ReconciledExactly {
  import opened Bytes
  import opened JsonValue
  import opened PhpValues
  import opened Run
  import opened RegistryTime
  import opened RegistryLog
  import opened PolicyRules
  import opened Reconcile
  import opened Accounting
  import opened WindowCloses
  import opened Reconciled
  import opened LogContents
  import opened LogPolicies
  import opened RuleByRule
  import opened ClosesExactly

  // ---- rule 6, the acceptances

  /** The deadline, so many seconds later, had passed by the time the bundle was known complete. */
  ghost predicate Overdue(at: Option<Instant>, seconds: int, complete: Option<Instant>)
  {
    at.Some? && complete.Some? && Nanos(at.value) + seconds * SECOND <= Nanos(complete.value)
  }

  ghost predicate Earlier(a: Option<Instant>, b: Option<Instant>)
  {
    a.Some? && b.Some? && Nanos(a.value) < Nanos(b.value)
  }

  ghost predicate NamesEvent(payload: Value, s: int)
  {
    Field(Field(Some(payload), "accepted"), "sequence") == Some(Int(s))
  }

  /** The event has the entry hash, the request and the time of receipt that the acceptance says. */
  ghost predicate IsTheEvent(event: Value, a: Acceptance)
  {
    && Text(Field(Some(event), "entry_hash")) == Text(Field(Field(Some(a.payload), "accepted"), "entry_hash"))
    && RequestDigest(event, a.key) == Text(Field(Some(a.payload), "request_digest"))
    && Text(Field(Some(event), "received_at")) == Text(Field(Some(a.record), "received_at"))
  }

  /** The acceptance names this event of the registry, and the event is the one it says. */
  ghost predicate ClaimsEvent(v: View, a: Acceptance, s: int)
  {
    NamesEvent(a.payload, s) && s in v.events && IsTheEvent(v.events[s], a)
  }

  /** Past the registry's range, received no earlier than its last event, and not due there by then. */
  ghost predicate MayBeSealedLater(v: View, last: Option<Instant>, complete: Option<Instant>, a: Acceptance)
  {
    exists s ::
      && NamesEvent(a.payload, s) && s > v.to && !Earlier(a.receivedAt, last)
      && !Overdue(a.receivedAt, 900 + 120, complete)
  }

  ghost predicate Claimant(v: View, a: Acceptance)
  {
    exists s :: ClaimsEvent(v, a, s)
  }

  lemma DueExactly(at: Option<Instant>, seconds: int, complete: Option<Instant>)
    ensures DueBy(at, seconds, complete) <==> Overdue(at, seconds + 120, complete)
  {
    if at.Some? && complete.Some? {
      AfterPlusExact(at.value, seconds + SEAL_GRACE_SECONDS, complete.value);
    }
  }

  lemma EarlierExactly(a: Option<Instant>, b: Option<Instant>)
    ensures Earlier(a, b) <==> a.Some? && b.Some? && Before(a.value, b.value)
  {
    if a.Some? && b.Some? {
      BeforeExact(a.value, b.value);
    }
  }

  lemma NamedExactly(payload: Value, s: int)
    ensures NamedSequence(payload) == Some(s) <==> NamesEvent(payload, s)
  {
    hide Lookup;
  }

  lemma NamedEach(payload: Value)
    ensures forall s :: NamesEvent(payload, s) <==> NamedSequence(payload) == Some(s)
  {
    hide NamedSequence, NamesEvent;
    forall s
      ensures NamesEvent(payload, s) <==> NamedSequence(payload) == Some(s)
    {
      NamedExactly(payload, s);
    }
  }

  /** An acceptance stands exactly where it claims an event, and waits exactly where its event may be sealed later. */
  lemma AcceptExactly(v: View, last: Option<Instant>, complete: Option<Instant>, a: Acceptance)
    requires Verified(v)
    ensures var standing := AcceptStanding(v, last, complete, a);
            && (standing == Fine <==> Claimant(v, a))
            && (standing == Unsure <==> MayBeSealedLater(v, last, complete, a))
    ensures AcceptStanding(v, last, complete, a) == Fine ==>
              NamedSequence(a.payload).Some? && ClaimsEvent(v, a, NamedSequence(a.payload).value)
  {
    hide Verified, NamedSequence, Field, Text, RequestDigest, DueBy, Overdue, Before, Earlier, NamesEvent;
    DueExactly(a.receivedAt, MSD_SECONDS, complete);
    EarlierExactly(a.receivedAt, last);
    NamedEach(a.payload);
    hide Agrees, IsTheEvent;
    var named := NamedSequence(a.payload);
    if named.Some? {
      AgreesExactly(v, a, named.value);
      InRange(v, named.value);
      assert Claimant(v, a) <==> ClaimsEvent(v, a, named.value);
      assert NamesEvent(a.payload, named.value);
    }
  }

  lemma InRange(v: View, s: int)
    requires Verified(v)
    ensures s in v.events ==> s <= v.to
  {
  }

  lemma AgreesExactly(v: View, a: Acceptance, s: int)
    ensures s in v.events ==> (Agrees(v.events[s], a) <==> IsTheEvent(v.events[s], a))
  {
    hide Field, Text, RequestDigest;
  }

  // ---- rule 6, the events

  ghost predicate ClaimedAt(v: View, accepted: seq<Acceptance>, n: nat, s: int, k: nat)
    requires n <= |accepted|
  {
    k < n && ClaimsEvent(v, accepted[k], s)
  }

  lemma FineClaims(v: View, last: Option<Instant>, complete: Option<Instant>, a: Acceptance, s: int)
    requires Verified(v)
    ensures AcceptStanding(v, last, complete, a) == Fine && NamedSequence(a.payload) == Some(s) <==>
            ClaimsEvent(v, a, s)
  {
    hide Verified, AcceptStanding, NamedSequence, NamesEvent, IsTheEvent;
    AcceptExactly(v, last, complete, a);
    NamedExactly(a.payload, s);
  }

  /** No acceptance claims the event, or exactly one does. */
  lemma {:induction false} ClaimsExactly(v: View, last: Option<Instant>, complete: Option<Instant>,
                                         accepted: seq<Acceptance>, s: int, n: nat)
    requires Verified(v) && n <= |accepted|
    ensures var count := Claims(v, last, complete, accepted, s, n);
            && (count == 0 <==> forall k: nat :: !ClaimedAt(v, accepted, n, s, k))
            && (count == 1 <==> exists k: nat :: ClaimedAlone(v, accepted, n, s, k))
  {
    hide Verified, AcceptStanding, NamedSequence, ClaimsEvent;
    if n > 0 {
      var m := n - 1;
      ClaimsExactly(v, last, complete, accepted, s, m);
      FineClaims(v, last, complete, accepted[m], s);
      forall k: nat
        ensures ClaimedAt(v, accepted, n, s, k) <==>
                ClaimedAt(v, accepted, m, s, k) || (k == m && ClaimsEvent(v, accepted[m], s))
      {
      }
      if ClaimsEvent(v, accepted[m], s) {
        if forall k: nat :: !ClaimedAt(v, accepted, m, s, k) {
          assert ClaimedAlone(v, accepted, n, s, m);
        }
        assert ClaimedAt(v, accepted, n, s, m);
      } else {
        forall k: nat
          ensures ClaimedAlone(v, accepted, n, s, k) <==> ClaimedAlone(v, accepted, m, s, k)
        {
        }
      }
    }
  }

  ghost predicate ClaimedAlone(v: View, accepted: seq<Acceptance>, n: nat, s: int, k: nat)
    requires n <= |accepted|
  {
    ClaimedAt(v, accepted, n, s, k) && forall j: nat :: ClaimedAt(v, accepted, n, s, j) ==> j == k
  }

  ghost predicate ClaimedOnce(v: View, accepted: seq<Acceptance>, s: int)
  {
    exists k: nat :: ClaimedAlone(v, accepted, |accepted|, s, k)
  }

  ghost predicate Unclaimed(v: View, accepted: seq<Acceptance>, s: int)
  {
    forall k: nat :: !ClaimedAt(v, accepted, |accepted|, s, k)
  }

  ghost predicate PastAll(accepted: seq<Acceptance>, n: nat, s: int)
    requires n <= |accepted|
  {
    s > 0 && forall k, t :: 0 <= k < n && NamesEvent(accepted[k].payload, t) ==> t < s
  }

  lemma {:induction false} HighestExactly(accepted: seq<Acceptance>, n: nat, s: int)
    requires n <= |accepted|
    ensures s > HighestNamed(accepted, n) <==> PastAll(accepted, n, s)
  {
    hide NamedSequence, NamesEvent;
    if n > 0 {
      HighestExactly(accepted, n - 1, s);
      NamedEach(accepted[n - 1].payload);
      var named := NamedSequence(accepted[n - 1].payload);
      if named.Some? {
        assert NamesEvent(accepted[n - 1].payload, named.value);
      }
      assert PastAll(accepted, n, s) <==> PastAll(accepted, n - 1, s) && (named.Some? ==> named.value < s);
    }
  }

  /** Claimed by none, past every event accepted, received after the log's last record, and not due there by then. */
  ghost predicate MayBeDecidedLater(v: View, log: Log, logComplete: Option<Instant>, s: int)
    requires s in v.events
  {
    var at := ReceivedAt(v.events[s]);
    && Unclaimed(v, log.accepted, s) && PastAll(log.accepted, |log.accepted|, s)
    && Earlier(log.last, at) && !Overdue(at, 900 + 120, logComplete)
  }

  lemma ParentExactly(v: View, last: Option<Instant>, complete: Option<Instant>, log: Log, logComplete: Option<Instant>,
                      i: nat)
    requires Verified(v) && Loaded(v) && i < |v.order|
    ensures var standing := ParentOf(v, last, complete, log, logComplete, i);
            && (standing == Fine <==> ClaimedOnce(v, log.accepted, v.order[i]))
            && (standing == Unsure <==> MayBeDecidedLater(v, log, logComplete, v.order[i]))
  {
    hide Verified, Claims, HighestNamed, ReceivedAt, DueBy, Overdue, Before, Earlier, ClaimedAlone, ClaimedAt, PastAll;
    var s, n := v.order[i], |log.accepted|;
    var at := ReceivedAt(v.events[s]);
    ClaimsExactly(v, last, complete, log.accepted, s, n);
    HighestExactly(log.accepted, n, s);
    DueExactly(at, MSD_SECONDS, logComplete);
    EarlierExactly(log.last, at);
  }

  // ---- rule 10

  /** The log holds the record the receipt names, and the two agree. */
  ghost predicate IsLogged(log: View, r: Receipt)
  {
    r.decision.Some? && r.decision.value in log.events && r.agrees(log.events[r.decision.value])
  }

  ghost predicate MayBeLoggedLater(log: View, logLast: Option<Instant>, complete: Option<Instant>, r: Receipt)
  {
    && r.decision.Some? && r.decision.value > log.to && !Earlier(r.receivedAt, logLast)
    && !Overdue(r.sealBy, 120, complete)
  }

  /** A receipt its record contradicts, or that names no record and can have none, is reported. */
  lemma ReceiptExactly(log: View, logLast: Option<Instant>, complete: Option<Instant>, r: Receipt)
    requires Verified(log)
    ensures var standing := ReceiptStanding(log, logLast, complete, r);
            && (standing == Fine <==> IsLogged(log, r))
            && (standing == Unsure <==> MayBeLoggedLater(log, logLast, complete, r))
  {
    hide Verified, DueBy, Overdue, Before, Earlier;
    DueExactly(r.sealBy, 0, complete);
    EarlierExactly(r.receivedAt, logLast);
    if r.decision.Some? {
      InRange(log, r.decision.value);
    }
  }

  // ---- what standings report

  lemma {:induction false} FailingExactly(ss: seq<Standing>, check: Check)
    ensures AllFailing(ss, check) == [] <==> forall i :: 0 <= i < |ss| ==> ss[i] != Bad
    ensures Uniform(AllFailing(ss, check), check)
  {
    if ss != [] {
      var init := ss[..|ss| - 1];
      FailingExactly(init, check);
      assert forall i :: 0 <= i < |init| ==> init[i] == ss[i];
    }
  }

  lemma {:induction false} WaitingExactly(ss: seq<Standing>, check: Check)
    ensures AllWaiting(ss, check) == [] <==> forall i :: 0 <= i < |ss| ==> ss[i] != Unsure
    ensures forall f :: f in AllWaiting(ss, check) ==> f == Finding(check, Scope)
  {
    if ss != [] {
      var init := ss[..|ss| - 1];
      WaitingExactly(init, check);
      assert forall i :: 0 <= i < |init| ==> init[i] == ss[i];
    }
  }

  // ---- rule by rule

  /** The acceptance has no key, or an earlier one's. */
  ghost predicate KeyRepeats(accepted: seq<Acceptance>, i: nat)
    requires i < |accepted|
  {
    accepted[i].key.None? || exists j :: 0 <= j < i && accepted[j].key == accepted[i].key
  }

  lemma KeyStands(accepted: seq<Acceptance>, i: nat)
    requires i < |accepted|
    ensures KeyStanding(accepted, i) == (if KeyRepeats(accepted, i) then Bad else Fine)
  {
  }

  ghost predicate Unmatched(c: Case, a: Acceptance)
    requires Loaded(c.registry)
  {
    !Claimant(c.registry, a) && !MayBeSealedLater(c.registry, RegistryLast(c), Complete(c.registry), a)
  }

  ghost predicate Unaccounted(c: Case, log: Log, s: int)
    requires s in c.registry.events
  {
    !ClaimedOnce(c.registry, log.accepted, s) && !MayBeDecidedLater(c.registry, log, Complete(c.decisions), s)
  }

  ghost predicate Unlogged(c: Case, log: Log, r: Receipt)
  {
    !IsLogged(c.decisions, r) && !MayBeLoggedLater(c.decisions, log.last, Complete(c.decisions), r)
  }

  ghost predicate NotDense(c: Case)
  {
    c.decisions.from != 1 || c.registry.from != 1
  }

  ghost predicate OutOfTime(c: Case)
    requires Loaded(c.registry) && Loaded(c.decisions)
  {
    !TimesRise(Records(c.registry)) || !TimesRise(Records(c.decisions))
  }

  /** A record out of place, or a policy that does not hash to what it says. */
  ghost predicate BadPolicy(c: Case)
    requires Loaded(c.decisions)
  {
    var log, records := LogOf(c), Records(c.decisions);
    || (exists i :: 0 <= i < |records| && OutOfPlace(records, i))
    || (exists k :: 0 <= k < |log.policies| && !HashesTo(log, log.policies[k]))
  }

  ghost predicate BadAmendment(c: Case)
    requires Loaded(c.decisions) && IsItsLog(c)
  {
    !AmendedRightly(LogOf(c).policies, c.publicId.value, |LogOf(c).policies|)
  }

  ghost predicate BadDecision(c: Case)
    requires Loaded(c.decisions)
  {
    var log := LogOf(c);
    exists m :: 0 <= m < |log.decisions| && !DecisionRight(log, m)
  }

  ghost predicate SomeUnmatched(c: Case)
    requires Loaded(c.registry) && Loaded(c.decisions)
  {
    var log := LogOf(c);
    exists i :: 0 <= i < |log.accepted| && Unmatched(c, log.accepted[i])
  }

  ghost predicate SomeUnaccounted(c: Case)
    requires Loaded(c.registry) && Loaded(c.decisions)
  {
    var log := LogOf(c);
    exists i :: 0 <= i < |c.registry.order| && Unaccounted(c, log, c.registry.order[i])
  }

  ghost predicate SomeKeyRepeats(c: Case)
    requires Loaded(c.decisions)
  {
    var accepted := LogOf(c).accepted;
    exists i :: 0 <= i < |accepted| && KeyRepeats(accepted, i)
  }

  ghost predicate SomeUnable(c: Case)
    requires Loaded(c.decisions)
  {
    var records := Records(c.decisions);
    exists i :: 0 <= i < |records| && Unable(records, i)
  }

  ghost predicate SomeUnlogged(c: Case)
    requires Loaded(c.decisions)
  {
    exists i :: 0 <= i < |c.receipts| && Unlogged(c, LogOf(c), c.receipts[i])
  }

  ghost predicate SomeSealedLater(c: Case)
    requires Loaded(c.registry) && Loaded(c.decisions)
  {
    var log := LogOf(c);
    exists i :: 0 <= i < |log.accepted| &&
      MayBeSealedLater(c.registry, RegistryLast(c), Complete(c.registry), log.accepted[i])
  }

  ghost predicate SomeDecidedLater(c: Case)
    requires Loaded(c.registry) && Loaded(c.decisions)
  {
    exists i :: 0 <= i < |c.registry.order| &&
      MayBeDecidedLater(c.registry, LogOf(c), Complete(c.decisions), c.registry.order[i])
  }

  ghost predicate SomeLoggedLater(c: Case)
    requires Loaded(c.decisions)
  {
    exists i :: 0 <= i < |c.receipts| &&
      MayBeLoggedLater(c.decisions, LogOf(c).last, Complete(c.decisions), c.receipts[i])
  }

  /** What breaks each rule of a log that is the registry's. */
  ghost predicate IsBroken(c: Case, check: Check)
    requires Loaded(c.registry) && Loaded(c.decisions) && IsItsLog(c)
  {
    match check
    case LogNotDense => NotDense(c)
    case NotTimeOrdered => OutOfTime(c)
    case FirstNotPolicy => !FirstCommits(c.decisions)
    case PolicyHash => BadPolicy(c)
    case PolicyAmendment => BadAmendment(c)
    case DecisionPolicy => BadDecision(c)
    case AcceptedUnmatched => SomeUnmatched(c)
    case ParentUnmatched => SomeUnaccounted(c)
    case DoubleAcceptance => SomeKeyRepeats(c)
    case WindowClose => !WindowsClose(LogOf(c))
    case CredentialNotValid => SomeUnable(c)
    case ReceiptNotLogged => SomeUnlogged(c)
    case _ => false
  }

  /** What leaves a rule waiting for a later export. */
  ghost predicate IsWaiting(c: Case, check: Check)
    requires Loaded(c.registry) && Loaded(c.decisions) && IsItsLog(c)
  {
    match check
    case AcceptedUnmatched => SomeSealedLater(c)
    case ParentUnmatched => SomeDecidedLater(c)
    case ReceiptNotLogged => SomeLoggedLater(c)
    case _ => false
  }

  // ---- the rules in groups

  lemma OnlyExactly(condition: bool, own: Check)
    ensures Uniform(Only(condition, own), own) && (Only(condition, own) != [] <==> condition)
  {
  }

  lemma TimesExactly(n: nat, own: Check)
    ensures Uniform(Times(n, Finding(own, ContentIntegrity)), own)
    ensures Times(n, Finding(own, ContentIntegrity)) != [] <==> n > 0
  {
  }

  lemma TimeExactly(records: seq<Record>)
    ensures Uniform(TimeProblems(records), NotTimeOrdered)
    ensures TimeProblems(records) != [] <==> !TimesRise(records)
  {
    hide TimeOrdered, TimesRise;
    OrderedExactly(records, |records|);
    assert records[..|records|] == records;
  }

  lemma OrderReports(c: Case, check: Check)
    requires Loaded(c.registry) && Loaded(c.decisions) && IsItsLog(c)
    ensures Mentions(OrderFailures(c), check) <==>
            check in {LogNotDense, NotTimeOrdered, FirstNotPolicy} && IsBroken(c, check)
  {
    hide Loaded, LogOf, Records, TimesRise, FirstCommits, TimeProblems, Only, Uniform, Mentions, BadPolicy,
      BadAmendment, BadDecision, SomeUnmatched, SomeUnaccounted, SomeKeyRepeats, SomeUnable, SomeUnlogged, WindowsClose;
    var dense, first := c.decisions.from != 1 || c.registry.from != 1, !OpensOnPolicy(c.decisions);
    var a, b, d, e := Only(dense, LogNotDense), TimeProblems(Records(c.registry)), TimeProblems(Records(c.decisions)),
      Only(first, FirstNotPolicy);
    OnlyExactly(dense, LogNotDense);
    OnlyExactly(first, FirstNotPolicy);
    TimeExactly(Records(c.registry));
    TimeExactly(Records(c.decisions));
    FirstExactly(c.decisions);
    MentionsUniform(a, LogNotDense, check);
    MentionsUniform(b, NotTimeOrdered, check);
    MentionsUniform(d, NotTimeOrdered, check);
    MentionsUniform(e, FirstNotPolicy, check);
    MentionsJoin(a, b, check);
    MentionsJoin(a + b, d, check);
    MentionsJoin(a + b + d, e, check);
  }

  lemma FirstExactly(log: View)
    ensures OpensOnPolicy(log) <==> FirstCommits(log)
  {
    hide Field;
  }

  lemma PolicyReports(c: Case, check: Check)
    requires Loaded(c.registry) && Loaded(c.decisions) && IsItsLog(c)
    ensures Mentions(PolicyFailures(c), check) <==>
            && check in {LogNotDense, NotTimeOrdered, FirstNotPolicy, PolicyHash, PolicyAmendment, DecisionPolicy}
            && IsBroken(c, check)
  {
    hide Loaded, ReadLog, Records, TimesRise, FirstCommits, OrderFailures, Uniform, Mentions, HashProblems, Times,
      AmendmentProblems, DecisionsProblems, AmendedRightly, DecisionRight, HashesTo, OutOfPlace,
      NotDense, OutOfTime, SomeUnmatched, SomeUnaccounted, SomeKeyRepeats, SomeUnable, SomeUnlogged, WindowsClose;
    var log, id := LogOf(c), c.publicId.value;
    var n := HashProblems(log, |log.policies|);
    var a, b, d, e := OrderFailures(c), Times(n, Finding(PolicyHash, ContentIntegrity)),
      AmendmentProblems(log.policies, id, |log.policies|), DecisionsProblems(log, |log.decisions|);
    OrderReports(c, check);
    TimesExactly(n, PolicyHash);
    HashesExactly(log, |log.policies|);
    RecordsLength(c.decisions);
    PolicyProblemsExactly(Records(c.decisions), |c.decisions.order|);
    AmendmentsExactly(log.policies, id, |log.policies|);
    RuleByRule.DecisionsExactly(log, |log.decisions|);
    MentionsUniform(b, PolicyHash, check);
    MentionsUniform(d, PolicyAmendment, check);
    MentionsUniform(e, DecisionPolicy, check);
    MentionsJoin(a, b, check);
    MentionsJoin(a + b, d, check);
    MentionsJoin(a + b + d, e, check);
  }

  lemma RecordsLength(v: View)
    requires Loaded(v)
    ensures |Records(v)| == |v.order|
  {
  }

  lemma AcceptsReport(c: Case)
    requires WellLoaded(c) && Loaded(c.registry) && Loaded(c.decisions) && IsItsLog(c)
    ensures AllFailing(Accepts6(c), AcceptedUnmatched) != [] <==> SomeUnmatched(c)
    ensures AllWaiting(Accepts6(c), AcceptedUnmatched) != [] <==> SomeSealedLater(c)
  {
    hide AllFailing, AllWaiting, AcceptStanding, LogOf, RegistryLast, Complete, Loaded, Verified, Claimant,
      MayBeSealedLater;
    FailingExactly(Accepts6(c), AcceptedUnmatched);
    WaitingExactly(Accepts6(c), AcceptedUnmatched);
    var log := LogOf(c);
    forall i | 0 <= i < |log.accepted|
      ensures Accepts6(c)[i] == Bad <==> Unmatched(c, log.accepted[i])
      ensures Accepts6(c)[i] == Unsure <==>
              MayBeSealedLater(c.registry, RegistryLast(c), Complete(c.registry), log.accepted[i])
    {
      AcceptExactly(c.registry, RegistryLast(c), Complete(c.registry), log.accepted[i]);
    }
  }

  lemma ParentsReport(c: Case)
    requires WellLoaded(c) && Loaded(c.registry) && Loaded(c.decisions) && IsItsLog(c)
    ensures AllFailing(Parents6(c), ParentUnmatched) != [] <==> SomeUnaccounted(c)
    ensures AllWaiting(Parents6(c), ParentUnmatched) != [] <==> SomeDecidedLater(c)
  {
    hide AllFailing, AllWaiting, ParentOf, LogOf, RegistryLast, Complete, Verified, ClaimedOnce, MayBeDecidedLater;
    FailingExactly(Parents6(c), ParentUnmatched);
    WaitingExactly(Parents6(c), ParentUnmatched);
    var log := LogOf(c);
    forall i | 0 <= i < |c.registry.order|
      ensures Parents6(c)[i] == Bad <==> Unaccounted(c, log, c.registry.order[i])
      ensures Parents6(c)[i] == Unsure <==>
              MayBeDecidedLater(c.registry, log, Complete(c.decisions), c.registry.order[i])
    {
      ParentExactly(c.registry, RegistryLast(c), Complete(c.registry), log, Complete(c.decisions), i);
    }
  }

  lemma KeysReport(c: Case)
    requires Loaded(c.registry) && Loaded(c.decisions) && IsItsLog(c)
    ensures AllFailing(Keys7(c), DoubleAcceptance) != [] <==> SomeKeyRepeats(c)
    ensures AllWaiting(Keys7(c), DoubleAcceptance) == []
  {
    hide AllFailing, AllWaiting, KeyStanding, LogOf, Loaded, KeyRepeats;
    FailingExactly(Keys7(c), DoubleAcceptance);
    WaitingExactly(Keys7(c), DoubleAcceptance);
    var log := LogOf(c);
    forall i | 0 <= i < |log.accepted|
      ensures Keys7(c)[i] == if KeyRepeats(log.accepted, i) then Bad else Fine
    {
      KeyStands(log.accepted, i);
    }
  }

  lemma ReceiptsReport(c: Case)
    requires WellLoaded(c) && Loaded(c.registry) && Loaded(c.decisions) && IsItsLog(c)
    ensures AllFailing(Receipts10(c), ReceiptNotLogged) != [] <==> SomeUnlogged(c)
    ensures AllWaiting(Receipts10(c), ReceiptNotLogged) != [] <==> SomeLoggedLater(c)
  {
    hide AllFailing, AllWaiting, ReceiptStanding, LogOf, Complete, Loaded, Verified, IsLogged, MayBeLoggedLater;
    FailingExactly(Receipts10(c), ReceiptNotLogged);
    WaitingExactly(Receipts10(c), ReceiptNotLogged);
    var log := LogOf(c);
    forall i | 0 <= i < |c.receipts|
      ensures Receipts10(c)[i] == Bad <==> Unlogged(c, log, c.receipts[i])
      ensures Receipts10(c)[i] == Unsure <==>
              MayBeLoggedLater(c.decisions, log.last, Complete(c.decisions), c.receipts[i])
    {
      ReceiptExactly(c.decisions, log.last, Complete(c.decisions), c.receipts[i]);
    }
  }

  lemma MatchReports(c: Case, check: Check)
    requires WellLoaded(c) && Loaded(c.registry) && Loaded(c.decisions) && IsItsLog(c)
    ensures Mentions(MatchFailures(c), check) <==>
            check in {AcceptedUnmatched, ParentUnmatched, DoubleAcceptance} && IsBroken(c, check)
  {
    hide *;
    var a, b, d := AllFailing(Accepts6(c), AcceptedUnmatched), AllFailing(Parents6(c), ParentUnmatched),
      AllFailing(Keys7(c), DoubleAcceptance);
    MatchFailuresIs(c);
    MatchBroken(c, check);
    AcceptsReport(c);
    ParentsReport(c);
    KeysReport(c);
    FailingExactly(Accepts6(c), AcceptedUnmatched);
    FailingExactly(Parents6(c), ParentUnmatched);
    FailingExactly(Keys7(c), DoubleAcceptance);
    MentionsUniform(a, AcceptedUnmatched, check);
    MentionsUniform(b, ParentUnmatched, check);
    MentionsUniform(d, DoubleAcceptance, check);
    MentionsJoin(a, b, check);
    MentionsJoin(a + b, d, check);
  }

  lemma MatchFailuresIs(c: Case)
    requires Loaded(c.registry) && Loaded(c.decisions)
    ensures MatchFailures(c) ==
            AllFailing(Accepts6(c), AcceptedUnmatched) + AllFailing(Parents6(c), ParentUnmatched) +
            AllFailing(Keys7(c), DoubleAcceptance)
  {
    hide Loaded, Accepts6, Parents6, Keys7, AllFailing;
  }

  lemma MatchBroken(c: Case, check: Check)
    requires Loaded(c.registry) && Loaded(c.decisions) && IsItsLog(c)
    ensures check == AcceptedUnmatched ==> (IsBroken(c, check) <==> SomeUnmatched(c))
    ensures check == ParentUnmatched ==> (IsBroken(c, check) <==> SomeUnaccounted(c))
    ensures check == DoubleAcceptance ==> (IsBroken(c, check) <==> SomeKeyRepeats(c))
  {
    hide Loaded, IsItsLog, SomeUnmatched, SomeUnaccounted, SomeKeyRepeats;
  }

  lemma CloseReports(c: Case, check: Check)
    requires Loaded(c.registry) && Loaded(c.decisions) && IsItsLog(c)
    ensures Mentions(CloseFailures(c), check) <==> check in {WindowClose, CredentialNotValid} && IsBroken(c, check)
  {
    hide Loaded, ReadLog, Records, Mentions, Uniform, ClosesFindings, DueFindings, ClosedBy, Times, ClosesRight,
      ClosesApart, PolicyClosed, Unable, NotDense, OutOfTime, FirstCommits, BadPolicy, BadAmendment,
      BadDecision, SomeUnmatched, SomeUnaccounted, SomeKeyRepeats, SomeUnlogged;
    var log := LogOf(c);
    var a, b, d := ClosesFindings(log, |log.closes|), DueFindings(log, ClosedBy(log, |log.closes|), |log.policies|),
      Times(log.credentialProblems, Finding(CredentialNotValid, ContentIntegrity));
    RecordsExactly(log, |log.closes|);
    DuesExactly(log, |log.policies|);
    TimesExactly(log.credentialProblems, CredentialNotValid);
    RecordsLength(c.decisions);
    CredentialProblemsExactly(Records(c.decisions), |c.decisions.order|);
    MentionsUniform(a, WindowClose, check);
    MentionsUniform(b, WindowClose, check);
    MentionsUniform(d, CredentialNotValid, check);
    MentionsJoin(a, b, check);
    MentionsJoin(a + b, d, check);
  }

  // ---- the whole

  /**
   * Of a log that is the registry's, each rule is reported exactly where it is broken, and waits exactly where a later
   * export may settle it. Of any other log only that is reported.
   */
  lemma ReportsExactly(c: Case, check: Check)
    requires WellLoaded(c) && Loaded(c.registry) && Loaded(c.decisions)
    ensures c.publicId.None? || c.logFor != c.publicId ==>
              Failures(c) == [Finding(NotDecisionLog, ContentIntegrity)] && Waits(c) == []
    ensures IsItsLog(c) ==> (Mentions(Failures(c), check) <==> IsBroken(c, check))
    ensures IsItsLog(c) ==> (Mentions(Waits(c), check) <==> IsWaiting(c, check))
  {
    hide Loaded, LogOf, Mentions, Uniform, AllFailing, AllWaiting, PolicyFailures, MatchFailures, CloseFailures,
      Receipts10, Accepts6, Parents6, Keys7, Verified, MatchWaits, NotDense, OutOfTime, FirstCommits,
      BadPolicy,
      BadAmendment, BadDecision, SomeUnmatched, SomeUnaccounted, SomeKeyRepeats, SomeUnable, SomeUnlogged, WindowsClose,
      IsWaiting;
    if IsItsLog(c) {
      var a, b, d, e := PolicyFailures(c), MatchFailures(c), CloseFailures(c),
        AllFailing(Receipts10(c), ReceiptNotLogged);
      PolicyReports(c, check);
      MatchReports(c, check);
      CloseReports(c, check);
      ReceiptsReport(c);
      FailingExactly(Receipts10(c), ReceiptNotLogged);
      MentionsUniform(e, ReceiptNotLogged, check);
      MentionsJoin(a, b, check);
      MentionsJoin(a + b, d, check);
      MentionsJoin(a + b + d, e, check);
      WaitsReport(c, check);
    }
  }

  lemma MentionsScope(fs: seq<Finding>, own: Check, check: Check)
    requires forall f :: f in fs ==> f == Finding(own, Scope)
    ensures Mentions(fs, check) <==> check == own && fs != []
  {
    if fs != [] {
      assert fs[0] in fs;
    }
  }

  lemma WaitsReport(c: Case, check: Check)
    requires WellLoaded(c) && Loaded(c.registry) && Loaded(c.decisions) && IsItsLog(c)
    ensures Mentions(Waits(c), check) <==> IsWaiting(c, check)
  {
    hide Loaded, LogOf, Mentions, AllWaiting, Receipts10, Accepts6, Parents6, Keys7, Verified, SomeUnmatched,
      SomeUnaccounted, SomeKeyRepeats, SomeUnlogged, SomeSealedLater, SomeDecidedLater, SomeLoggedLater;
    var a, b, d, e := AllWaiting(Accepts6(c), AcceptedUnmatched), AllWaiting(Parents6(c), ParentUnmatched),
      AllWaiting(Keys7(c), DoubleAcceptance), AllWaiting(Receipts10(c), ReceiptNotLogged);
    AcceptsReport(c);
    ParentsReport(c);
    KeysReport(c);
    ReceiptsReport(c);
    WaitingExactly(Accepts6(c), AcceptedUnmatched);
    WaitingExactly(Parents6(c), ParentUnmatched);
    WaitingExactly(Receipts10(c), ReceiptNotLogged);
    MentionsScope(a, AcceptedUnmatched, check);
    MentionsScope(b, ParentUnmatched, check);
    MentionsScope(d, DoubleAcceptance, check);
    MentionsScope(e, ReceiptNotLogged, check);
    MentionsJoin(a, b, check);
    MentionsJoin(a + b, d, check);
    MentionsJoin(a + b + d, e, check);
  }

  /** Reconciliation passes exactly when the log is the registry's and no rule is broken or waits. */
  lemma ReconcilesExactly(c: Case)
    requires WellLoaded(c) && Loaded(c.registry) && Loaded(c.decisions)
    ensures Failures(c) == [] && Waits(c) == [] <==>
            c.publicId.Some? && c.logFor == c.publicId && forall check :: !IsBroken(c, check) && !IsWaiting(c, check)
  {
    hide Loaded, Failures, Waits, IsBroken, IsWaiting, WellLoaded, Mentions;
    ReportsExactly(c, NotDecisionLog);
    if IsItsLog(c) {
      SomeMentioned(Failures(c));
      SomeMentioned(Waits(c));
      forall check
        ensures Mentions(Failures(c), check) <==> IsBroken(c, check)
        ensures Mentions(Waits(c), check) <==> IsWaiting(c, check)
      {
        ReportsExactly(c, check);
      }
      if forall check :: !IsBroken(c, check) && !IsWaiting(c, check) {
        forall check
          ensures !Mentions(Failures(c), check) && !Mentions(Waits(c), check)
        {
          assert !IsBroken(c, check) && !IsWaiting(c, check);
        }
      } else {
        var check :| IsBroken(c, check) || IsWaiting(c, check);
        assert Mentions(Failures(c), check) || Mentions(Waits(c), check);
      }
    }
  }

  lemma SomeMentioned(fs: seq<Finding>)
    ensures fs == [] <==> forall check :: !Mentions(fs, check)
  {
    if fs != [] {
      assert fs[0] in fs;
      assert Mentions(fs, fs[0].check);
    }
  }
}
