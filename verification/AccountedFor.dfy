/** verify/receipts.go: silent rules 5 to 7 account for everything, one to one. */
module AccountedFor {
  import opened Bytes
  import opened JsonValue
  import opened PhpValues
  import opened Run
  import opened RegistryTime
  import opened RegistryLog
  import opened PolicyRules
  import opened PolicyInForce
  import opened LogPolicies
  import opened Reconcile
  import opened Accounting
  import opened Reconciled

  // ---- acceptances and decisions

  ghost predicate Decided(log: Log, i: nat)
    requires i < |log.accepted|
  {
    exists m :: 0 <= m < |log.decisions| && IsAcceptance(log, i, m)
  }

  ghost predicate Taken(log: Log, m: nat)
    requires m < |log.decisions|
  {
    exists i :: 0 <= i < |log.accepted| && IsAcceptance(log, i, m)
  }

  /** Every acceptance was read from an accepting decision, and every accepting decision as an acceptance. */
  ghost predicate Aligned(log: Log)
  {
    && (forall i :: 0 <= i < |log.accepted| ==> Decided(log, i))
    && (forall m :: 0 <= m < |log.decisions| && log.decisions[m].outcome == Ascii("accepted") ==> Taken(log, m))
  }

  /** Acceptance i is what was read from decision m. */
  ghost predicate IsAcceptance(log: Log, i: nat, m: nat)
    requires i < |log.accepted| && m < |log.decisions|
  {
    log.decisions[m].outcome == Ascii("accepted") && SameAcceptance(log.accepted[i], log.decisions[m])
  }

  lemma AlignedStep(st: Log, st': Log, r: Record)
    requires Aligned(st) && Grows(st, st', r)
    ensures Aligned(st')
  {
    hide PolicyFrom, DecisionFrom, SameAcceptance, Ascii;
    forall i | 0 <= i < |st'.accepted|
      ensures Decided(st', i)
    {
      if i < |st.accepted| {
        assert st'.accepted[i] == st.accepted[i] && Decided(st, i);
        var m :| 0 <= m < |st.decisions| && IsAcceptance(st, i, m);
        assert st'.decisions[m] == st.decisions[m];
        assert IsAcceptance(st', i, m);
      } else {
        assert IsAcceptance(st', i, |st.decisions|);
      }
    }
    forall m | 0 <= m < |st'.decisions| && st'.decisions[m].outcome == Ascii("accepted")
      ensures Taken(st', m)
    {
      if m < |st.decisions| {
        assert st'.decisions[m] == st.decisions[m] && Taken(st, m);
        var i :| 0 <= i < |st.accepted| && IsAcceptance(st, i, m);
        assert st'.accepted[i] == st.accepted[i];
        assert IsAcceptance(st', i, m);
      } else {
        assert IsAcceptance(st', |st.accepted|, m);
      }
    }
  }

  lemma {:induction false} LogAligned(records: seq<Record>, n: nat)
    requires n <= |records|
    ensures Aligned(ReadLog(records, n))
  {
    hide *;
    if n == 0 {
      EmptyAligned(records);
    } else {
      LogAligned(records, n - 1);
      ReadRecordGrows(ReadLog(records, n - 1), records[n - 1]);
      ReadStep(records, n);
      AlignedStep(ReadLog(records, n - 1), ReadLog(records, n), records[n - 1]);
    }
  }

  lemma EmptyAligned(records: seq<Record>)
    ensures Aligned(ReadLog(records, 0))
  {
    NothingRead(records);
  }

  // ---- silence

  lemma OneFine(s: Standing, check: Check)
    requires Failing(s, check) == [] && Waiting(s, check) == []
    ensures s == Fine
  {
  }

  lemma {:induction false} AllFine(ss: seq<Standing>, check: Check)
    requires AllFailing(ss, check) == [] && AllWaiting(ss, check) == []
    ensures forall i :: 0 <= i < |ss| ==> ss[i] == Fine
  {
    hide Failing, Waiting;
    if ss != [] {
      var init := ss[..|ss| - 1];
      AllFine(init, check);
      OneFine(ss[|ss| - 1], check);
      forall i | 0 <= i < |ss|
        ensures ss[i] == Fine
      {
        assert i < |init| ==> ss[i] == init[i];
      }
    }
  }

  /** Nothing failed and nothing is unconfirmed under rules 5 to 7. */
  ghost predicate Silent(c: Case)
    requires Loaded(c.registry) && Loaded(c.decisions)
  {
    && DecisionsProblems(LogOf(c), |LogOf(c).decisions|) == []
    && AllFailing(Accepts6(c), AcceptedUnmatched) == [] && AllWaiting(Accepts6(c), AcceptedUnmatched) == []
    && AllFailing(Parents6(c), ParentUnmatched) == [] && AllWaiting(Parents6(c), ParentUnmatched) == []
    && AllFailing(Keys7(c), DoubleAcceptance) == [] && AllWaiting(Keys7(c), DoubleAcceptance) == []
  }

  lemma {:induction false} ClaimsCount(v: View, lastAt: Option<Instant>, complete: Option<Instant>,
                                       accepted: seq<Acceptance>, s: int, n: nat)
    requires n <= |accepted| && forall i :: 0 <= i < n ==> AcceptStanding(v, lastAt, complete, accepted[i]) == Fine
    ensures Claims(v, lastAt, complete, accepted, s, n) >= 1 ==>
              exists i :: 0 <= i < n && NamedSequence(accepted[i].payload) == Some(s)
    ensures forall i :: 0 <= i < n && NamedSequence(accepted[i].payload) == Some(s) ==>
              Claims(v, lastAt, complete, accepted, s, n) >= 1
    ensures forall i, j ::
              (0 <= i < j < n && NamedSequence(accepted[i].payload) == Some(s)
               && NamedSequence(accepted[j].payload) == Some(s)) ==>
                Claims(v, lastAt, complete, accepted, s, n) >= 2
  {
    hide AcceptStanding, NamedSequence;
    if n > 0 {
      ClaimsCount(v, lastAt, complete, accepted, s, n - 1);
    }
  }

  /** Every acceptance names a registry event that agrees with it, and holds a key. */
  ghost predicate Matches(v: View, a: Acceptance)
  {
    && NamedSequence(a.payload).Some? && NamedSequence(a.payload).value in v.events
      && Agrees(v.events[NamedSequence(a.payload).value], a)
    && a.key.Some?
  }

  ghost predicate OneToOne(v: View, accepted: seq<Acceptance>)
  {
    && (forall i :: 0 <= i < |accepted| ==> Matches(v, accepted[i]))
    && (forall i, j :: 0 <= i < j < |accepted| ==>
          NamedSequence(accepted[i].payload) != NamedSequence(accepted[j].payload)
            && accepted[i].key != accepted[j].key)
    && (forall s :: s in v.order ==> exists i :: 0 <= i < |accepted| && NamedSequence(accepted[i].payload) == Some(s))
  }

  lemma SilentStandings(c: Case)
    requires Loaded(c.registry) && Loaded(c.decisions) && Silent(c)
    ensures forall i :: 0 <= i < |LogOf(c).accepted| ==>
              AcceptStanding(c.registry, RegistryLast(c), Complete(c.registry), LogOf(c).accepted[i]) == Fine
    ensures forall i :: 0 <= i < |LogOf(c).accepted| ==> KeyStanding(LogOf(c).accepted, i) == Fine
    ensures forall i :: 0 <= i < |c.registry.order| ==>
              ParentOf(c.registry, RegistryLast(c), Complete(c.registry), LogOf(c), Complete(c.decisions), i) == Fine
  {
    hide AllFailing, AllWaiting, AcceptStanding, KeyStanding, ParentOf, LogOf, RegistryLast, Complete,
      DecisionsProblems, Loaded;
    AllFine(Accepts6(c), AcceptedUnmatched);
    AllFine(Parents6(c), ParentUnmatched);
    AllFine(Keys7(c), DoubleAcceptance);
    var log := LogOf(c);
    forall i | 0 <= i < |log.accepted|
      ensures AcceptStanding(c.registry, RegistryLast(c), Complete(c.registry), log.accepted[i]) == Fine
      ensures KeyStanding(log.accepted, i) == Fine
    {
      assert Accepts6(c)[i] == AcceptStanding(c.registry, RegistryLast(c), Complete(c.registry), log.accepted[i]);
      assert Keys7(c)[i] == KeyStanding(log.accepted, i);
    }
    forall i | 0 <= i < |c.registry.order|
      ensures ParentOf(c.registry, RegistryLast(c), Complete(c.registry), log, Complete(c.decisions), i) == Fine
    {
      assert Parents6(c)[i] ==
          ParentOf(c.registry, RegistryLast(c), Complete(c.registry), log, Complete(c.decisions), i);
    }
  }

  lemma FineParent(v: View, lastAt: Option<Instant>, complete: Option<Instant>, log: Log, logComplete: Option<Instant>,
                   i: nat)
    requires Loaded(v) && i < |v.order| && ParentOf(v, lastAt, complete, log, logComplete, i) == Fine
    ensures Claims(v, lastAt, complete, log.accepted, v.order[i], |log.accepted|) == 1
  {
    hide Claims, HighestNamed, ReceivedAt;
  }

  lemma FineKey(accepted: seq<Acceptance>, i: nat)
    requires i < |accepted| && KeyStanding(accepted, i) == Fine
    ensures accepted[i].key.Some? && forall j :: 0 <= j < i ==> accepted[j].key != accepted[i].key
  {
  }

  /** Accepted records and registry events are in bijection, and no commitment key is accepted twice. */
  lemma AccountsForEverything(c: Case)
    requires WellLoaded(c) && Loaded(c.registry) && Loaded(c.decisions) && Silent(c)
    ensures OneToOne(c.registry, LogOf(c).accepted)
  {
    hide Silent, LogOf, RegistryLast, Complete, AcceptStanding, KeyStanding, ParentOf, NamedSequence, Agrees, Claims,
      Loaded;
    var v, accepted, last, complete := c.registry, LogOf(c).accepted, RegistryLast(c), Complete(c.registry);
    SilentStandings(c);
    forall i | 0 <= i < |accepted|
      ensures Matches(v, accepted[i])
    {
      FineNames(v, last, complete, accepted[i]);
      FineKey(accepted, i);
    }
    forall i, j | 0 <= i < j < |accepted|
      ensures NamedSequence(accepted[i].payload) != NamedSequence(accepted[j].payload)
                && accepted[i].key != accepted[j].key
    {
      FineKey(accepted, j);
      assert Matches(v, accepted[i]);
      var s := NamedSequence(accepted[i].payload).value;
      EventIndex(v, s);
      var p :| 0 <= p < |v.order| && v.order[p] == s;
      FineParent(v, last, complete, LogOf(c), Complete(c.decisions), p);
      ClaimsCount(v, last, complete, accepted, s, |accepted|);
    }
    forall s | s in v.order
      ensures exists i :: 0 <= i < |accepted| && NamedSequence(accepted[i].payload) == Some(s)
    {
      var p :| 0 <= p < |v.order| && v.order[p] == s;
      FineParent(v, last, complete, LogOf(c), Complete(c.decisions), p);
      ClaimsCount(v, last, complete, accepted, s, |accepted|);
    }
  }

  lemma EventIndex(v: View, s: int)
    requires Verified(v) && s in v.events
    ensures exists p :: 0 <= p < |v.order| && v.order[p] == s
  {
    assert s in v.order;
  }

  // ---- replays and conflicts

  lemma {:induction false} FirstGives(decisions: seq<Decision>, n: nat, key: Bytes)
    requires n <= |decisions| && key in FirstAcceptances(decisions, n)
    ensures exists l :: 0 <= l < n && decisions[l].outcome == Ascii("accepted")
              && KeyOf(decisions[l].payload) == Some(key)
                        && NamedBy(decisions[l].payload) == Some(FirstAcceptances(decisions, n)[key])
  {
    hide Ascii, NamedBy, KeyOf;
    if key in FirstAcceptances(decisions, n - 1)
      && FirstAcceptances(decisions, n - 1)[key] == FirstAcceptances(decisions, n)[key] {
      FirstGives(decisions, n - 1, key);
    } else {
      assert decisions[n - 1].outcome == Ascii("accepted");
    }
  }

  lemma {:induction false} EachDecision(log: Log, n: nat, m: nat)
    requires m < n <= |log.decisions| && DecisionsProblems(log, n) == []
    ensures DecisionProblems(log, log.decisions[m], HeldBy(FirstAcceptances(log.decisions, m), log.decisions[m])) == []
  {
    hide DecisionProblems, HeldBy, FirstAcceptances;
    if m < n - 1 {
      EachDecision(log, n - 1, m);
    }
  }

  predicate Repeats(outcome: Bytes)
  {
    outcome == Ascii("replay") || outcome == Ascii("conflict")
  }

  lemma RepeatsDiffer()
    ensures Ascii("replay") != Ascii("conflict") && Ascii("accepted") != Ascii("replay")
    ensures Ascii("accepted") != Ascii("conflict")
  {
    assert |Ascii("replay")| == 6 && |Ascii("conflict")| == 8 && |Ascii("accepted")| == 8;
    assert Ascii("accepted")[0] != Ascii("conflict")[0];
  }

  lemma UnbrokenNames(log: Log, d: Decision, held: Option<Value>)
    requires DecisionProblems(log, d, held) == [] && Repeats(d.outcome)
    ensures NamesHolder(d.payload, held)
    ensures d.outcome == Ascii("replay") <==>
              Text(Field(Some(d.payload), "request_digest")) == Text(Field(held, "request_digest"))
  {
    hide Ascii, Needed, Field, InForceBefore, WindowsOf, WindowFor, NamesHolder, IsOpen, UnknownKey, Text, KeyOf;
    RepeatsDiffer();
    var policy := InForceBefore(log.policies, d.receivedAt, d.sequence, |log.policies|);
    var windows := WindowsOf(log, policy.value);
    assert !Broken(d, d.receivedAt.value, WindowFor(windows, KeyOf(d.payload), |windows|), held);
    NamesHolderHeld(d.payload, held);
  }

  lemma NamesHolderHeld(payload: Value, held: Option<Value>)
    ensures NamesHolder(payload, held) ==> held.Some?
  {
    hide Field, Text;
  }

  /** Naming an acceptance's record names the same registry event. */
  lemma NamesSame(payload: Value, held: Value, s: int)
    requires NamesHolder(payload, Some(held)) && held.Object? && Field(Some(held), "sequence") == Some(Int(s))
    ensures NamedSequence(payload) == Some(s)
    ensures Text(Field(NamedBy(payload), "entry_hash")) == Text(Field(Some(held), "entry_hash"))
  {
    hide Field, Text;
  }

  /** The digest of the request an acceptance logs, and the one its own accepted object states. */
  function OwnDigest(a: Acceptance): Bytes
  {
    Text(Field(Some(a.payload), "request_digest"))
  }

  function StatedDigest(a: Acceptance): Bytes
  {
    Text(Field(NamedBy(a.payload), "request_digest"))
  }

  /** What decision m repeats: acceptance i, read from the earlier decision l. */
  ghost predicate Follows(v: View, log: Log, i: nat, l: nat, m: nat)
    requires i < |log.accepted| && l < |log.decisions| && m < |log.decisions|
  {
    var a, d := log.accepted[i], log.decisions[m];
    && l < m && log.decisions[l].sequence < d.sequence && IsAcceptance(log, i, l)
    && a.key.Some? && KeyOf(d.payload) == a.key
    && NamedSequence(d.payload).Some? && NamedSequence(d.payload) == NamedSequence(a.payload)
    && NamedSequence(d.payload).value in v.events
    && Text(Field(NamedBy(d.payload), "entry_hash")) ==
       Text(Field(Some(v.events[NamedSequence(d.payload).value]), "entry_hash"))
    && (d.outcome == Ascii("replay") <==> Text(Field(Some(d.payload), "request_digest")) == StatedDigest(a))
    && RequestDigest(v.events[NamedSequence(d.payload).value], a.key) == OwnDigest(a)
  }

  lemma MatchGives(v: View, a: Acceptance)
    requires Matches(v, a)
    ensures NamedSequence(a.payload).Some? && NamedSequence(a.payload).value in v.events && a.key.Some?
    ensures IsObject(NamedBy(a.payload))
              && Field(NamedBy(a.payload), "sequence") == Some(Int(NamedSequence(a.payload).value))
    ensures Text(Field(Some(v.events[NamedSequence(a.payload).value]), "entry_hash")) ==
            Text(Field(NamedBy(a.payload), "entry_hash"))
  {
    hide Field, Text, RequestDigest;
  }

  lemma StatedIs(a: Acceptance)
    ensures StatedDigest(a) == Text(Field(NamedBy(a.payload), "request_digest"))
  {
  }

  lemma MatchDigest(v: View, a: Acceptance)
    requires Matches(v, a) && NamedSequence(a.payload).Some? && NamedSequence(a.payload).value in v.events
    ensures RequestDigest(v.events[NamedSequence(a.payload).value], a.key) == OwnDigest(a)
  {
    hide Field, Text, RequestDigest, NamedSequence;
  }

  lemma HeldByGives(held: map<Bytes, Value>, d: Decision)
    requires HeldBy(held, d).Some?
    ensures KeyOf(d.payload).Some? && KeyOf(d.payload).value in held
              && HeldBy(held, d) == Some(held[KeyOf(d.payload).value])
  {
    hide KeyOf;
  }

  /**
   * Every replay and conflict comes after its key's one acceptance in the log and names that same registry event. A
   * replay repeats the request digest the acceptance's accepted object states and a conflict does not. That the event's
   * own request recomputes to is the acceptance's other digest, and no rule compares the two: a replay repeats the
   * request of its event exactly where the acceptance states one digest twice.
   */
  lemma RepeatsFollow(c: Case, m: nat)
    requires WellLoaded(c) && Loaded(c.registry) && Loaded(c.decisions) && Silent(c)
    requires m < |LogOf(c).decisions| && Repeats(LogOf(c).decisions[m].outcome)
    ensures exists i, l :: 0 <= i < |LogOf(c).accepted| && 0 <= l < |LogOf(c).decisions|
              && Follows(c.registry, LogOf(c), i, l, m)
  {
    hide *;
    var log, d := LogOf(c), LogOf(c).decisions[m];
    AccountsForEverything(c);
    SilentDecisions(c);
    LogFacts(c);
    EachDecision(log, |log.decisions|, m);
    var firsts := FirstAcceptances(log.decisions, m);
    var held := HeldBy(firsts, d);
    UnbrokenNames(log, d, held);
    NamesHolderHeld(d.payload, held);
    HeldByGives(firsts, d);
    var key := KeyOf(d.payload).value;
    FirstGives(log.decisions, m, key);
    var l :| 0 <= l < m && log.decisions[l].outcome == Ascii("accepted") && KeyOf(log.decisions[l].payload) == Some(key)
             && NamedBy(log.decisions[l].payload) == Some(firsts[key]);
    var i := AcceptanceOf(log, l);
    OneToOneMatch(c.registry, log.accepted, i);
    MatchGives(c.registry, log.accepted[i]);
    MatchDigest(c.registry, log.accepted[i]);
    StatedIs(log.accepted[i]);
    SameAcceptanceGives(log, i, l);
    var s := NamedSequence(log.accepted[i].payload).value;
    ObjectIs(firsts[key]);
    NamesSame(d.payload, firsts[key], s);
    InOrderGives(log, l, m);
    FollowsIs(c.registry, log, i, l, m);
  }

  lemma ObjectIs(v: Value)
    ensures IsObject(Some(v)) <==> v.Object?
  {
  }

  lemma SilentDecisions(c: Case)
    requires Loaded(c.registry) && Loaded(c.decisions) && Silent(c)
    ensures DecisionsProblems(LogOf(c), |LogOf(c).decisions|) == []
  {
    hide LogOf, DecisionsProblems, AllFailing, AllWaiting;
  }

  lemma LogFacts(c: Case)
    requires WellLoaded(c) && Loaded(c.registry) && Loaded(c.decisions)
    ensures Aligned(LogOf(c)) && exists end :: InLogOrder(LogOf(c), end)
  {
    hide Aligned, InLogOrder, ReadLog, Ascending, Verified, Loaded;
    var records, n := Records(c.decisions), |c.decisions.order|;
    RecordsAscend(c.decisions);
    LogAligned(records, n);
    ReadInOrder(records, n, if n == 0 then 0 else records[n - 1].sequence + 1);
  }

  lemma RecordsAscend(v: View)
    requires Verified(v) && Loaded(v)
    ensures Ascending(Records(v)) && |Records(v)| == |v.order|
  {
  }

  lemma AcceptanceOf(log: Log, l: nat) returns (i: nat)
    requires Aligned(log) && l < |log.decisions| && log.decisions[l].outcome == Ascii("accepted")
    ensures i < |log.accepted| && IsAcceptance(log, i, l)
  {
    hide IsAcceptance, Ascii;
    assert Taken(log, l);
    i :| 0 <= i < |log.accepted| && IsAcceptance(log, i, l);
  }

  lemma OneToOneMatch(v: View, accepted: seq<Acceptance>, i: nat)
    requires OneToOne(v, accepted) && i < |accepted|
    ensures Matches(v, accepted[i])
  {
    hide Matches, NamedSequence;
  }

  lemma SameAcceptanceGives(log: Log, i: nat, l: nat)
    requires i < |log.accepted| && l < |log.decisions| && IsAcceptance(log, i, l)
    ensures log.accepted[i].payload == log.decisions[l].payload
              && log.accepted[i].key == KeyOf(log.decisions[l].payload)
  {
    hide KeyOf, Ascii;
  }

  lemma InOrderGives(log: Log, l: nat, m: nat)
    requires (exists end :: InLogOrder(log, end)) && l < m < |log.decisions|
    ensures log.decisions[l].sequence < log.decisions[m].sequence
  {
  }

  lemma FollowsIs(v: View, log: Log, i: nat, l: nat, m: nat)
    requires i < |log.accepted| && l < m < |log.decisions|
    requires log.decisions[l].sequence < log.decisions[m].sequence && IsAcceptance(log, i, l)
    requires log.accepted[i].key.Some? && KeyOf(log.decisions[m].payload) == log.accepted[i].key
    requires NamedSequence(log.decisions[m].payload).Some?
    requires NamedSequence(log.decisions[m].payload) == NamedSequence(log.accepted[i].payload)
    requires NamedSequence(log.decisions[m].payload).value in v.events
    requires Text(Field(NamedBy(log.decisions[m].payload), "entry_hash")) ==
             Text(Field(Some(v.events[NamedSequence(log.decisions[m].payload).value]), "entry_hash"))
    requires log.decisions[m].outcome == Ascii("replay") <==>
               Text(Field(Some(log.decisions[m].payload), "request_digest")) == StatedDigest(log.accepted[i])
    requires RequestDigest(v.events[NamedSequence(log.decisions[m].payload).value], log.accepted[i].key) ==
             OwnDigest(log.accepted[i])
    ensures Follows(v, log, i, l, m)
  {
    hide Text, Field, NamedBy, NamedSequence, KeyOf, Ascii, IsAcceptance;
  }

  // ---- the policy in force

  /**
   * Where rules 1 to 5 are silent and record 1 was read as the first policy, the log is governed by its policies in
   * turn.
   */
  lemma SilentGoverns(c: Case)
    requires WellLoaded(c) && Loaded(c.registry) && Loaded(c.decisions) && IsItsLog(c) && PolicyFailures(c) == []
    requires Records(c.decisions) != [] && LogOf(c).policies != []
    requires LogOf(c).policies[0].sequence == Records(c.decisions)[0].sequence
    ensures Governed(Records(c.decisions), c.publicId.value)
  {
    hide ReadLog, Ascending, TimeOrdered, AmendmentProblems, HashProblems, DecisionsProblems, OpensOnPolicy, Verified,
      Loaded;
    RecordsAscend(c.decisions);
  }

  /** The moment lies in the window: not before it opens and before it closes. */
  ghost predicate Within(window: Option<Value>, at: Instant)
  {
    var (from, until) := (ParseTime(Field(window, "open_at")), ParseTime(Field(window, "close_at")));
    window.Some? && from.Some? && until.Some? && Nanos(from.value) <= Nanos(at) < Nanos(until.value)
  }

  /** The window of the decision's key under the policy in force when it was made. */
  function WindowOfDecision(log: Log, d: Decision): Option<Value>
  {
    var policy := InForceBefore(log.policies, d.receivedAt, d.sequence, |log.policies|);
    if policy.None? then None
    else WindowFor(WindowsOf(log, policy.value), KeyOf(d.payload), |WindowsOf(log, policy.value)|)
  }

  /**
   * Made under a policy in force that it names; accepted, repeated and refused on the right side of the window's ends.
   */
  ghost predicate FollowsPolicy(log: Log, d: Decision)
  {
    var policy := InForceBefore(log.policies, d.receivedAt, d.sequence, |log.policies|);
    var window := WindowOfDecision(log, d);
    && policy.Some? && d.receivedAt.Some? && Field(Some(d.payload), "policy_hash") == Some(String(policy.value.hash))
    && (d.outcome == Ascii("accepted") || Repeats(d.outcome) ==>
      d.status == Active && Within(window, d.receivedAt.value))
    && (d.outcome == Ascii("refused_early") ==>
          && d.status == Active && window.Some? && ParseTime(Field(window, "open_at")).Some?
          && Nanos(d.receivedAt.value) < Nanos(ParseTime(Field(window, "open_at")).value))
    && (d.outcome == Ascii("refused_late") ==>
          && d.status == Active && window.Some? && ParseTime(Field(window, "close_at")).Some?
          && Nanos(ParseTime(Field(window, "close_at")).value) <= Nanos(d.receivedAt.value))
  }

  lemma OutcomesDiffer()
    ensures Ascii("refused_early") != Ascii("refused_late") && Ascii("refused_early") != Ascii("accepted")
    ensures Ascii("refused_late") != Ascii("accepted")
    ensures !Repeats(Ascii("refused_early")) && !Repeats(Ascii("refused_late"))
    ensures !Repeats(Ascii("accepted"))
  {
    assert |Ascii("refused_early")| == 13 && |Ascii("refused_late")| == 12 && |Ascii("accepted")| == 8;
    assert |Ascii("replay")| == 6 && |Ascii("conflict")| == 8;
    assert Ascii("accepted")[0] != Ascii("conflict")[0];
  }

  lemma NeedsActive(outcome: Bytes)
    requires outcome == Ascii("accepted") || Repeats(outcome) || outcome == Ascii("refused_early")
              || outcome == Ascii("refused_late")
    ensures Needed(outcome) == Some(Active)
  {
    hide Ascii;
    assert Ascii("refused_paused") != outcome && Ascii("refused_archived") != outcome by {
      OutcomeLengths();
    }
  }

  lemma OutcomeLengths()
    ensures |Ascii("refused_paused")| == 14 && |Ascii("refused_archived")| == 16
    ensures |Ascii("refused_early")| == 13 && |Ascii("refused_late")| == 12 && |Ascii("accepted")| == 8
    ensures |Ascii("replay")| == 6 && |Ascii("conflict")| == 8
  {
  }

  lemma OpenIsWithin(window: Option<Value>, at: Instant)
    ensures IsOpen(window, at) <==> Within(window, at)
  {
    hide Field, Nanos, Before;
    var (from, until) := (ParseTime(Field(window, "open_at")), ParseTime(Field(window, "close_at")));
    if from.Some? && until.Some? {
      BeforeExact(at, from.value);
      BeforeExact(at, until.value);
    }
  }

  /** One decision rule 5 is silent about. */
  lemma UnfaultedFollows(log: Log, d: Decision, held: Option<Value>)
    requires DecisionProblems(log, d, held) == []
    ensures FollowsPolicy(log, d)
  {
    hide Ascii, Field, InForceBefore, WindowsOf, WindowFor, NamesHolder, IsOpen, Within, UnknownKey, Text, KeyOf,
      Needed, Nanos, Before, Repeats;
    OutcomesDiffer();
    RepeatsAre(d.outcome);
    var window, at := WindowOfDecision(log, d), d.receivedAt.value;
    OpenIsWithin(window, at);
    if d.outcome == Ascii("accepted") || Repeats(d.outcome) || d.outcome == Ascii("refused_early")
      || d.outcome == Ascii("refused_late") {
      NeedsActive(d.outcome);
    }
    var (from, until) := (ParseTime(Field(window, "open_at")), ParseTime(Field(window, "close_at")));
    if from.Some? {
      BeforeExact(at, from.value);
    }
    if until.Some? {
      BeforeExact(at, until.value);
    }
  }

  lemma RepeatsAre(outcome: Bytes)
    ensures Repeats(outcome) <==> outcome == Ascii("replay") || outcome == Ascii("conflict")
    ensures Ascii("replay") != Ascii("conflict")
  {
    RepeatsDiffer();
  }

  /** With rule 5 silent every decision follows the policy in force when it was made. */
  lemma DecisionsFollowPolicy(log: Log, m: nat)
    requires DecisionsProblems(log, |log.decisions|) == [] && m < |log.decisions|
    ensures FollowsPolicy(log, log.decisions[m])
  {
    hide DecisionsProblems, DecisionProblems, FollowsPolicy, FirstAcceptances, HeldBy;
    EachDecision(log, |log.decisions|, m);
    UnfaultedFollows(log, log.decisions[m], HeldBy(FirstAcceptances(log.decisions, m), log.decisions[m]));
  }
}
