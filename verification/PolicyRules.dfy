/** verify/receipts.go: time order, rules 2 to 4, and the policy in force at a decision. */
module PolicyRules {
  import opened Bytes
  import opened JsonValue
  import opened Canonical
  import opened PhpValues
  import opened Run
  import opened RegistryTime
  import opened RegistryLog

  // ---- time order

  /** Every record's received_at parses and none is before the one preceding it. */
  predicate TimeOrdered(records: seq<Record>, n: nat)
    requires n <= |records|
  {
    if n == 0 then true
    else
      var at := ReceivedAt(records[n - 1].value);
      TimeOrdered(records, n - 1) && at.Some? &&
      (n >= 2 && ReceivedAt(records[n - 2].value).Some? ==> !Before(at.value, ReceivedAt(records[n - 2].value).value))
  }

  function TimeProblems(records: seq<Record>): seq<Finding>
  {
    if TimeOrdered(records, |records|) then [] else [Finding(NotTimeOrdered, ContentIntegrity)]
  }

  /** Stops at the first event out of order. */
  method CheckTimeOrder(run: Run, records: seq<Record>)
    requires run.Valid()
    modifies run
    ensures run.Valid() && run.unconfirmed == old(run.unconfirmed)
    ensures run.failures == old(run.failures) + TimeProblems(records)
  {
    hide Before, Run.Valid;
    var previous: Option<Instant> := None;
    for i := 0 to |records|
      invariant run.Valid() && run.unconfirmed == old(run.unconfirmed) && run.failures == old(run.failures)
      invariant TimeOrdered(records, i) && previous == if i == 0 then None else ReceivedAt(records[i - 1].value)
    {
      var at := ReceivedAt(records[i].value);
      if at.None? || (previous.Some? && Before(at.value, previous.value)) {
        NotOrdered(records, i + 1, |records|);
        run.Report(Finding(NotTimeOrdered, ContentIntegrity));
        return;
      }
      previous := at;
    }
  }

  lemma {:induction false} NotOrdered(records: seq<Record>, m: nat, n: nat)
    requires m <= n <= |records| && !TimeOrdered(records, m)
    ensures !TimeOrdered(records, n)
  {
    if m < n {
      NotOrdered(records, m, n - 1);
    }
  }

  lemma {:induction false} OrderedTimes(records: seq<Record>, n: nat, i: nat, j: nat)
    requires n <= |records| && TimeOrdered(records, n) && i <= j < n
    ensures ReceivedAt(records[i].value).Some? && ReceivedAt(records[j].value).Some?
    ensures !Before(ReceivedAt(records[j].value).value, ReceivedAt(records[i].value).value)
    decreases n, j
  {
    hide ReceivedAt;
    if j < n - 1 {
      OrderedTimes(records, n - 1, i, j);
    } else if i < j {
      OrderedTimes(records, n - 1, i, j - 1);
    }
  }

  // ---- rule 3

  function Joined(parts: seq<seq<Value>>): seq<Value>
  {
    if parts == [] then [] else parts[0] + Joined(parts[1..])
  }

  /** The windows a policy is read with: none where they are not all in the log. */
  function WindowsOf(log: Log, p: Policy): seq<Value>
  {
    var parts := PartsOf(log, p.version);
    if IsObject(p.rules) && IntIs(p.parts, |parts|) && IntIs(p.count, |Joined(parts)|) then Joined(parts) else []
  }

  predicate PolicyHashes(log: Log, p: Policy)
  {
    var parts := PartsOf(log, p.version);
    && IsObject(p.rules) && IntIs(p.parts, |parts|) && IntIs(p.count, |Joined(parts)|)
    && var canon := Canon(Object(Put(p.rules.value.members, Ascii("windows"), Array(Joined(parts)))));
       canon.Some? && Ascii("sha256:") + Sha256Hex(canon.value) == p.hash
  }

  function HashProblems(log: Log, n: nat): nat
    requires n <= |log.policies|
  {
    if n == 0 then log.policyProblems
    else HashProblems(log, n - 1) + if PolicyHashes(log, log.policies[n - 1]) then 0 else 1
  }

  // ---- rule 4

  const MIN_NOTICE_SECONDS := 3600
  const MAX_NOTICE_SECONDS := 3155760000

  predicate NoticeInBounds(v: Option<Value>)
  {
    IsInt(v) && MIN_NOTICE_SECONDS <= v.value.n <= MAX_NOTICE_SECONDS
  }

  function Amendment(): seq<Finding> { [Finding(PolicyAmendment, ContentIntegrity)] }

  function RulesProblems(p: Policy, publicId: Bytes): seq<Finding>
  {
    (if IsObject(p.rules) && Field(p.rules, "registry") == Some(String(publicId)) then [] else Amendment()) +
    (if IsObject(p.rules) && !IntIs(Field(p.rules, "msd_seconds"), MSD_SECONDS) then Amendment() else []) +
    (if IsObject(p.rules) && StrEq(Field(p.rules, "amendment"), "notice")
       && !NoticeInBounds(Field(p.rules, "notice_seconds"))
     then Amendment() else [])
  }

  /** The four cases are tried in order and the first that applies is the one failure. */
  predicate Amends(previous: Policy, p: Policy)
  {
    var notice := Field(previous.rules, "notice_seconds");
    if previous.version == MAX_INT64 || p.version != previous.version + 1 || p.action != Ascii("policy.amended")
      then false
    else if !IsObject(previous.rules) || !StrEq(Field(previous.rules, "amendment"), "notice")
      || !NoticeInBounds(notice) then false
    else if p.recordedAt.None? || previous.effectiveAt.None? || Before(p.recordedAt.value, previous.effectiveAt.value)
      then false
    else p.effectiveAt.Some? && !EffectiveBeforeNotice(p.effectiveAt.value, p.recordedAt.value, notice.value.n)
  }

  predicate Opens(p: Policy)
  {
    p.version == 1 && p.action == Ascii("policy.committed")
  }

  function AmendmentProblems(policies: seq<Policy>, publicId: Bytes, n: nat): seq<Finding>
    requires n <= |policies|
  {
    if n == 0 then []
    else
      var p := policies[n - 1];
      AmendmentProblems(policies, publicId, n - 1) + RulesProblems(p, publicId) +
      if (if n == 1 then Opens(p) else Amends(policies[n - 2], p)) then [] else Amendment()
  }

  method CheckRules(run: Run, p: Policy, publicId: Bytes)
    requires run.Valid()
    modifies run
    ensures run.Valid() && run.unconfirmed == old(run.unconfirmed)
    ensures run.failures == old(run.failures) + RulesProblems(p, publicId)
  {
    hide Field, Ascii, Run.Valid;
    if !IsObject(p.rules) || Field(p.rules, "registry") != Some(String(publicId)) {
      run.Report(Finding(PolicyAmendment, ContentIntegrity));
    }
    if IsObject(p.rules) && !IntIs(Field(p.rules, "msd_seconds"), MSD_SECONDS) {
      run.Report(Finding(PolicyAmendment, ContentIntegrity));
    }
    if IsObject(p.rules) && StrEq(Field(p.rules, "amendment"), "notice")
      && !NoticeInBounds(Field(p.rules, "notice_seconds")) {
      run.Report(Finding(PolicyAmendment, ContentIntegrity));
    }
  }

  method CheckAmendments(run: Run, policies: seq<Policy>, publicId: Bytes)
    requires run.Valid()
    modifies run
    ensures run.Valid() && run.unconfirmed == old(run.unconfirmed)
    ensures run.failures == old(run.failures) + AmendmentProblems(policies, publicId, |policies|)
  {
    hide RulesProblems, Amends, Opens, Run.Valid;
    var previous: Option<Policy> := None;
    for i := 0 to |policies|
      invariant run.Valid() && run.unconfirmed == old(run.unconfirmed)
      invariant run.failures == old(run.failures) + AmendmentProblems(policies, publicId, i)
      invariant previous == if i == 0 then None else Some(policies[i - 1])
    {
      var p := policies[i];
      CheckRules(run, p, publicId);
      if previous.None? {
        if !Opens(p) {
          run.Report(Finding(PolicyAmendment, ContentIntegrity));
        }
      } else if !Amends(previous.value, p) {
        run.Report(Finding(PolicyAmendment, ContentIntegrity));
      }
      previous := Some(p);
    }
  }

  /**
   * Versions 1, 2, 3, ..., each recorded once its predecessor is in effect and effective at least an hour after that.
   */
  ghost predicate Succession(policies: seq<Policy>)
  {
    && (forall k :: 0 <= k < |policies| ==> policies[k].version == k + 1)
    && (forall k :: 0 < k < |policies| ==> Succeeds(policies, k))
  }

  ghost predicate Succeeds(policies: seq<Policy>, k: nat)
    requires 0 < k < |policies|
  {
    var previous, p := policies[k - 1], policies[k];
    && previous.effectiveAt.Some? && p.recordedAt.Some? && p.effectiveAt.Some?
    && Nanos(previous.effectiveAt.value) <= Nanos(p.recordedAt.value)
    && Nanos(p.recordedAt.value) + MIN_NOTICE_SECONDS * SECOND <= Nanos(p.effectiveAt.value)
  }

  lemma AmendsGives(previous: Policy, p: Policy)
    requires Amends(previous, p)
    ensures p.version == previous.version + 1
    ensures previous.effectiveAt.Some? && p.recordedAt.Some? && p.effectiveAt.Some?
    ensures Nanos(previous.effectiveAt.value) <= Nanos(p.recordedAt.value)
    ensures Nanos(p.recordedAt.value) + MIN_NOTICE_SECONDS * SECOND <= Nanos(p.effectiveAt.value)
  {
    hide Field, Ascii, StrEq;
    var notice := Field(previous.rules, "notice_seconds").value.n;
    BeforeExact(p.recordedAt.value, previous.effectiveAt.value);
    NoticeExact(p.effectiveAt.value, p.recordedAt.value, notice);
  }

  /** With rule 4 silent, the versions succeed one another. */
  lemma {:induction false} AmendmentsSucceed(policies: seq<Policy>, publicId: Bytes, n: nat)
    requires n <= |policies| && AmendmentProblems(policies, publicId, n) == []
    ensures Succession(policies[..n])
  {
    hide RulesProblems, Amends, Nanos;
    if n > 0 {
      AmendmentsSucceed(policies, publicId, n - 1);
      var earlier, all := policies[..n - 1], policies[..n];
      assert forall k :: 0 <= k < n - 1 ==> all[k] == earlier[k];
      if n > 1 {
        AmendsGives(policies[n - 2], policies[n - 1]);
      }
      forall k | 0 < k < n
        ensures Succeeds(all, k)
      {
        if k < n - 1 {
          assert Succeeds(earlier, k);
        }
      }
    }
  }

  lemma {:induction false} EffectiveRises(policies: seq<Policy>, j: nat, k: nat)
    requires Succession(policies) && j < k < |policies|
    ensures policies[j].effectiveAt.Some? && policies[k].recordedAt.Some? && policies[k].effectiveAt.Some?
    ensures Nanos(policies[j].effectiveAt.value) <= Nanos(policies[k].recordedAt.value)
    ensures Nanos(policies[k].recordedAt.value) < Nanos(policies[k].effectiveAt.value)
    decreases k
  {
    assert Succeeds(policies, k);
    if j < k - 1 {
      EffectiveRises(policies, j, k - 1);
    }
  }

  // ---- the policy in force

  predicate Effective(p: Policy, at: Option<Instant>)
  {
    at.Some? && p.effectiveAt.Some? && !Before(at.value, p.effectiveAt.value)
  }

  /** The last policy recorded before a decision and effective by then. */
  function InForceBefore(policies: seq<Policy>, at: Option<Instant>, before: int, n: nat): Option<Policy>
    requires n <= |policies|
  {
    if n == 0 then None
    else if policies[n - 1].sequence < before && Effective(policies[n - 1], at) then Some(policies[n - 1])
    else InForceBefore(policies, at, before, n - 1)
  }

  method InForceAt(policies: seq<Policy>, at: Option<Instant>, before: int) returns (found: Option<Policy>)
    ensures found == InForceBefore(policies, at, before, |policies|)
  {
    hide Effective;
    found := None;
    for i := 0 to |policies|
      invariant found == InForceBefore(policies, at, before, i)
    {
      if policies[i].sequence < before && Effective(policies[i], at) {
        found := Some(policies[i]);
      }
    }
  }

  /** A function of time alone. */
  function InForce(policies: seq<Policy>, at: Option<Instant>, n: nat): Option<Policy>
    requires n <= |policies|
  {
    if n == 0 then None else if Effective(policies[n - 1], at) then Some(policies[n - 1])
      else InForce(policies, at, n - 1)
  }
}
