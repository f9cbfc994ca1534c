/** verify/receipts.go: what was read comes from the log's records, and the policy in force is a function of time. */
module PolicyInForce {
  import opened Bytes
  import opened JsonValue
  import opened PhpValues
  import opened RegistryTime
  import opened RegistryLog
  import opened PolicyRules

  predicate IsPolicyAction(action: Bytes)
  {
    action == Ascii("policy.committed") || action == Ascii("policy.amended")
  }

  ghost predicate PolicyFrom(r: Record, p: Policy)
  {
    p.sequence == r.sequence && p.recordedAt == ReceivedAt(r.value) && IsPolicyAction(Action(r.value))
  }

  ghost predicate DecisionFrom(r: Record, d: Decision)
  {
    d.sequence == r.sequence && d.receivedAt == ReceivedAt(r.value) && HasPrefix(Action(r.value), Ascii(INGRESS))
  }

  ghost predicate SameAcceptance(a: Acceptance, d: Decision)
  {
    a.sequence == d.sequence && a.payload == d.payload && a.receivedAt == d.receivedAt && a.key == KeyOf(d.payload)
  }

  /** One record adds at most one policy, decision or acceptance, and an acceptance only with its decision. */
  ghost predicate Grows(st: Log, st': Log, r: Record)
  {
    && (st'.policies == st.policies
        || (|st'.policies| == |st.policies| + 1 && st'.policies[..|st.policies|] == st.policies
          && PolicyFrom(r, st'.policies[|st.policies|])))
    && ((st'.decisions == st.decisions && st'.accepted == st.accepted)
        || (&& |st'.decisions| == |st.decisions| + 1 && st'.decisions[..|st.decisions|] == st.decisions
            && DecisionFrom(r, st'.decisions[|st.decisions|])
            && if st'.decisions[|st.decisions|].outcome == Ascii("accepted")
               then && |st'.accepted| == |st.accepted| + 1 && st'.accepted[..|st.accepted|] == st.accepted
                    && SameAcceptance(st'.accepted[|st.accepted|], st'.decisions[|st.decisions|])
               else st'.accepted == st.accepted))
  }

  lemma ReadRecordGrows(st: Log, r: Record)
    ensures Grows(st, ReadRecord(st, r), r)
  {
    hide Field, Ascii, Text, HasVersion, Snapshot, CredentialBad, ReadWindows, PartsOf, StatusAfter, ReadAction;
    var action, payload, at := Action(r.value), Field(Some(r.value), "payload"), ReceivedAt(r.value);
    if IsObject(payload) {
      var seen := st.(status := StatusAfter(st.status, action), last := if at.Some? then at else st.last);
      ReadActionGrows(seen, r, payload.value);
    }
  }

  lemma ReadActionGrows(st: Log, r: Record, payload: Value)
    ensures Grows(st, ReadAction(st, r, Action(r.value), payload), r)
  {
    hide *;
    var action := Action(r.value);
    ActionCases(st, r, action, payload);
    if IsPolicyAction(action) {
      ReadPolicyGrows(st, r, payload);
    }
    if HasPrefix(action, Ascii(INGRESS)) {
      PrefixLength(action, Ascii(INGRESS));
      ReadDecisionGrows(st, r, payload, action[|Ascii(INGRESS)|..]);
    }
    OthersGrow(st, ReadAction(st, r, action, payload), r);
  }

  lemma PrefixLength(s: Bytes, prefix: Bytes)
    requires HasPrefix(s, prefix)
    ensures |prefix| <= |s|
  {
  }

  lemma ActionCases(st: Log, r: Record, action: Bytes, payload: Value)
    ensures var st' := ReadAction(st, r, action, payload);
            || (IsPolicyAction(action) && st' == ReadPolicy(st, r, payload))
            || (HasPrefix(action, Ascii(INGRESS)) && |Ascii(INGRESS)| <= |action|
                && st' == ReadDecision(st, r, payload, action[|Ascii(INGRESS)|..]))
            || (st'.policies == st.policies && st'.decisions == st.decisions && st'.accepted == st.accepted)
  {
    hide Field, Ascii, ReadPolicy, ReadDecision, HasVersion, PartsOf, IterValues, Snapshot;
  }

  lemma ReadPolicyGrows(st: Log, r: Record, payload: Value)
    requires IsPolicyAction(Action(r.value))
    ensures Grows(st, ReadPolicy(st, r, payload), r)
  {
    hide Field, Ascii, Text, HasVersion, Action, ReceivedAt, IsPolicyAction;
  }

  lemma ReadDecisionGrows(st: Log, r: Record, payload: Value, outcome: Bytes)
    requires HasPrefix(Action(r.value), Ascii(INGRESS))
    ensures Grows(st, ReadDecision(st, r, payload, outcome), r)
  {
    hide Field, Ascii, Text, CredentialBad, Action, ReceivedAt, HasPrefix;
  }

  lemma OthersGrow(st: Log, st': Log, r: Record)
    ensures st'.policies == st.policies && st'.decisions == st.decisions && st'.accepted == st.accepted ==>
              Grows(st, st', r)
  {
  }

  ghost predicate FromRecords(records: seq<Record>, n: nat, log: Log)
    requires n <= |records|
  {
    && (forall k :: 0 <= k < |log.policies| ==> exists i :: 0 <= i < n && PolicyFrom(records[i], log.policies[k]))
    && (forall k :: 0 <= k < |log.decisions| ==> exists i :: 0 <= i < n && DecisionFrom(records[i], log.decisions[k]))
  }

  lemma FromRecordsStep(records: seq<Record>, n: nat, st: Log, st': Log)
    requires n < |records| && FromRecords(records, n, st) && Grows(st, st', records[n])
    ensures FromRecords(records, n + 1, st')
  {
    hide PolicyFrom, DecisionFrom, SameAcceptance;
    forall k | 0 <= k < |st'.policies|
      ensures exists i :: 0 <= i < n + 1 && PolicyFrom(records[i], st'.policies[k])
    {
      if k < |st.policies| {
        assert st'.policies[k] == st.policies[k];
        var i :| 0 <= i < n && PolicyFrom(records[i], st.policies[k]);
        assert PolicyFrom(records[i], st'.policies[k]);
      } else {
        assert PolicyFrom(records[n], st'.policies[k]);
      }
    }
    forall k | 0 <= k < |st'.decisions|
      ensures exists i :: 0 <= i < n + 1 && DecisionFrom(records[i], st'.decisions[k])
    {
      if k < |st.decisions| {
        assert st'.decisions[k] == st.decisions[k];
        var i :| 0 <= i < n && DecisionFrom(records[i], st.decisions[k]);
        assert DecisionFrom(records[i], st'.decisions[k]);
      } else {
        assert DecisionFrom(records[n], st'.decisions[k]);
      }
    }
  }

  /** Whatever was read was read from one of the records. */
  lemma {:induction false} ReadFromRecords(records: seq<Record>, n: nat)
    requires n <= |records|
    ensures FromRecords(records, n, ReadLog(records, n))
  {
    hide *;
    if n == 0 {
      NothingRead(records);
    } else {
      ReadFromRecords(records, n - 1);
      ReadRecordGrows(ReadLog(records, n - 1), records[n - 1]);
      ReadStep(records, n);
      FromRecordsStep(records, n - 1, ReadLog(records, n - 1), ReadLog(records, n));
    }
  }

  lemma NothingRead(records: seq<Record>)
    ensures ReadLog(records, 0) == EMPTY && FromRecords(records, 0, ReadLog(records, 0))
  {
  }

  lemma ReadStep(records: seq<Record>, n: nat)
    requires 0 < n <= |records|
    ensures ReadLog(records, n) == ReadRecord(ReadLog(records, n - 1), records[n - 1])
  {
    hide ReadRecord;
  }

  lemma PolicyRecord(records: seq<Record>, k: nat) returns (i: nat)
    requires k < |ReadLog(records, |records|).policies|
    ensures i < |records| && PolicyFrom(records[i], ReadLog(records, |records|).policies[k])
  {
    hide ReadLog, PolicyFrom;
    ReadFromRecords(records, |records|);
    i :| 0 <= i < |records| && PolicyFrom(records[i], ReadLog(records, |records|).policies[k]);
  }

  lemma DecisionRecord(records: seq<Record>, k: nat) returns (i: nat)
    requires k < |ReadLog(records, |records|).decisions|
    ensures i < |records| && DecisionFrom(records[i], ReadLog(records, |records|).decisions[k])
  {
    hide ReadLog, DecisionFrom;
    ReadFromRecords(records, |records|);
    i :| 0 <= i < |records| && DecisionFrom(records[i], ReadLog(records, |records|).decisions[k]);
  }

  // ---- the filter on the record's place in the log

  /** No policy record is a decision. */
  lemma PolicyIsNoDecision(r: Record)
    ensures !(IsPolicyAction(Action(r.value)) && HasPrefix(Action(r.value), Ascii(INGRESS)))
  {
    hide Field, Text;
    assert Ascii("policy.committed")[0] != Ascii(INGRESS)[0] && Ascii("policy.amended")[0] != Ascii(INGRESS)[0];
  }

  /** Both time checks and rules 2 to 4 passed, and record 1 was read as the first policy. */
  ghost predicate Governed(records: seq<Record>, publicId: Bytes)
  {
    var policies := ReadLog(records, |records|).policies;
    && Ascending(records) && TimeOrdered(records, |records|)
    && AmendmentProblems(policies, publicId, |policies|) == []
    && records != [] && policies != [] && policies[0].sequence == records[0].sequence
  }

  lemma GovernedGives(records: seq<Record>, publicId: Bytes)
    requires Governed(records, publicId)
    ensures var policies := ReadLog(records, |records|).policies;
            && Ascending(records) && TimeOrdered(records, |records|) && Succession(policies)
            && records != [] && policies != [] && policies[0].sequence == records[0].sequence
  {
    hide ReadLog, Succession, TimeOrdered, Ascending;
    var policies := ReadLog(records, |records|).policies;
    AmendmentsSucceed(policies, publicId, |policies|);
    assert policies[..|policies|] == policies;
  }

  lemma SameRecord(records: seq<Record>, i: nat, j: nat)
    requires Ascending(records) && i < |records| && j < |records|
    ensures records[i].sequence < records[j].sequence <==> i < j
    ensures records[i].sequence == records[j].sequence <==> i == j
  {
  }

  /** A policy effective by a decision's received_at was recorded before it: the filter on sequence is redundant. */
  lemma EffectiveMeansEarlier(records: seq<Record>, publicId: Bytes, k: nat, m: nat)
    requires Governed(records, publicId)
    requires k < |ReadLog(records, |records|).policies| && m < |ReadLog(records, |records|).decisions|
    requires Effective(ReadLog(records, |records|).policies[k], ReadLog(records, |records|).decisions[m].receivedAt)
    ensures ReadLog(records, |records|).policies[k].sequence < ReadLog(records, |records|).decisions[m].sequence
  {
    hide ReadLog, Governed, Succession, TimeOrdered, Ascending, IsPolicyAction, HasPrefix, Action, ReceivedAt, Nanos;
    GovernedGives(records, publicId);
    var log := ReadLog(records, |records|);
    var p, d := log.policies[k], log.decisions[m];
    var i := PolicyRecord(records, k);
    var j := DecisionRecord(records, m);
    SameRecord(records, i, j);
    PolicyIsNoDecision(records[j]);
    if k == 0 {
      SameRecord(records, i, 0);
      SameRecord(records, 0, j);
    } else if j <= i {
      OrderedTimes(records, |records|, j, i);
      EffectiveRises(log.policies, 0, k);
      BeforeExact(p.recordedAt.value, d.receivedAt.value);
      BeforeExact(d.receivedAt.value, p.effectiveAt.value);
      assert false;
    }
  }

  lemma {:induction false} FilterRedundant(records: seq<Record>, publicId: Bytes, m: nat, n: nat)
    requires Governed(records, publicId)
    requires n <= |ReadLog(records, |records|).policies| && m < |ReadLog(records, |records|).decisions|
    ensures var log := ReadLog(records, |records|);
            var d := log.decisions[m];
            InForceBefore(log.policies, d.receivedAt, d.sequence, n) == InForce(log.policies, d.receivedAt, n)
  {
    hide ReadLog, Governed, Effective;
    var log := ReadLog(records, |records|);
    if n > 0 {
      FilterRedundant(records, publicId, m, n - 1);
      if Effective(log.policies[n - 1], log.decisions[m].receivedAt) {
        EffectiveMeansEarlier(records, publicId, n - 1, m);
      }
    }
  }

  // ---- time alone, and never back

  /** The policy in force is the one with the highest version effective by then. */
  lemma {:induction false} InForceIsHighest(policies: seq<Policy>, at: Option<Instant>, n: nat)
    requires n <= |policies| && Succession(policies)
    ensures InForce(policies, at, n).None? ==> forall k :: 0 <= k < n ==> !Effective(policies[k], at)
    ensures InForce(policies, at, n).Some? ==> var v := InForce(policies, at, n).value.version;
              && 1 <= v <= n && InForce(policies, at, n).value == policies[v - 1] && Effective(policies[v - 1], at)
              && forall k :: v <= k < n ==> !Effective(policies[k], at)
  {
    hide Effective;
    if n > 0 && !Effective(policies[n - 1], at) {
      InForceIsHighest(policies, at, n - 1);
    }
  }

  /** What is in force at one moment is superseded, if at all, only by a higher version later. */
  lemma NeverBack(policies: seq<Policy>, at: Option<Instant>, later: Option<Instant>)
    requires Succession(policies) && NoLater(at, later)
    requires InForce(policies, at, |policies|).Some?
    ensures InForce(policies, later, |policies|).Some?
    ensures InForce(policies, at, |policies|).value.version <= InForce(policies, later, |policies|).value.version
  {
    hide Succession, InForce, Nanos;
    InForceIsHighest(policies, at, |policies|);
    InForceIsHighest(policies, later, |policies|);
    var p := InForce(policies, at, |policies|).value;
    StaysEffective(p, at, later);
  }

  lemma StaysEffective(p: Policy, at: Option<Instant>, later: Option<Instant>)
    requires NoLater(at, later) && Effective(p, at)
    ensures Effective(p, later)
  {
    hide Nanos;
    BeforeExact(later.value, at.value);
    BeforeExact(at.value, p.effectiveAt.value);
    BeforeExact(later.value, p.effectiveAt.value);
  }

  ghost predicate EffectiveSooner(p: Policy, q: Policy)
  {
    p.effectiveAt.Some? && q.effectiveAt.Some? && Nanos(p.effectiveAt.value) < Nanos(q.effectiveAt.value)
  }

  /**
   * The policy a decision is held to is a function of its received_at alone, and along the log its version never goes
   * back. Versions run 1, 2, 3, ... with strictly increasing effective_at.
   */
  lemma InForceAlongTheLog(records: seq<Record>, publicId: Bytes, a: nat, b: nat)
    requires Governed(records, publicId)
    requires a < |ReadLog(records, |records|).decisions| && b < |ReadLog(records, |records|).decisions|
    requires ReadLog(records, |records|).decisions[a].sequence <= ReadLog(records, |records|).decisions[b].sequence
    ensures var log := ReadLog(records, |records|);
            var (d, e, n) := (log.decisions[a], log.decisions[b], |log.policies|);
            var held, next := InForceBefore(log.policies, d.receivedAt, d.sequence, n),
              InForceBefore(log.policies, e.receivedAt, e.sequence, n);
            && held == InForce(log.policies, d.receivedAt, n) && next == InForce(log.policies, e.receivedAt, n)
            && (held.Some? ==> next.Some? && held.value.version <= next.value.version)
    ensures var policies := ReadLog(records, |records|).policies;
            && (forall k :: 0 <= k < |policies| ==> policies[k].version == k + 1)
            && forall j, k :: 0 <= j < k < |policies| ==> EffectiveSooner(policies[j], policies[k])
  {
    hide ReadLog, Governed, TimeOrdered, Ascending, IsPolicyAction, HasPrefix, Action, ReceivedAt, Nanos,
      InForceBefore, InForce;
    GovernedGives(records, publicId);
    var log := ReadLog(records, |records|);
    FilterRedundant(records, publicId, a, |log.policies|);
    FilterRedundant(records, publicId, b, |log.policies|);
    var i := DecisionRecord(records, a);
    var j := DecisionRecord(records, b);
    SameRecord(records, j, i);
    OrderedTimes(records, |records|, i, j);
    if InForce(log.policies, log.decisions[a].receivedAt, |log.policies|).Some? {
      NeverBack(log.policies, log.decisions[a].receivedAt, log.decisions[b].receivedAt);
    }
    forall j, k | 0 <= j < k < |log.policies|
      ensures EffectiveSooner(log.policies[j], log.policies[k])
    {
      EffectiveRises(log.policies, j, k);
    }
  }
}
