/** verify/receipts.go: the policies and windows read of a decision log, said of its records alone. */
module LogPolicies {
  import opened Bytes
  import opened JsonValue
  import opened PhpValues
  import opened RegistryTime
  import opened RegistryLog
  import opened PolicyInForce
  import opened LogContents

  ghost predicate IsPolicy(r: Record)
  {
    (Says(r, "policy.committed") || Says(r, "policy.amended")) && IsObject(Field(Some(r.value), "payload"))
  }

  ghost predicate IsWindows(r: Record)
  {
    Says(r, "policy.windows") && IsObject(Field(Some(r.value), "payload"))
  }

  function VersionOf(r: Record): Option<Value>
  {
    Field(Field(Some(r.value), "payload"), "version")
  }

  /** An earlier policy record is of this version. */
  ghost predicate VersionTaken(records: seq<Record>, n: nat, version: int)
    requires n <= |records|
  {
    exists i :: 0 <= i < n && IsPolicy(records[i]) && VersionOf(records[i]) == Some(Int(version))
  }

  /** The policy a record of a new version commits or amends to. */
  ghost predicate PolicyAt(records: seq<Record>, i: nat, p: Policy)
    requires i < |records|
  {
    var r := records[i];
    var payload := Field(Some(r.value), "payload");
    && IsPolicy(r) && VersionOf(r) == Some(Int(p.version)) && !VersionTaken(records, i, p.version)
    && p.sequence == r.sequence && p.action == Action(r.value) && p.recordedAt == ReceivedAt(r.value)
    && p.hash == Text(Field(payload, "policy_hash")) && p.effectiveAt == ParseTime(Field(payload, "effective_at"))
    && p.rules == Field(payload, "policy") && p.count == Field(Field(payload, "windows"), "count")
    && p.parts == Field(Field(payload, "windows"), "parts")
  }

  /** The next part of the windows of a version already recorded. */
  ghost predicate NextPart(records: seq<Record>, i: nat, version: int, part: int)
    requires i < |records|
  {
    && IsWindows(records[i]) && VersionOf(records[i]) == Some(Int(version)) && VersionTaken(records, i, version)
    && Field(Field(Some(records[i].value), "payload"), "part") == Some(Int(part))
  }

  /** The windows of one version, part by part, as they come numbered 1, 2, 3, ... */
  ghost function PartsRead(records: seq<Record>, n: nat, version: int): seq<seq<Value>>
    requires n <= |records|
  {
    if n == 0 then []
    else
      var before := PartsRead(records, n - 1, version);
      if NextPart(records, n - 1, version, |before| + 1)
      then before + [IterValues(Field(Field(Some(records[n - 1].value), "payload"), "windows"))]
      else before
  }

  /** A policy record without a new integer version, or windows that are not the next part of theirs. */
  ghost predicate OutOfPlace(records: seq<Record>, i: nat)
    requires i < |records|
  {
    || (IsPolicy(records[i]) && forall v :: VersionOf(records[i]) == Some(Int(v)) ==> VersionTaken(records, i, v))
    || (IsWindows(records[i]) && forall v :: !NextPart(records, i, v, |PartsRead(records, i, v)| + 1))
  }

  lemma PolicyWords()
    ensures Ascii("policy.windows") != Ascii("policy.committed") && Ascii("policy.windows") != Ascii("policy.amended")
  {
    assert Ascii("policy.windows")[7] == 0x77 && Ascii("policy.committed")[7] == 0x63;
    assert Ascii("policy.amended")[7] == 0x61;
  }

  /** What one record does to the policies, the windows and their problems. */
  lemma PoliciesAfter(st: Log, r: Record)
    ensures var after, payload := ReadRecord(st, r), Field(Some(r.value), "payload");
            if IsPolicy(r) then
              var next := ReadPolicy(st, r, payload.value);
              && after.policies == next.policies && after.parts == next.parts
              && after.policyProblems == next.policyProblems
            else if IsWindows(r) then
              var next := ReadWindows(st, payload.value);
              && after.policies == next.policies && after.parts == next.parts
              && after.policyProblems == next.policyProblems
            else
              after.policies == st.policies && after.parts == st.parts && after.policyProblems == st.policyProblems
  {
    hide Ascii, Field, Snapshot, PolicyOf, HasVersion, IterValues, CredentialBad, Text, ReceivedAt, Action, KeyOf,
      StatusAfter, HasPrefix;
    PolicyWords();
  }

  lemma AddedVersion(policies: seq<Policy>, p: Policy, v: int)
    ensures HasVersion(policies + [p], v) <==> HasVersion(policies, v) || v == p.version
  {
    var more := policies + [p];
    assert more[|policies|] == p;
    if i :| 0 <= i < |policies| && policies[i].version == v {
      assert more[i].version == v;
    }
  }

  lemma ReadPolicyExactly(st: Log, r: Record)
    requires IsPolicy(r)
    ensures var after, version := ReadRecord(st, r), VersionOf(r);
            if IsInt(version) && !HasVersion(st.policies, version.value.n) then
              var p := PolicyOf(r, Field(Some(r.value), "payload").value, version.value.n);
              && after.policies == st.policies + [p] && after.parts == st.parts[version.value.n := []]
              && after.policyProblems == st.policyProblems && p.version == version.value.n
            else
              && after.policies == st.policies && after.parts == st.parts
              && after.policyProblems == st.policyProblems + 1
  {
    hide Ascii, Field, HasVersion, Text, ReceivedAt, Action, ReadRecord, Says;
    PoliciesAfter(st, r);
  }

  lemma ReadWindowsExactly(st: Log, r: Record)
    requires IsWindows(r)
    ensures var after, version, payload := ReadRecord(st, r), VersionOf(r), Field(Some(r.value), "payload");
            && after.policies == st.policies
            && if && IsInt(version) && HasVersion(st.policies, version.value.n)
                  && Field(payload, "part") == Some(Int(|PartsOf(st, version.value.n)| + 1)) then
                 var more := PartsOf(st, version.value.n) + [IterValues(Field(payload, "windows"))];
                 after.parts == st.parts[version.value.n := more] && after.policyProblems == st.policyProblems
               else after.parts == st.parts && after.policyProblems == st.policyProblems + 1
  {
    hide Ascii, Field, HasVersion, Text, ReceivedAt, Action, ReadRecord, Says, IterValues, PartsOf;
    PoliciesAfter(st, r);
    PolicyWordsApart(r);
  }

  lemma PolicyWordsApart(r: Record)
    requires IsWindows(r)
    ensures !IsPolicy(r)
  {
    hide Ascii, Action;
    PolicyWords();
  }

  lemma TakenPush(records: seq<Record>, n: nat, v: int)
    requires n < |records|
    ensures VersionTaken(records, n + 1, v) <==>
            VersionTaken(records, n, v) || (IsPolicy(records[n]) && VersionOf(records[n]) == Some(Int(v)))
  {
    hide IsPolicy, VersionOf;
  }

  /** A version is known exactly where an earlier policy record is of it. */
  lemma {:induction false} VersionsExactly(records: seq<Record>, n: nat, v: int)
    requires n <= |records|
    ensures HasVersion(ReadLog(records, n).policies, v) <==> VersionTaken(records, n, v)
  {
    hide ReadLog, ReadRecord, Field, VersionOf, HasVersion, VersionTaken, Says, PolicyOf, ReadPolicy, ReadWindows;
    if n == 0 {
      NoVersions(records, v);
    } else {
      var m := n - 1;
      VersionsExactly(records, m, v);
      TakenPush(records, m, v);
      ReadStep(records, n);
      var st, r := ReadLog(records, m), records[m];
      if IsPolicy(r) {
        ReadPolicyExactly(st, r);
        if IsInt(VersionOf(r)) {
          AddedVersion(st.policies, PolicyOf(r, Field(Some(r.value), "payload").value, VersionOf(r).value.n), v);
        }
        IntExactly(VersionOf(r), v);
      } else if IsWindows(r) {
        ReadWindowsExactly(st, r);
      } else {
        PoliciesAfter(st, r);
      }
    }
  }

  lemma IntExactly(v: Option<Value>, n: int)
    ensures v == Some(Int(n)) <==> IsInt(v) && v.value.n == n
  {
  }

  lemma NoVersions(records: seq<Record>, v: int)
    ensures !HasVersion(ReadLog(records, 0).policies, v) && !VersionTaken(records, 0, v)
  {
  }

  lemma PolicyIs(records: seq<Record>, i: nat, p: Policy)
    requires i < |records|
    ensures PolicyAt(records, i, p) <==>
            && IsPolicy(records[i]) && IsInt(VersionOf(records[i]))
            && !VersionTaken(records, i, VersionOf(records[i]).value.n)
            && p == PolicyOf(records[i], Field(Some(records[i].value), "payload").value, VersionOf(records[i]).value.n)
  {
    hide VersionTaken, Says, Field, Text, ReceivedAt, Action, Ascii;
  }

  /** The policies read are those of the records of new versions. */
  lemma {:induction false} PoliciesExactly(records: seq<Record>, n: nat, p: Policy)
    requires n <= |records|
    ensures p in ReadLog(records, n).policies <==> exists i :: 0 <= i < n && PolicyAt(records, i, p)
  {
    hide ReadRecord, PolicyAt, Field, PolicyOf, VersionOf, IsPolicy, IsWindows, HasVersion, VersionTaken, PartsOf,
      IterValues, Says, ReadPolicy, ReadWindows;
    if n > 0 {
      hide ReadLog;
      var m := n - 1;
      PoliciesExactly(records, m, p);
      ReadStep(records, n);
      var st, r := ReadLog(records, m), records[m];
      PolicyIs(records, m, p);
      if IsPolicy(r) {
        ReadPolicyExactly(st, r);
        if IsInt(VersionOf(r)) {
          VersionsExactly(records, m, VersionOf(r).value.n);
        }
      } else if IsWindows(r) {
        ReadWindowsExactly(st, r);
      } else {
        PoliciesAfter(st, r);
      }
    }
  }

  /** The windows held for a version are the parts that came in order. */
  lemma {:induction false} PartsExactly(records: seq<Record>, n: nat, v: int)
    requires n <= |records|
    ensures PartsOf(ReadLog(records, n), v) == PartsRead(records, n, v)
    ensures !VersionTaken(records, n, v) ==> PartsRead(records, n, v) == []
  {
    hide ReadRecord, Field, PolicyOf, VersionOf, IsPolicy, IsWindows, HasVersion, VersionTaken, IterValues, Says,
      ReadPolicy, ReadWindows;
    if n > 0 {
      hide ReadLog;
      var m := n - 1;
      PartsExactly(records, m, v);
      ReadStep(records, n);
      var st, r := ReadLog(records, m), records[m];
      TakenPush(records, m, v);
      if IsPolicy(r) {
        ReadPolicyExactly(st, r);
        if IsInt(VersionOf(r)) {
          VersionsExactly(records, m, VersionOf(r).value.n);
        }
        PolicyNotWindows(r);
      } else if IsWindows(r) {
        ReadWindowsExactly(st, r);
        if IsInt(VersionOf(r)) {
          VersionsExactly(records, m, VersionOf(r).value.n);
        }
      } else {
        PoliciesAfter(st, r);
      }
    }
  }

  lemma PolicyNotWindows(r: Record)
    requires IsPolicy(r)
    ensures !IsWindows(r)
  {
    hide Ascii, Action;
    PolicyWords();
  }

  /** A problem is counted for each record out of place. */
  lemma ProblemAfter(records: seq<Record>, m: nat)
    requires m < |records|
    ensures var st := ReadLog(records, m);
            ReadRecord(st, records[m]).policyProblems == st.policyProblems + if OutOfPlace(records, m) then 1 else 0
  {
    hide ReadRecord, ReadLog, Field, PolicyOf, VersionOf, IsPolicy, IsWindows, HasVersion, VersionTaken, IterValues,
      Says, PartsRead, PartsOf, ReadPolicy, ReadWindows;
    var st, r := ReadLog(records, m), records[m];
    if IsPolicy(r) {
      ReadPolicyExactly(st, r);
      PolicyNotWindows(r);
      if IsInt(VersionOf(r)) {
        var v := VersionOf(r).value.n;
        VersionsExactly(records, m, v);
        assert VersionOf(r) == Some(Int(v));
      }
    } else if IsWindows(r) {
      ReadWindowsExactly(st, r);
      if IsInt(VersionOf(r)) {
        var v := VersionOf(r).value.n;
        VersionsExactly(records, m, v);
        PartsExactly(records, m, v);
        assert NextPart(records, m, v, |PartsRead(records, m, v)| + 1) <==>
               && HasVersion(st.policies, v)
               && Field(Field(Some(r.value), "payload"), "part") == Some(Int(|PartsOf(st, v)| + 1));
      }
    } else {
      PoliciesAfter(st, r);
    }
  }

  lemma {:induction false} PolicyProblemsExactly(records: seq<Record>, n: nat)
    requires n <= |records|
    ensures ReadLog(records, n).policyProblems == 0 <==> forall i :: 0 <= i < n ==> !OutOfPlace(records, i)
  {
    hide ReadRecord, OutOfPlace;
    if n > 0 {
      hide ReadLog;
      PolicyProblemsExactly(records, n - 1);
      ReadStep(records, n);
      ProblemAfter(records, n - 1);
    }
  }

  // ---- the last time received

  ghost predicate LastReceivedAt(records: seq<Record>, n: nat, t: Instant, i: nat)
    requires i < n <= |records|
  {
    ReceivedAt(records[i].value) == Some(t) && forall j :: i < j < n ==> ReceivedAt(records[j].value).None?
  }

  ghost predicate LastReceived(records: seq<Record>, n: nat, t: Instant)
    requires n <= |records|
  {
    exists i :: 0 <= i < n && LastReceivedAt(records, n, t, i)
  }

  lemma LastAfter(st: Log, r: Record)
    ensures ReadRecord(st, r).last == if ReceivedAt(r.value).Some? then ReceivedAt(r.value) else st.last
  {
    hide Ascii, Field, Text, ReceivedAt, Action, ReadAction, StatusAfter;
    var action, payload, at := Action(r.value), Field(Some(r.value), "payload"), ReceivedAt(r.value);
    if IsObject(payload) {
      ActionKeeps(st.(status := StatusAfter(st.status, action), last := if at.Some? then at else st.last), r, action,
        payload.value);
    }
  }

  /** The log's last record is the last of which the time received parses. */
  lemma {:induction false} LastExactly(records: seq<Record>, n: nat, t: Instant)
    requires n <= |records|
    ensures ReadLog(records, n).last == Some(t) <==> LastReceived(records, n, t)
  {
    hide ReadRecord, ReceivedAt;
    if n > 0 {
      hide ReadLog;
      var m := n - 1;
      LastExactly(records, m, t);
      ReadStep(records, n);
      LastAfter(ReadLog(records, m), records[m]);
      if ReceivedAt(records[m].value).Some? {
        if ReceivedAt(records[m].value) == Some(t) {
          assert LastReceivedAt(records, n, t, m);
        }
      } else {
        if i :| 0 <= i < m && LastReceivedAt(records, m, t, i) {
          assert LastReceivedAt(records, n, t, i);
        }
        if i :| 0 <= i < n && LastReceivedAt(records, n, t, i) {
          assert LastReceivedAt(records, m, t, i);
        }
      }
    }
  }

  // ---- once each, in log order

  /** Every list holds what it holds once, in the order of the log, and all of it from before this sequence. */
  ghost predicate InLogOrder(log: Log, end: int)
  {
    && (forall i :: 0 <= i < |log.policies| ==> log.policies[i].sequence < end)
    && (forall i :: 0 <= i < |log.decisions| ==> log.decisions[i].sequence < end)
    && (forall i :: 0 <= i < |log.accepted| ==> log.accepted[i].sequence < end)
    && (forall i :: 0 <= i < |log.closes| ==> log.closes[i].sequence < end)
    && (forall i, j :: 0 <= i < j < |log.policies| ==> log.policies[i].sequence < log.policies[j].sequence)
    && (forall i, j :: 0 <= i < j < |log.decisions| ==> log.decisions[i].sequence < log.decisions[j].sequence)
    && (forall i, j :: 0 <= i < j < |log.accepted| ==> log.accepted[i].sequence < log.accepted[j].sequence)
    && (forall i, j :: 0 <= i < j < |log.closes| ==> log.closes[i].sequence < log.closes[j].sequence)
  }

  lemma OrderStep(st: Log, r: Record, end: int)
    requires InLogOrder(st, r.sequence) && r.sequence < end
    ensures InLogOrder(ReadRecord(st, r), end)
  {
    ReadRecordGrows(st, r);
    ClosesAfter(st, r);
    hide ReadRecord, IsClose, Ascii, KeyOf, ReceivedAt, Action, IsPolicyAction, HasPrefix;
    var after := ReadRecord(st, r);
    assert forall i :: 0 <= i < |st.policies| ==> after.policies[i] == st.policies[i];
    assert forall i :: 0 <= i < |st.decisions| ==> after.decisions[i] == st.decisions[i];
    assert forall i :: 0 <= i < |st.accepted| ==> after.accepted[i] == st.accepted[i];
  }

  /** Whatever is read is read once, in the order of the log. */
  lemma {:induction false} ReadInOrder(records: seq<Record>, n: nat, end: int)
    requires n <= |records| && Ascending(records) && (n > 0 ==> records[n - 1].sequence < end)
    ensures InLogOrder(ReadLog(records, n), end)
  {
    hide ReadRecord, InLogOrder;
    if n == 0 {
      NothingInOrder(records, end);
    } else {
      hide ReadLog;
      ReadInOrder(records, n - 1, records[n - 1].sequence);
      ReadStep(records, n);
      OrderStep(ReadLog(records, n - 1), records[n - 1], end);
    }
  }

  lemma NothingInOrder(records: seq<Record>, end: int)
    ensures InLogOrder(ReadLog(records, 0), end)
  {
  }
}
