/** verify/receipts.go: a registry's decision log, read in order. */
module RegistryLog {
  import opened Bytes
  import opened JsonValue
  import opened PhpValues
  import opened RegistryTime

  /** One event of a verified bundle, whose sequences ascend. */
  datatype Record = Record(sequence: int, value: Value)

  ghost predicate Ascending(records: seq<Record>)
  {
    forall i, j :: 0 <= i < j < |records| ==> records[i].sequence < records[j].sequence
  }

  datatype Status = Active | Paused | Archived

  /** effectiveAt and recordedAt are None where they do not parse. */
  datatype Policy = Policy(
    version: int, sequence: int, hash: Bytes, effectiveAt: Option<Instant>, action: Bytes, recordedAt: Option<Instant>,
    rules: Option<Value>, count: Option<Value>, parts: Option<Value>)

  datatype Acceptance = Acceptance(sequence: int, record: Value, payload: Value, receivedAt: Option<Instant>,
    key: Option<Bytes>)

  datatype Decision = Decision(sequence: int, outcome: Bytes, payload: Value, receivedAt: Option<Instant>,
    status: Status)

  datatype Close = Close(sequence: int, payload: Value)

  /** What has been read so far; the last two count the problems found on the way. */
  datatype Log = Log(
    policies: seq<Policy>, parts: map<int, seq<seq<Value>>>, credentials: map<Bytes, Option<Value>>, status: Status,
    decisions: seq<Decision>, accepted: seq<Acceptance>, closes: seq<Close>, last: Option<Instant>,
    policyProblems: nat, credentialProblems: nat)

  const EMPTY := Log([], map[], map[], Active, [], [], [], None, 0, 0)

  // ---- reading values

  function StringOrNone(v: Option<Value>): Option<Bytes>
  {
    if IsString(v) then Some(v.value.s) else None
  }

  function ReceivedAt(record: Value): Option<Instant>
  {
    ParseTime(Field(Some(record), "received_at"))
  }

  function Action(record: Value): Bytes
  {
    Text(Field(Some(record), "action"))
  }

  function KeyOf(payload: Value): Option<Bytes>
  {
    StringOrNone(Field(Some(payload), "commitment_key"))
  }

  predicate HasVersion(policies: seq<Policy>, version: int)
  {
    exists i :: 0 <= i < |policies| && policies[i].version == version
  }

  // ---- one record

  function StatusAfter(status: Status, action: Bytes): Status
  {
    if action == Ascii("stream.paused") then Paused
    else if action == Ascii("stream.resumed") then Active
    else if action == Ascii("stream.archived") then Archived
    else status
  }

  function PolicyOf(r: Record, payload: Value, version: int): Policy
  {
    var windows := Field(Some(payload), "windows");
    Policy(
      version, r.sequence, Text(Field(Some(payload), "policy_hash")), ParseTime(Field(Some(payload), "effective_at")),
      Action(r.value), ReceivedAt(r.value), Field(Some(payload), "policy"), Field(windows, "count"),
      Field(windows, "parts"))
  }

  function ReadPolicy(st: Log, r: Record, payload: Value): Log
  {
    var version := Field(Some(payload), "version");
    if !IsInt(version) || HasVersion(st.policies, version.value.n) then st.(policyProblems := st.policyProblems + 1)
    else
      var n := version.value.n;
      st.(policies := st.policies + [PolicyOf(r, payload, n)], parts := st.parts[n := []])
  }

  function PartsOf(st: Log, version: int): seq<seq<Value>>
  {
    if version in st.parts then st.parts[version] else []
  }

  /** The parts of one version's windows come numbered from 1. */
  function ReadWindows(st: Log, payload: Value): Log
  {
    var version := Field(Some(payload), "version");
    if && IsInt(version) && HasVersion(st.policies, version.value.n)
       && IntIs(Field(Some(payload), "part"), |PartsOf(st, version.value.n)| + 1)
    then
      var more := PartsOf(st, version.value.n) + [IterValues(Field(Some(payload), "windows"))];
      st.(parts := st.parts[version.value.n := more])
    else st.(policyProblems := st.policyProblems + 1)
  }

  function Snapshot(credentials: map<Bytes, Option<Value>>, items: seq<Value>, n: nat): map<Bytes, Option<Value>>
    requires n <= |items|
  {
    if n == 0 then credentials
    else
      var before, item := Snapshot(credentials, items, n - 1), Some(items[n - 1]);
      var name := Field(item, "credential");
      if IsObject(item) && IsString(name) then before[name.value.s := Field(item, "expires_at")] else before
  }

  /** The log does not show the credential able to submit then. */
  predicate CredentialBad(credentials: map<Bytes, Option<Value>>, credential: Bytes, receivedAt: Option<Instant>)
  {
    if credential !in credentials then true
    else if Nullish(credentials[credential]) then false
    else
      var expiry := ParseTime(credentials[credential]);
      expiry.None? || receivedAt.None? || !Before(receivedAt.value, expiry.value)
  }

  const INGRESS := "ingress."

  function ReadDecision(st: Log, r: Record, payload: Value, outcome: Bytes): Log
  {
    var at := ReceivedAt(r.value);
    var decided := st.(decisions := st.decisions + [Decision(r.sequence, outcome, payload, at, st.status)]);
    if outcome != Ascii("accepted") then decided
    else
      decided.(accepted := st.accepted + [Acceptance(r.sequence, r.value, payload, at, KeyOf(payload))],
               credentialProblems := st.credentialProblems +
                 if CredentialBad(st.credentials, Text(Field(Some(payload), "credential")), at) then 1 else 0)
  }

  function ReadAction(st: Log, r: Record, action: Bytes, payload: Value): Log
  {
    var credential := Field(Some(payload), "credential");
    if action == Ascii("policy.committed") || action == Ascii("policy.amended") then ReadPolicy(st, r, payload)
    else if action == Ascii("policy.windows") then ReadWindows(st, payload)
    else if action == Ascii("credentials.snapshot") then
      var items := IterValues(Field(Some(payload), "credentials"));
      st.(credentials := Snapshot(st.credentials, items, |items|))
    else if action == Ascii("credential.issued") && IsString(credential) then
      st.(credentials := st.credentials[credential.value.s := Field(Some(payload), "expires_at")])
    else if (action == Ascii("credential.revoked") || action == Ascii("credential.expired"))
      && IsString(credential) then
      st.(credentials := st.credentials - {credential.value.s})
    else if action == Ascii("window.closed") then st.(closes := st.closes + [Close(r.sequence, payload)])
    else if !HasPrefix(action, Ascii(INGRESS)) then st
    else ReadDecision(st, r, payload, action[|Ascii(INGRESS)|..])
  }

  function ReadRecord(st: Log, r: Record): Log
  {
    var action, payload, at := Action(r.value), Field(Some(r.value), "payload"), ReceivedAt(r.value);
    var seen := st.(status := StatusAfter(st.status, action), last := if at.Some? then at else st.last);
    if IsObject(payload) then ReadAction(seen, r, action, payload.value) else seen
  }

  function ReadLog(records: seq<Record>, n: nat): Log
    requires n <= |records|
  {
    if n == 0 then EMPTY else ReadRecord(ReadLog(records, n - 1), records[n - 1])
  }

  // ---- the loop

  class LogReader {
    var policies: seq<Policy>
    var policyByVersion: map<int, Policy>
    var parts: map<int, seq<seq<Value>>>
    var credentials: map<Bytes, Option<Value>>
    var status: Status
    var decisions: seq<Decision>
    var accepted: seq<Acceptance>
    var closes: seq<Close>
    var last: Option<Instant>
    var policyProblems: nat
    var credentialProblems: nat

    ghost predicate Valid()
      reads this
    {
      && (forall v :: v in policyByVersion <==> HasVersion(policies, v))
      && (forall v :: v in parts <==> v in policyByVersion)
    }

    function State(): Log
      reads this
    {
      Log(policies, parts, credentials, status, decisions, accepted, closes, last, policyProblems, credentialProblems)
    }

    constructor ()
      ensures Valid() && State() == EMPTY
    {
      policies, policyByVersion, parts, credentials, status := [], map[], map[], map[], Active;
      decisions, accepted, closes, last, policyProblems, credentialProblems := [], [], [], None, 0, 0;
    }

    method Policies(r: Record, payload: Value)
      requires Valid()
      modifies this
      ensures Valid() && State() == ReadPolicy(old(State()), r, payload)
    {
      hide Field, PolicyOf, Ascii;
      var version := Field(Some(payload), "version");
      if !IsInt(version) || version.value.n in policyByVersion {
        policyProblems := policyProblems + 1;
        return;
      }
      var p := PolicyOf(r, payload, version.value.n);
      VersionAdded(policies, r, payload, version.value.n);
      policies := policies + [p];
      policyByVersion := policyByVersion[version.value.n := p];
      parts := parts[version.value.n := []];
    }

    method Windows(payload: Value)
      requires Valid()
      modifies this
      ensures Valid() && State() == ReadWindows(old(State()), payload)
    {
      hide Field, Ascii;
      var version := Field(Some(payload), "version");
      if !IsInt(version) || version.value.n !in policyByVersion ||
         !IntIs(Field(Some(payload), "part"), |parts[version.value.n]| + 1) {
        policyProblems := policyProblems + 1;
        return;
      }
      parts := parts[version.value.n := parts[version.value.n] + [IterValues(Field(Some(payload), "windows"))]];
    }

    method Credentials(items: seq<Value>)
      requires Valid()
      modifies this`credentials
      ensures Valid() && credentials == Snapshot(old(credentials), items, |items|)
    {
      hide Field, Ascii, HasVersion;
      for i := 0 to |items|
        invariant Valid() && credentials == Snapshot(old(credentials), items, i)
      {
        var name := Field(Some(items[i]), "credential");
        if IsObject(Some(items[i])) && IsString(name) {
          credentials := credentials[name.value.s := Field(Some(items[i]), "expires_at")];
        }
      }
    }

    method Decisions(r: Record, payload: Value, outcome: Bytes)
      requires Valid()
      modifies this
      ensures Valid() && State() == ReadDecision(old(State()), r, payload, outcome)
    {
      hide Field, Ascii, CredentialBad, HasVersion, Text;
      var at := ReceivedAt(r.value);
      decisions := decisions + [Decision(r.sequence, outcome, payload, at, status)];
      if outcome != Ascii("accepted") {
        return;
      }
      if CredentialBad(credentials, Text(Field(Some(payload), "credential")), at) {
        credentialProblems := credentialProblems + 1;
      }
      accepted := accepted + [Acceptance(r.sequence, r.value, payload, at, KeyOf(payload))];
    }

    method Act(r: Record, action: Bytes, payload: Value)
      requires Valid()
      modifies this
      ensures Valid() && State() == ReadAction(old(State()), r, action, payload)
    {
      hide Field, Ascii, HasVersion, ReadPolicy, ReadWindows, Snapshot, ReadDecision;
      var credential := Field(Some(payload), "credential");
      if action == Ascii("policy.committed") || action == Ascii("policy.amended") {
        Policies(r, payload);
      } else if action == Ascii("policy.windows") {
        Windows(payload);
      } else if action == Ascii("credentials.snapshot") {
        Credentials(IterValues(Field(Some(payload), "credentials")));
      } else if action == Ascii("credential.issued") && IsString(credential) {
        credentials := credentials[credential.value.s := Field(Some(payload), "expires_at")];
      } else if (action == Ascii("credential.revoked") || action == Ascii("credential.expired"))
        && IsString(credential) {
        credentials := credentials - {credential.value.s};
      } else if action == Ascii("window.closed") {
        closes := closes + [Close(r.sequence, payload)];
      } else if HasPrefix(action, Ascii(INGRESS)) {
        Decisions(r, payload, action[|Ascii(INGRESS)|..]);
      }
    }

    method Read(r: Record)
      requires Valid()
      modifies this
      ensures Valid() && State() == ReadRecord(old(State()), r)
    {
      hide Field, Ascii, HasVersion, ReadAction, Text;
      var action, payload, at := Action(r.value), Field(Some(r.value), "payload"), ReceivedAt(r.value);
      if at.Some? {
        last := at;
      }
      status := StatusAfter(status, action);
      if IsObject(payload) {
        Act(r, action, payload.value);
      }
    }
  }

  lemma VersionAdded(policies: seq<Policy>, r: Record, payload: Value, version: int)
    ensures forall v :: HasVersion(policies + [PolicyOf(r, payload, version)], v) <==>
              HasVersion(policies, v) || v == version
  {
    hide Field;
    var p := PolicyOf(r, payload, version);
    forall v
      ensures HasVersion(policies + [p], v) <==> HasVersion(policies, v) || v == version
    {
      assert (policies + [p])[|policies|] == p;
      if i :| 0 <= i < |policies| && policies[i].version == v {
        assert (policies + [p])[i].version == v;
      }
    }
  }

  method ReadRegistryLog(records: seq<Record>) returns (log: Log)
    ensures log == ReadLog(records, |records|)
  {
    hide ReadRecord, HasVersion;
    var reader := new LogReader();
    for i := 0 to |records|
      invariant reader.Valid() && reader.State() == ReadLog(records, i) && fresh(reader)
    {
      reader.Read(records[i]);
    }
    log := reader.State();
  }
}
