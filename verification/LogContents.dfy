/** verify/receipts.go: what is read of a decision log, said of its records alone. */
module LogContents {
  import opened Bytes
  import opened JsonValue
  import opened PhpValues
  import opened RegistryTime
  import opened RegistryLog
  import opened PolicyInForce

  ghost predicate Says(r: Record, action: string)
  {
    Action(r.value) == Ascii(action)
  }

  /** The record carries this object as its payload. */
  ghost predicate Carries(r: Record, payload: Value)
  {
    Field(Some(r.value), "payload") == Some(payload) && payload.Object?
  }

  // ---- credentials

  ghost predicate NamesCredential(payload: Value, c: Bytes)
  {
    Field(Some(payload), "credential") == Some(String(c))
  }

  /** The last item of a snapshot to name the credential gives this expiry. */
  ghost predicate LastOfSnapshot(items: seq<Value>, n: nat, c: Bytes, expiry: Option<Value>, k: nat)
    requires k < n <= |items|
  {
    && NamesCredential(items[k], c) && expiry == Field(Some(items[k]), "expires_at")
    && forall j :: k < j < n ==> !NamesCredential(items[j], c)
  }

  ghost predicate InSnapshot(items: seq<Value>, n: nat, c: Bytes, expiry: Option<Value>)
    requires n <= |items|
  {
    exists k :: 0 <= k < n && LastOfSnapshot(items, n, c, expiry, k)
  }

  /** The record lists the credential: it issues it, or is a snapshot that names it. */
  ghost predicate Lists(r: Record, c: Bytes, expiry: Option<Value>)
  {
    exists payload: Value :: Carries(r, payload) && ListsIn(r, payload, c, expiry)
  }

  ghost predicate ListsIn(r: Record, payload: Value, c: Bytes, expiry: Option<Value>)
  {
    var items := IterValues(Field(Some(payload), "credentials"));
    || (Says(r, "credential.issued") && NamesCredential(payload, c) && expiry == Field(Some(payload), "expires_at"))
    || (Says(r, "credentials.snapshot") && InSnapshot(items, |items|, c, expiry))
  }

  /** The record revokes the credential, or says it expired. */
  ghost predicate Ends(r: Record, c: Bytes)
  {
    exists payload: Value ::
      Carries(r, payload) && (Says(r, "credential.revoked") || Says(r, "credential.expired"))
      && NamesCredential(payload, c)
  }

  ghost predicate IsAbout(r: Record, c: Bytes)
  {
    Ends(r, c) || exists expiry: Option<Value> :: Lists(r, c, expiry)
  }

  ghost predicate ListedAt(records: seq<Record>, n: nat, c: Bytes, expiry: Option<Value>, i: nat)
    requires i < n <= |records|
  {
    Lists(records[i], c, expiry) && forall j :: i < j < n ==> !IsAbout(records[j], c)
  }

  /** The last of the first n records that is about the credential lists it, with this expiry. */
  ghost predicate Listed(records: seq<Record>, n: nat, c: Bytes, expiry: Option<Value>)
    requires n <= |records|
  {
    exists i :: 0 <= i < n && ListedAt(records, n, c, expiry, i)
  }

  lemma {:induction false} SnapshotExactly(before: map<Bytes, Option<Value>>, items: seq<Value>, n: nat, c: Bytes,
                                           expiry: Option<Value>)
    requires n <= |items|
    ensures var after := Snapshot(before, items, n);
            c in after && after[c] == expiry <==>
            || InSnapshot(items, n, c, expiry)
            || ((forall k :: 0 <= k < n ==> !NamesCredential(items[k], c)) && c in before && before[c] == expiry)
  {
    hide Ascii, Lookup;
    if n > 0 {
      var m := n - 1;
      SnapshotExactly(before, items, m, c, expiry);
      SnapshotPush(items, m, c, expiry);
    }
  }

  lemma SnapshotPush(items: seq<Value>, m: nat, c: Bytes, expiry: Option<Value>)
    requires m < |items|
    ensures InSnapshot(items, m + 1, c, expiry) <==>
            if NamesCredential(items[m], c) then expiry == Field(Some(items[m]), "expires_at")
            else InSnapshot(items, m, c, expiry)
  {
    hide NamesCredential, Field;
    var n := m + 1;
    if NamesCredential(items[m], c) {
      if expiry == Field(Some(items[m]), "expires_at") {
        assert LastOfSnapshot(items, n, c, expiry, m);
      }
    } else {
      if k :| 0 <= k < m && LastOfSnapshot(items, m, c, expiry, k) {
        assert LastOfSnapshot(items, n, c, expiry, k);
      }
      if k :| 0 <= k < n && LastOfSnapshot(items, n, c, expiry, k) {
        assert LastOfSnapshot(items, m, c, expiry, k);
      }
    }
  }

  // ---- one record

  lemma SameInSnapshot(items: seq<Value>, n: nat, c: Bytes)
    requires n <= |items|
    ensures (exists expiry :: InSnapshot(items, n, c, expiry)) <==>
            exists k :: 0 <= k < n && NamesCredential(items[k], c)
  {
    hide NamesCredential, Field;
    if n > 0 {
      if expiry :| InSnapshot(items, n, c, expiry) {
        var k :| 0 <= k < n && LastOfSnapshot(items, n, c, expiry, k);
        assert NamesCredential(items[k], c);
      }
      if k :| 0 <= k < n && NamesCredential(items[k], c) {
        LastNaming(items, n, c, k);
      }
    }
  }

  lemma {:induction false} LastNaming(items: seq<Value>, n: nat, c: Bytes, k: nat)
    requires k < n <= |items| && NamesCredential(items[k], c)
    ensures exists expiry :: InSnapshot(items, n, c, expiry)
  {
    hide NamesCredential, Field;
    var m := n - 1;
    if NamesCredential(items[m], c) {
      assert LastOfSnapshot(items, n, c, Field(Some(items[m]), "expires_at"), m);
      assert InSnapshot(items, n, c, Field(Some(items[m]), "expires_at"));
    } else {
      LastNaming(items, m, c, k);
      var expiry :| InSnapshot(items, m, c, expiry);
      SnapshotPush(items, m, c, expiry);
      assert InSnapshot(items, n, c, expiry);
    }
  }

  lemma CredentialActions()
    ensures Ascii("credential.issued") != Ascii("credentials.snapshot")
    ensures Ascii("credential.issued") != Ascii("credential.revoked")
    ensures Ascii("credential.issued") != Ascii("credential.expired")
    ensures Ascii("credentials.snapshot") != Ascii("credential.revoked")
    ensures Ascii("credentials.snapshot") != Ascii("credential.expired")
  {
    assert |Ascii("credential.issued")| == 17 && |Ascii("credentials.snapshot")| == 20;
    assert |Ascii("credential.revoked")| == 18 && |Ascii("credential.expired")| == 18;
  }

  /** No policy record is about credentials. */
  lemma PolicyActions(action: Bytes)
    requires action == Ascii("policy.committed") || action == Ascii("policy.amended")
              || action == Ascii("policy.windows")
    ensures action != Ascii("credential.issued") && action != Ascii("credentials.snapshot")
    ensures action != Ascii("credential.revoked") && action != Ascii("credential.expired")
  {
    CredentialLengths();
    assert |Ascii("policy.committed")| == 16 && |Ascii("policy.amended")| == 14 && |Ascii("policy.windows")| == 14;
  }

  lemma CredentialLengths()
    ensures |Ascii("credential.issued")| == 17 && |Ascii("credentials.snapshot")| == 20
    ensures |Ascii("credential.revoked")| == 18 && |Ascii("credential.expired")| == 18
  {
  }

  lemma CredentialsAfter(st: Log, r: Record, action: Bytes, payload: Value)
    ensures var named, items := Field(Some(payload), "credential"), IterValues(Field(Some(payload), "credentials"));
            ReadAction(st, r, action, payload).credentials ==
            if action == Ascii("credentials.snapshot") then Snapshot(st.credentials, items, |items|)
            else if action == Ascii("credential.issued") && IsString(named) then
              st.credentials[named.value.s := Field(Some(payload), "expires_at")]
            else if (action == Ascii("credential.revoked") || action == Ascii("credential.expired"))
              && IsString(named) then
              st.credentials - {named.value.s}
            else st.credentials
  {
    hide Ascii, Field, Snapshot, PolicyOf, HasVersion, PartsOf, IterValues, CredentialBad, HasPrefix, Text;
    if action == Ascii("policy.committed") || action == Ascii("policy.amended") || action == Ascii("policy.windows") {
      PolicyActions(action);
    }
    CredentialActions();
  }

  lemma RecordAfter(st: Log, r: Record)
    ensures var payload := Field(Some(r.value), "payload");
            if IsObject(payload) then
              exists seen: Log ::
                && seen.credentials == st.credentials
                && ReadRecord(st, r).credentials == ReadAction(seen, r, Action(r.value), payload.value).credentials
            else ReadRecord(st, r).credentials == st.credentials
  {
    hide Ascii, Field, ReadAction, StatusAfter, ReceivedAt, Text;
    var payload, at := Field(Some(r.value), "payload"), ReceivedAt(r.value);
    var seen := st.(status := StatusAfter(st.status, Action(r.value)), last := if at.Some? then at else st.last);
    if IsObject(payload) {
      assert ReadRecord(st, r).credentials == ReadAction(seen, r, Action(r.value), payload.value).credentials;
    }
  }

  lemma OnePayload(r: Record, payload: Value, c: Bytes, expiry: Option<Value>)
    requires Carries(r, payload)
    ensures Lists(r, c, expiry) <==> ListsIn(r, payload, c, expiry)
    ensures Ends(r, c) <==>
            (Says(r, "credential.revoked") || Says(r, "credential.expired")) && NamesCredential(payload, c)
  {
    hide Field, ListsIn, NamesCredential, Says, Ascii;
  }

  lemma NoPayload(r: Record, c: Bytes)
    requires !IsObject(Field(Some(r.value), "payload"))
    ensures !IsAbout(r, c)
  {
    hide Field, ListsIn, NamesCredential, Says;
  }

  lemma NamesExactly(payload: Value, c: Bytes)
    ensures NamesCredential(payload, c) <==>
            IsString(Field(Some(payload), "credential")) && Field(Some(payload), "credential").value.s == c
  {
    hide Field;
  }

  lemma AboutExactly(r: Record, payload: Value, c: Bytes)
    requires Carries(r, payload)
    ensures var items := IterValues(Field(Some(payload), "credentials"));
            IsAbout(r, c) <==>
            || ((Says(r, "credential.revoked") || Says(r, "credential.expired") || Says(r, "credential.issued"))
                && NamesCredential(payload, c))
            || (Says(r, "credentials.snapshot") && exists k :: 0 <= k < |items| && NamesCredential(items[k], c))
  {
    hide Field, NamesCredential, Says, InSnapshot, IterValues, Carries, Ends, Lists;
    var items := IterValues(Field(Some(payload), "credentials"));
    SameInSnapshot(items, |items|, c);
    OnePayload(r, payload, c, None);
    forall expiry
      ensures Lists(r, c, expiry) <==> ListsIn(r, payload, c, expiry)
    {
      OnePayload(r, payload, c, expiry);
    }
    if Says(r, "credential.issued") && NamesCredential(payload, c) {
      assert ListsIn(r, payload, c, Field(Some(payload), "expires_at"));
      assert Lists(r, c, Field(Some(payload), "expires_at"));
    }
    if Says(r, "credentials.snapshot") && exists expiry :: InSnapshot(items, |items|, c, expiry) {
      var expiry :| InSnapshot(items, |items|, c, expiry);
      assert ListsIn(r, payload, c, expiry);
      assert Lists(r, c, expiry);
    }
  }

  /** A record about a credential settles whether it is listed; any other leaves it as it was. */
  lemma CredentialStep(st: Log, r: Record, c: Bytes, expiry: Option<Value>)
    ensures var after := ReadRecord(st, r).credentials;
            c in after && after[c] == expiry <==>
            || Lists(r, c, expiry)
            || (!IsAbout(r, c) && c in st.credentials && st.credentials[c] == expiry)
  {
    hide ReadRecord, ReadAction, Snapshot, Field, Ascii, Action, IterValues, InSnapshot, NamesCredential, Lists,
      IsAbout;
    var payload := Field(Some(r.value), "payload");
    RecordAfter(st, r);
    if IsObject(payload) {
      var seen: Log :|
        && seen.credentials == st.credentials
        && ReadRecord(st, r).credentials == ReadAction(seen, r, Action(r.value), payload.value).credentials;
      var items := IterValues(Field(payload, "credentials"));
      CredentialsAfter(seen, r, Action(r.value), payload.value);
      CredentialActions();
      OnePayload(r, payload.value, c, expiry);
      AboutExactly(r, payload.value, c);
      NamesExactly(payload.value, c);
      SnapshotExactly(st.credentials, items, |items|, c, expiry);
      SameInSnapshot(items, |items|, c);
    } else {
      NoPayload(r, c);
      NotListed(r, c, expiry);
    }
  }

  lemma NotListed(r: Record, c: Bytes, expiry: Option<Value>)
    requires !IsAbout(r, c)
    ensures !Lists(r, c, expiry)
  {
    hide Lists, Ends;
  }

  // ---- the log

  lemma ListedPush(records: seq<Record>, n: nat, c: Bytes, expiry: Option<Value>)
    requires n < |records|
    ensures Listed(records, n + 1, c, expiry) <==>
            Lists(records[n], c, expiry) || (!IsAbout(records[n], c) && Listed(records, n, c, expiry))
  {
    hide Lists, IsAbout;
    var m := n + 1;
    if i :| 0 <= i < m && ListedAt(records, m, c, expiry, i) {
      if i < n {
        assert ListedAt(records, n, c, expiry, i);
      }
    }
    if Lists(records[n], c, expiry) {
      assert ListedAt(records, m, c, expiry, n);
    } else if i :| !IsAbout(records[n], c) && 0 <= i < n && ListedAt(records, n, c, expiry, i) {
      assert ListedAt(records, m, c, expiry, i);
    }
  }

  lemma NoneListed(records: seq<Record>, c: Bytes, expiry: Option<Value>)
    ensures !Listed(records, 0, c, expiry) && ReadLog(records, 0).credentials == map[]
  {
  }

  /** The log holds a credential, with an expiry, exactly where the last record about it lists it so. */
  lemma {:induction false} CredentialsExactly(records: seq<Record>, n: nat, c: Bytes, expiry: Option<Value>)
    requires n <= |records|
    ensures var held := ReadLog(records, n).credentials;
            c in held && held[c] == expiry <==> Listed(records, n, c, expiry)
  {
    hide *;
    if n == 0 {
      NoneListed(records, c, expiry);
    } else {
      CredentialsExactly(records, n - 1, c, expiry);
      ReadStep(records, n);
      CredentialStep(ReadLog(records, n - 1), records[n - 1], c, expiry);
      ListedPush(records, n - 1, c, expiry);
    }
  }

  // ---- acceptances under a credential the log shows able

  ghost predicate Accepts(r: Record, payload: Value)
  {
    Says(r, "ingress.accepted") && Carries(r, payload)
  }

  /** No expiry, or one that parses and is after the acceptance was received. */
  ghost predicate InTime(expiry: Option<Value>, at: Option<Instant>)
  {
    || Nullish(expiry)
    || (ParseTime(expiry).Some? && at.Some? && Nanos(at.value) < Nanos(ParseTime(expiry).value))
  }

  /** Of the records before it, the last about the acceptance's credential lists it, and no expiry had passed. */
  ghost predicate Able(records: seq<Record>, i: nat, payload: Value)
    requires i < |records|
  {
    exists expiry: Option<Value> ::
      Listed(records, i, Text(Field(Some(payload), "credential")), expiry)
      && InTime(expiry, ReceivedAt(records[i].value))
  }

  ghost predicate Unable(records: seq<Record>, i: nat)
    requires i < |records|
  {
    exists payload: Value :: Accepts(records[i], payload) && !Able(records, i, payload)
  }

  lemma AcceptedAction()
    ensures Ascii("ingress.accepted") == Ascii(INGRESS) + Ascii("accepted")
    ensures HasPrefix(Ascii("ingress.accepted"), Ascii(INGRESS)) && |Ascii(INGRESS)| == 8
  {
    assert "ingress.accepted" == INGRESS + "accepted";
    assert Ascii(INGRESS) == Ascii("ingress.accepted")[..8];
  }

  lemma OutcomeExactly(action: Bytes)
    requires HasPrefix(action, Ascii(INGRESS)) && |Ascii(INGRESS)| <= |action|
    ensures action[|Ascii(INGRESS)|..] == Ascii("accepted") <==> action == Ascii("ingress.accepted")
  {
    hide Ascii;
    AcceptedAction();
    assert action == action[..|Ascii(INGRESS)|] + action[|Ascii(INGRESS)|..];
  }

  lemma BadExactly(credentials: map<Bytes, Option<Value>>, c: Bytes, at: Option<Instant>)
    ensures CredentialBad(credentials, c, at) <==> !(c in credentials && InTime(credentials[c], at))
  {
    hide Nanos, Before;
    if c in credentials && ParseTime(credentials[c]).Some? && at.Some? {
      BeforeExact(at.value, ParseTime(credentials[c]).value);
    }
  }

  ghost function UnableUpTo(records: seq<Record>, n: nat): nat
    requires n <= |records|
  {
    if n == 0 then 0 else UnableUpTo(records, n - 1) + if Unable(records, n - 1) then 1 else 0
  }

  lemma ProblemsAfter(st: Log, r: Record, payload: Value)
    ensures Accepts(r, payload) ==>
              ReadRecord(st, r).credentialProblems == st.credentialProblems +
                if CredentialBad(st.credentials, Text(Field(Some(payload), "credential")), ReceivedAt(r.value)) then 1
                else 0
  {
    hide Ascii, Field, Snapshot, PolicyOf, HasVersion, PartsOf, IterValues, CredentialBad, Text, StatusAfter,
      ReceivedAt, Action, ReadPolicy, ReadWindows;
    AcceptedAction();
    AcceptedIsOwn();
  }

  /** An acceptance is read as nothing else. */
  lemma AcceptedIsOwn()
    ensures var action := Ascii("ingress.accepted");
            && action != Ascii("policy.committed") && action != Ascii("policy.amended")
            && action != Ascii("policy.windows") && action != Ascii("credentials.snapshot")
            && action != Ascii("credential.issued") && action != Ascii("credential.revoked")
            && action != Ascii("credential.expired") && action != Ascii("window.closed")
  {
    assert Ascii("ingress.accepted")[0] == 0x69 && Ascii("policy.committed")[0] == 0x70;
    assert Ascii("policy.amended")[0] == 0x70 && Ascii("policy.windows")[0] == 0x70;
    assert Ascii("credentials.snapshot")[0] == 0x63 && Ascii("credential.issued")[0] == 0x63;
    assert Ascii("credential.revoked")[0] == 0x63 && Ascii("credential.expired")[0] == 0x63;
    assert Ascii("window.closed")[0] == 0x77;
  }

  lemma ProblemsSame(st: Log, r: Record)
    requires forall payload :: !Accepts(r, payload)
    ensures ReadRecord(st, r).credentialProblems == st.credentialProblems
  {
    hide Ascii, Field, Snapshot, PolicyOf, PartsOf, IterValues, CredentialBad, Text, StatusAfter, ReceivedAt, Action,
      HasVersion, HasPrefix;
    var action, payload := Action(r.value), Field(Some(r.value), "payload");
    if IsObject(payload) && HasPrefix(action, Ascii(INGRESS)) {
      assert !Accepts(r, payload.value);
      PrefixLength(action, Ascii(INGRESS));
      OutcomeExactly(action);
    }
  }

  lemma AbleExactly(records: seq<Record>, i: nat, payload: Value)
    requires i < |records|
    ensures Able(records, i, payload) <==>
            !CredentialBad(ReadLog(records, i).credentials, Text(Field(Some(payload), "credential")),
                           ReceivedAt(records[i].value))
  {
    hide ReadLog, CredentialBad, Field, Text, ReceivedAt, Listed, InTime;
    var held, at := ReadLog(records, i).credentials, ReceivedAt(records[i].value);
    var c := Text(Field(Some(payload), "credential"));
    BadExactly(held, c, at);
    if c in held {
      CredentialsExactly(records, i, c, held[c]);
    }
    if expiry :| Listed(records, i, c, expiry) && InTime(expiry, at) {
      CredentialsExactly(records, i, c, expiry);
    }
  }

  /** The problems counted are the acceptances whose credential the log does not show able to submit. */
  lemma {:induction false} CredentialProblemsExactly(records: seq<Record>, n: nat)
    requires n <= |records|
    ensures ReadLog(records, n).credentialProblems == UnableUpTo(records, n)
    ensures ReadLog(records, n).credentialProblems == 0 <==> forall i :: 0 <= i < n ==> !Unable(records, i)
  {
    hide ReadRecord, Unable;
    if n > 0 {
      hide ReadLog;
      var m := n - 1;
      CredentialProblemsExactly(records, m);
      ReadStep(records, n);
      UnableExactly(records, m);
    }
  }

  lemma UnableExactly(records: seq<Record>, m: nat)
    requires m < |records|
    ensures var st := ReadLog(records, m);
            ReadRecord(st, records[m]).credentialProblems ==
            st.credentialProblems + if Unable(records, m) then 1 else 0
  {
    hide ReadRecord, ReadLog, Accepts, Able, CredentialBad, Field, Text;
    var st, r := ReadLog(records, m), records[m];
    if payload :| Accepts(r, payload) {
      ProblemsAfter(st, r, payload);
      AbleExactly(records, m, payload);
      OneAccepted(r, payload);
    } else {
      ProblemsSame(st, r);
    }
  }

  lemma OneAccepted(r: Record, payload: Value)
    requires Accepts(r, payload)
    ensures forall p :: Accepts(r, p) ==> p == payload
  {
    hide Field, Says;
  }

  // ---- the registry's state

  ghost predicate SaysState(r: Record)
  {
    Says(r, "stream.paused") || Says(r, "stream.resumed") || Says(r, "stream.archived")
  }

  ghost predicate LastStateAt(records: seq<Record>, n: nat, action: string, i: nat)
    requires i < n <= |records|
  {
    Says(records[i], action) && forall j :: i < j < n ==> !SaysState(records[j])
  }

  /** The last of the first n records to pause, resume or archive the registry says this. */
  ghost predicate LastState(records: seq<Record>, n: nat, action: string)
    requires n <= |records|
  {
    exists i :: 0 <= i < n && LastStateAt(records, n, action, i)
  }

  lemma StateActions()
    ensures Ascii("stream.paused") != Ascii("stream.resumed") && Ascii("stream.paused") != Ascii("stream.archived")
    ensures Ascii("stream.resumed") != Ascii("stream.archived")
  {
    assert |Ascii("stream.paused")| == 13 && |Ascii("stream.resumed")| == 14 && |Ascii("stream.archived")| == 15;
  }

  lemma ActionKeeps(st: Log, r: Record, action: Bytes, payload: Value)
    ensures var after := ReadAction(st, r, action, payload); after.status == st.status && after.last == st.last
  {
    hide Ascii, Field, Snapshot, PolicyOf, HasVersion, PartsOf, IterValues, CredentialBad, Text, ReceivedAt, Action,
      HasPrefix;
  }

  lemma StateAfter(st: Log, r: Record)
    ensures ReadRecord(st, r).status ==
            if Says(r, "stream.paused") then Paused else if Says(r, "stream.resumed") then Active
            else if Says(r, "stream.archived") then Archived else st.status
  {
    hide Ascii, Field, Text, ReceivedAt, Action, ReadAction;
    var action, payload, at := Action(r.value), Field(Some(r.value), "payload"), ReceivedAt(r.value);
    if IsObject(payload) {
      ActionKeeps(st.(status := StatusAfter(st.status, action), last := if at.Some? then at else st.last), r, action,
        payload.value);
    }
  }

  lemma StatePush(records: seq<Record>, n: nat, action: string)
    requires n < |records| && action in {"stream.paused", "stream.resumed", "stream.archived"}
    ensures LastState(records, n + 1, action) <==>
            if SaysState(records[n]) then Says(records[n], action) else LastState(records, n, action)
  {
    hide Says;
    var m := n + 1;
    if i :| 0 <= i < m && LastStateAt(records, m, action, i) {
      if i < n {
        assert LastStateAt(records, n, action, i);
      }
    }
    if Says(records[n], action) {
      assert LastStateAt(records, m, action, n);
    } else if i :| !SaysState(records[n]) && 0 <= i < n && LastStateAt(records, n, action, i) {
      assert LastStateAt(records, m, action, i);
    }
  }

  /** The registry is paused or archived exactly where the last record about its state says so. */
  lemma {:induction false} StateExactly(records: seq<Record>, n: nat)
    requires n <= |records|
    ensures ReadLog(records, n).status == Paused <==> LastState(records, n, "stream.paused")
    ensures ReadLog(records, n).status == Archived <==> LastState(records, n, "stream.archived")
  {
    hide ReadRecord, LastState, Says;
    if n > 0 {
      hide ReadLog;
      StateExactly(records, n - 1);
      ReadStep(records, n);
      StateAfter(ReadLog(records, n - 1), records[n - 1]);
      StatePush(records, n - 1, "stream.paused");
      StatePush(records, n - 1, "stream.archived");
      OneState(records[n - 1]);
    } else {
      NoState(records);
    }
  }

  lemma NoState(records: seq<Record>)
    ensures ReadLog(records, 0).status == Active
    ensures !LastState(records, 0, "stream.paused") && !LastState(records, 0, "stream.archived")
  {
  }

  lemma OneState(r: Record)
    ensures !(Says(r, "stream.paused") && Says(r, "stream.resumed"))
    ensures !(Says(r, "stream.paused") && Says(r, "stream.archived"))
    ensures !(Says(r, "stream.resumed") && Says(r, "stream.archived"))
  {
    hide Ascii, Action;
    StateActions();
  }

  // ---- decisions, acceptances and closes

  /** The decision a record with a payload logs, its outcome being what follows "ingress." in its action. */
  ghost predicate DecisionAt(records: seq<Record>, i: nat, d: Decision)
    requires i < |records|
  {
    var r := records[i];
    && Carries(r, d.payload) && Action(r.value) == Ascii("ingress.") + d.outcome
    && d.sequence == r.sequence && d.receivedAt == ReceivedAt(r.value)
    && (d.status == Paused <==> LastState(records, i, "stream.paused"))
    && (d.status == Archived <==> LastState(records, i, "stream.archived"))
  }

  ghost predicate AcceptanceAt(r: Record, a: Acceptance)
  {
    && Accepts(r, a.payload) && a.sequence == r.sequence && a.record == r.value && a.receivedAt == ReceivedAt(r.value)
    && (forall key :: a.key == Some(key) <==> Field(Some(a.payload), "commitment_key") == Some(String(key)))
  }

  ghost predicate CloseAt(r: Record, c: Close)
  {
    Says(r, "window.closed") && Carries(r, c.payload) && c.sequence == r.sequence
  }

  /** Which records add to which list. */
  ghost predicate IsDecision(r: Record)
  {
    IsObject(Field(Some(r.value), "payload")) && HasPrefix(Action(r.value), Ascii("ingress."))
  }

  ghost predicate IsClose(r: Record)
  {
    IsObject(Field(Some(r.value), "payload")) && Says(r, "window.closed")
  }

  lemma DecisionActions(action: Bytes)
    requires HasPrefix(action, Ascii("ingress."))
    ensures action != Ascii("policy.committed") && action != Ascii("policy.amended")
    ensures action != Ascii("policy.windows") && action != Ascii("credentials.snapshot")
    ensures action != Ascii("credential.issued") && action != Ascii("credential.revoked")
    ensures action != Ascii("credential.expired") && action != Ascii("window.closed")
    ensures action != Ascii("stream.paused") && action != Ascii("stream.resumed") && action != Ascii("stream.archived")
  {
    assert Ascii("ingress.")[0] == 0x69 && action[0] == Ascii("ingress.")[0];
    AcceptedIsOwn();
    assert Ascii("policy.committed")[0] == 0x70;
    assert Ascii("policy.amended")[0] == 0x70 && Ascii("policy.windows")[0] == 0x70;
    assert Ascii("credentials.snapshot")[0] == 0x63 && Ascii("credential.issued")[0] == 0x63;
    assert Ascii("credential.revoked")[0] == 0x63 && Ascii("credential.expired")[0] == 0x63;
    assert Ascii("window.closed")[0] == 0x77 && Ascii("stream.paused")[0] == 0x73;
    assert Ascii("stream.resumed")[0] == 0x73 && Ascii("stream.archived")[0] == 0x73;
  }

  lemma DecisionsAfter(st: Log, r: Record)
    ensures var after, payload, at := ReadRecord(st, r), Field(Some(r.value), "payload"), ReceivedAt(r.value);
            if IsDecision(r) then
              var outcome := Action(r.value)[|Ascii("ingress.")|..];
              && after.decisions == st.decisions + [Decision(r.sequence, outcome, payload.value, at, after.status)]
              && after.accepted == (if outcome != Ascii("accepted") then st.accepted
                                    else st.accepted + [Acceptance(r.sequence, r.value, payload.value, at,
                                                                   KeyOf(payload.value))])
            else after.decisions == st.decisions && after.accepted == st.accepted
  {
    hide Ascii, Field, Snapshot, PolicyOf, HasVersion, PartsOf, IterValues, CredentialBad, Text, ReceivedAt, Action,
      KeyOf, StatusAfter;
    if IsDecision(r) {
      DecisionActions(Action(r.value));
    }
  }

  lemma ClosesAfter(st: Log, r: Record)
    ensures ReadRecord(st, r).closes ==
            if IsClose(r) then st.closes + [Close(r.sequence, Field(Some(r.value), "payload").value)] else st.closes
  {
    hide Ascii, Field, Snapshot, PolicyOf, HasVersion, PartsOf, IterValues, CredentialBad, Text, ReceivedAt, Action,
      KeyOf, StatusAfter, HasPrefix;
    CloseActions();
  }

  lemma CloseActions()
    ensures var action := Ascii("window.closed");
            && action != Ascii("policy.committed") && action != Ascii("policy.amended")
            && action != Ascii("policy.windows") && action != Ascii("credentials.snapshot")
            && action != Ascii("credential.issued") && action != Ascii("credential.revoked")
            && action != Ascii("credential.expired")
  {
    assert Ascii("window.closed")[0] == 0x77 && Ascii("policy.committed")[0] == 0x70;
    assert Ascii("policy.amended")[0] == 0x70 && Ascii("policy.windows")[0] == 0x70;
    assert Ascii("credentials.snapshot")[0] == 0x63 && Ascii("credential.issued")[0] == 0x63;
    assert Ascii("credential.revoked")[0] == 0x63 && Ascii("credential.expired")[0] == 0x63;
  }

  /** A decision is what its record logs, in the state the records before it leave. */
  lemma DecidedExactly(records: seq<Record>, i: nat, d: Decision)
    requires i < |records|
    ensures DecisionAt(records, i, d) <==>
            && IsDecision(records[i])
            && d == Decision(records[i].sequence, Action(records[i].value)[|Ascii("ingress.")|..],
                             Field(Some(records[i].value), "payload").value, ReceivedAt(records[i].value),
                             ReadRecord(ReadLog(records, i), records[i]).status)
  {
    hide ReadLog, ReadRecord, Field, ReceivedAt, LastState, Says;
    var r := records[i];
    StateExactly(records, i);
    StateAfter(ReadLog(records, i), r);
    PrefixExactly(Action(r.value), Ascii("ingress."), d.outcome);
    if HasPrefix(Action(r.value), Ascii("ingress.")) {
      NoStateChange(r);
    }
  }

  lemma NoStateChange(r: Record)
    requires HasPrefix(Action(r.value), Ascii("ingress."))
    ensures !Says(r, "stream.paused") && !Says(r, "stream.resumed") && !Says(r, "stream.archived")
  {
    hide Ascii, Action;
    DecisionActions(Action(r.value));
  }

  lemma PrefixExactly(s: Bytes, prefix: Bytes, rest: Bytes)
    ensures s == prefix + rest <==> HasPrefix(s, prefix) && rest == s[|prefix|..]
  {
    if HasPrefix(s, prefix) {
      assert s == prefix + s[|prefix|..];
    }
  }

  /** The decisions read are those the records log. */
  lemma {:induction false} DecisionsExactly(records: seq<Record>, n: nat, d: Decision)
    requires n <= |records|
    ensures d in ReadLog(records, n).decisions <==> exists i :: 0 <= i < n && DecisionAt(records, i, d)
  {
    hide ReadRecord, DecisionAt, ReceivedAt, Action, Field;
    if n > 0 {
      hide ReadLog;
      var m := n - 1;
      DecisionsExactly(records, m, d);
      ReadStep(records, n);
      DecisionsAfter(ReadLog(records, m), records[m]);
      DecidedExactly(records, m, d);
    }
  }

  lemma KeyExactly(payload: Value, key: Bytes)
    ensures KeyOf(payload) == Some(key) <==> Field(Some(payload), "commitment_key") == Some(String(key))
  {
    hide Field;
  }

  lemma AcceptedExactly(r: Record, a: Acceptance)
    ensures AcceptanceAt(r, a) <==>
            && IsDecision(r) && Action(r.value)[|Ascii("ingress.")|..] == Ascii("accepted")
            && a == Acceptance(r.sequence, r.value, Field(Some(r.value), "payload").value, ReceivedAt(r.value),
                               KeyOf(Field(Some(r.value), "payload").value))
  {
    hide ReceivedAt, Field, KeyOf, Ascii, Action;
    AcceptedAction();
    forall key
      ensures KeyOf(a.payload) == Some(key) <==> Field(Some(a.payload), "commitment_key") == Some(String(key))
    {
      KeyExactly(a.payload, key);
    }
    if HasPrefix(Action(r.value), Ascii(INGRESS)) {
      PrefixLength(Action(r.value), Ascii(INGRESS));
      OutcomeExactly(Action(r.value));
    }
    if a.key.Some? {
      assert KeyOf(a.payload) == Some(a.key.value) <==>
             Field(Some(a.payload), "commitment_key") == Some(String(a.key.value));
    }
    if KeyOf(a.payload).Some? {
      var key := KeyOf(a.payload).value;
      assert Field(Some(a.payload), "commitment_key") == Some(String(key));
    }
  }

  lemma {:induction false} AcceptancesExactly(records: seq<Record>, n: nat, a: Acceptance)
    requires n <= |records|
    ensures a in ReadLog(records, n).accepted <==> exists i :: 0 <= i < n && AcceptanceAt(records[i], a)
  {
    hide ReadRecord, AcceptanceAt, ReceivedAt, Action, Field, KeyOf;
    if n > 0 {
      hide ReadLog;
      var m := n - 1;
      AcceptancesExactly(records, m, a);
      ReadStep(records, n);
      DecisionsAfter(ReadLog(records, m), records[m]);
      AcceptedExactly(records[m], a);
    }
  }

  lemma CloseExactly(r: Record, c: Close)
    ensures CloseAt(r, c) <==> IsClose(r) && c == Close(r.sequence, Field(Some(r.value), "payload").value)
  {
    hide Field, Says;
  }

  lemma {:induction false} ClosesExactly(records: seq<Record>, n: nat, c: Close)
    requires n <= |records|
    ensures c in ReadLog(records, n).closes <==> exists i :: 0 <= i < n && CloseAt(records[i], c)
  {
    hide ReadRecord, CloseAt, Field;
    if n > 0 {
      hide ReadLog;
      var m := n - 1;
      ClosesExactly(records, m, c);
      ReadStep(records, n);
      ClosesAfter(ReadLog(records, m), records[m]);
      CloseExactly(records[m], c);
    }
  }
}
