/** verify/receipts.go: decisions, acceptances, registry events and keys against each other (rules 5 to 7 and 10). */
module Reconcile {
  import opened Bytes
  import opened JsonValue
  import opened Canonical
  import opened PhpValues
  import opened Preimages
  import opened Run
  import opened RegistryTime
  import opened RegistryLog
  import opened PolicyRules

  /** A verified bundle as loaded: from and to are its range, created its checkpoints' times. */
  datatype View = View(
    events: map<int, Value>, order: seq<int>, from: int, to: int, created: seq<Option<Instant>>,
      anchored: Option<Instant>)

  /** Only a bundle whose walk reported nothing is loaded, so its sequences ascend to the end of its range. */
  ghost predicate Verified(v: View)
  {
    && (forall i, j :: 0 <= i < j < |v.order| ==> v.order[i] < v.order[j])
    && (forall s :: s in v.events <==> s in v.order)
    && (forall s :: s in v.order ==> s <= v.to)
  }

  predicate Loaded(v: View)
  {
    forall i :: 0 <= i < |v.order| ==> v.order[i] in v.events
  }

  lemma VerifiedLoaded(v: View)
    requires Verified(v)
    ensures Loaded(v)
  {
    forall i | 0 <= i < |v.order|
      ensures v.order[i] in v.events
    {
      assert v.order[i] in v.order;
    }
  }

  function Complete(v: View): Option<Instant>
  {
    Later(Latest(v.created, |v.created|), v.anchored)
  }

  /** The latest received_at of the first n events. */
  function LastAt(v: View, n: nat): Option<Instant>
    requires n <= |v.order| && Loaded(v)
  {
    if n == 0 then None else Later(LastAt(v, n - 1), ReceivedAt(v.events[v.order[n - 1]]))
  }

  /** No event was received later, and one was received then. */
  lemma {:induction false} LastAtIsLatest(v: View, n: nat)
    requires n <= |v.order| && Loaded(v)
    ensures forall i :: 0 <= i < n ==> NoLater(ReceivedAt(v.events[v.order[i]]), LastAt(v, n))
    ensures LastAt(v, n).Some? ==> exists i :: 0 <= i < n && ReceivedAt(v.events[v.order[i]]) == LastAt(v, n)
  {
    hide ReceivedAt;
    if n > 0 {
      LastAtIsLatest(v, n - 1);
    }
  }

  // ---- rule 5

  /** The registry's state an outcome needs; a scope refusal and a throttle are decided before it is read. */
  function Needed(outcome: Bytes): Option<Status>
  {
    if outcome == Ascii("refused_paused") then Some(Paused)
    else if outcome == Ascii("refused_archived") then Some(Archived)
    else if outcome in {Ascii("accepted"), Ascii("replay"), Ascii("conflict"), Ascii("invalid"), Ascii("refused_early"),
                        Ascii("refused_late")}
    then Some(Active)
    else None
  }

  function NamedBy(payload: Value): Option<Value>
  {
    Field(Some(payload), "accepted")
  }

  /** The first acceptance of each key among the first n decisions, as logged. */
  function FirstAcceptances(decisions: seq<Decision>, n: nat): map<Bytes, Value>
    requires n <= |decisions|
  {
    if n == 0 then map[] else Hold(FirstAcceptances(decisions, n - 1), decisions[n - 1])
  }

  function Hold(held: map<Bytes, Value>, d: Decision): map<Bytes, Value>
  {
    var key, named := KeyOf(d.payload), NamedBy(d.payload);
    if d.outcome == Ascii("accepted") && key.Some? && key.value !in held && IsObject(named)
    then held[key.value := named.value] else held
  }

  function HeldBy(held: map<Bytes, Value>, d: Decision): Option<Value>
  {
    var key := KeyOf(d.payload);
    if key.Some? && key.value in held then Some(held[key.value]) else None
  }

  /** The last of the windows with this key. */
  function WindowFor(windows: seq<Value>, key: Option<Bytes>, n: nat): Option<Value>
    requires n <= |windows|
  {
    if n == 0 || key.None? then None
    else if IsObject(Some(windows[n - 1])) && Field(Some(windows[n - 1]), "key") == Some(String(key.value))
      then Some(windows[n - 1])
    else WindowFor(windows, key, n - 1)
  }

  /** A missing sequence is read as false, which no sequence is. */
  function OrFalse(v: Option<Value>): Option<Value>
  {
    if Nullish(v) then Some(Bool(false)) else v
  }

  /** A replay or conflict names the key's first acceptance as it was logged. */
  predicate NamesHolder(payload: Value, held: Option<Value>)
  {
    var named := NamedBy(payload);
    && held.Some? && IsObject(named)
    && StrictEqual(Field(named, "sequence"), OrFalse(Field(held, "sequence")))
    && Text(Field(named, "entry_hash")) == Text(Field(held, "entry_hash"))
    && Text(Field(named, "request_digest")) == Text(Field(held, "request_digest"))
  }

  predicate UnknownKey(payload: Value)
  {
    Some(String(Ascii("unknown_key"))) in Somes(IterValues(Field(Some(payload), "reasons")))
  }

  function Somes(vs: seq<Value>): seq<Option<Value>>
  {
    seq(|vs|, i requires 0 <= i < |vs| => Some(vs[i]))
  }

  predicate IsOpen(window: Option<Value>, at: Instant)
  {
    var (from, until) := (ParseTime(Field(window, "open_at")), ParseTime(Field(window, "close_at")));
    window.Some? && from.Some? && until.Some? && !Before(at, from.value) && Before(at, until.value)
  }

  /** The outcome contradicts the windows of the policy in force, or the key's logged acceptance. */
  predicate Broken(d: Decision, at: Instant, window: Option<Value>, held: Option<Value>)
  {
    var digest := Text(Field(Some(d.payload), "request_digest"));
    var heldDigest := if held.Some? then Text(Field(held, "request_digest")) else [];
    var (from, until) := (ParseTime(Field(window, "open_at")), ParseTime(Field(window, "close_at")));
    if d.outcome == Ascii("accepted") then !IsOpen(window, at)
    else if d.outcome == Ascii("replay")
      then !IsOpen(window, at) || !NamesHolder(d.payload, held) || digest != heldDigest
    else if d.outcome == Ascii("conflict")
      then !IsOpen(window, at) || !NamesHolder(d.payload, held) || digest == heldDigest
    else if d.outcome == Ascii("refused_early") then window.None? || from.None? || !Before(at, from.value)
    else if d.outcome == Ascii("refused_late") then window.None? || until.None? || Before(at, until.value)
    else if d.outcome == Ascii("invalid") then UnknownKey(d.payload) && window.Some?
    else false
  }

  function Fault(check: Check): seq<Finding>
  {
    [Finding(check, ContentIntegrity)]
  }

  function DecisionProblems(log: Log, d: Decision, held: Option<Value>): seq<Finding>
  {
    var policy := InForceBefore(log.policies, d.receivedAt, d.sequence, |log.policies|);
    (if Needed(d.outcome).Some? && d.status != Needed(d.outcome).value then Fault(DecisionPolicy) else []) +
    if policy.None? || d.receivedAt.None? then Fault(DecisionPolicy)
    else
      var windows := WindowsOf(log, policy.value);
      (if Field(Some(d.payload), "policy_hash") != Some(String(policy.value.hash)) then Fault(DecisionPolicy) else []) +
      if Broken(d, d.receivedAt.value, WindowFor(windows, KeyOf(d.payload), |windows|), held)
        then Fault(DecisionPolicy) else []
  }

  function DecisionsProblems(log: Log, n: nat): seq<Finding>
    requires n <= |log.decisions|
  {
    if n == 0 then []
    else
      DecisionsProblems(log, n - 1) +
      DecisionProblems(log, log.decisions[n - 1], HeldBy(FirstAcceptances(log.decisions, n - 1), log.decisions[n - 1]))
  }

  lemma InForceNeedsTime(policies: seq<Policy>, at: Option<Instant>, before: int, n: nat)
    requires n <= |policies| && InForceBefore(policies, at, before, n).Some?
    ensures at.Some?
  {
  }

  method CheckDecision(run: Run, log: Log, d: Decision, held: Option<Value>)
    requires run.Valid()
    modifies run
    ensures run.Valid() && run.unconfirmed == old(run.unconfirmed)
    ensures run.failures == old(run.failures) + DecisionProblems(log, d, held)
  {
    hide Field, Ascii, Run.Valid, InForceBefore, Needed, Broken, WindowFor, WindowsOf;
    var needs := Needed(d.outcome);
    if needs.Some? && d.status != needs.value {
      run.Report(Finding(DecisionPolicy, ContentIntegrity));
    }
    var policy := InForceAt(log.policies, d.receivedAt, d.sequence);
    if policy.None? {
      run.Report(Finding(DecisionPolicy, ContentIntegrity));
      return;
    }
    InForceNeedsTime(log.policies, d.receivedAt, d.sequence, |log.policies|);
    if Field(Some(d.payload), "policy_hash") != Some(String(policy.value.hash)) {
      run.Report(Finding(DecisionPolicy, ContentIntegrity));
    }
    var windows := WindowsOf(log, policy.value);
    if Broken(d, d.receivedAt.value, WindowFor(windows, KeyOf(d.payload), |windows|), held) {
      run.Report(Finding(DecisionPolicy, ContentIntegrity));
    }
  }

  /** The first acceptance of each key is recorded at its own decision, before that decision is checked. */
  method CheckDecisions(run: Run, log: Log)
    requires run.Valid()
    modifies run
    ensures run.Valid() && run.unconfirmed == old(run.unconfirmed)
    ensures run.failures == old(run.failures) + DecisionsProblems(log, |log.decisions|)
  {
    hide Ascii, Run.Valid, DecisionProblems, HeldBy;
    var firstAcceptance: map<Bytes, Value> := map[];
    for i := 0 to |log.decisions|
      invariant run.Valid() && run.unconfirmed == old(run.unconfirmed)
      invariant run.failures == old(run.failures) + DecisionsProblems(log, i)
      invariant firstAcceptance == FirstAcceptances(log.decisions, i)
    {
      var d := log.decisions[i];
      var key, named, held := KeyOf(d.payload), NamedBy(d.payload), HeldBy(firstAcceptance, d);
      HeldByNone(firstAcceptance, d);
      if d.outcome == Ascii("accepted") && key.Some? && held.None? && IsObject(named) {
        firstAcceptance := firstAcceptance[key.value := named.value];
      }
      CheckDecision(run, log, d, held);
    }
  }

  lemma HeldByNone(held: map<Bytes, Value>, d: Decision)
    ensures KeyOf(d.payload).Some? ==> (HeldBy(held, d).None? <==> KeyOf(d.payload).value !in held)
  {
    hide KeyOf;
  }

  // ---- rule 6

  datatype Standing = Fine | Unsure | Bad

  function RequestObject(event: Value, key: Option<Bytes>): Value
  {
    var ev, resource := Some(event), Field(Some(event), "resource");
    Object([
      Named("occurred_at", String(Text(Field(ev, "occurred_at")))), Named("actor", String(Text(Field(ev, "actor")))),
      Named("action", String(Text(Field(ev, "action")))),
        Named("resource", if IsString(resource) then resource.value else Null),
      Named("payload_sha256", String(Text(Field(ev, "payload_hash")))),
      Named("commitment_key", if key.Some? then String(key.value) else Null)])
  }

  function RequestDigest(event: Value, key: Option<Bytes>): Bytes
  {
    var canon := Canon(RequestObject(event, key));
    if canon.None? then [] else Ascii("sha256:") + Sha256Hex(canon.value)
  }

  const REQUEST_NAMES: seq<string> :=
    ["occurred_at", "actor", "action", "resource", "payload_sha256", "commitment_key"]

  lemma RequestNamesAscii()
    ensures forall i :: 0 <= i < |REQUEST_NAMES| ==> AsciiName(REQUEST_NAMES[i])
  {
  }

  lemma RequestNamesApart()
    ensures GoodNames(REQUEST_NAMES)
  {
    hide GoodNames, AsciiName;
    RequestNamesAscii();
    NamesApart(REQUEST_NAMES);
  }

  /** A request's digest is over these six fields of the event, the rest of it not being the submitter's. */
  lemma RequestFields(event: Value, key: Option<Bytes>)
    ensures var p, ev := RequestObject(event, key), Some(event);
            && p.Object? && |p.members| == 6
            && HasField(p, "occurred_at", String(Text(Field(ev, "occurred_at"))))
            && HasField(p, "actor", String(Text(Field(ev, "actor"))))
            && HasField(p, "action", String(Text(Field(ev, "action"))))
            && HasField(p, "resource", if IsString(Field(ev, "resource")) then Field(ev, "resource").value else Null)
            && HasField(p, "payload_sha256", String(Text(Field(ev, "payload_hash"))))
            && HasField(p, "commitment_key", if key.Some? then String(key.value) else Null)
  {
    var ms := RequestObject(event, key).members;
    RequestShape(event, key);
    RequestNamesApart();
    hide Preimages.NamedBy, GoodNames, Ascii, Field, Text;
    assert |REQUEST_NAMES| == 6;
    NamedField(ms, REQUEST_NAMES, 0);
    NamedField(ms, REQUEST_NAMES, 1);
    NamedField(ms, REQUEST_NAMES, 2);
    NamedField(ms, REQUEST_NAMES, 3);
    NamedField(ms, REQUEST_NAMES, 4);
    NamedField(ms, REQUEST_NAMES, 5);
  }

  lemma RequestShape(event: Value, key: Option<Bytes>)
    ensures Preimages.NamedBy(RequestObject(event, key).members, REQUEST_NAMES)
  {
    hide Ascii, Field, Text;
  }

  function NamedSequence(payload: Value): Option<int>
  {
    var named := NamedBy(payload);
    if IsObject(named) && IsInt(Field(named, "sequence")) then Some(Field(named, "sequence").value.n) else None
  }

  /** The event is the one the acceptance says it accepted. */
  predicate Agrees(event: Value, a: Acceptance)
  {
    && Text(Field(Some(event), "entry_hash")) == Text(Field(NamedBy(a.payload), "entry_hash"))
    && RequestDigest(event, a.key) == Text(Field(Some(a.payload), "request_digest"))
    && Text(Field(Some(event), "received_at")) == Text(Field(Some(a.record), "received_at"))
  }

  /** An acceptance past the registry's range, not known late and not yet due there, may still be sealed. */
  function AcceptStanding(v: View, lastAt: Option<Instant>, complete: Option<Instant>, a: Acceptance): Standing
  {
    var s := NamedSequence(a.payload);
    if && s.Some? && s.value > v.to
       && (a.receivedAt.None? || lastAt.None? || !Before(a.receivedAt.value, lastAt.value))
       && !DueBy(a.receivedAt, MSD_SECONDS, complete)
    then Unsure
    else if s.Some? && s.value in v.events && Agrees(v.events[s.value], a) then Fine
    else Bad
  }

  /** How many of the first n acceptances claim this event. */
  function Claims(v: View, lastAt: Option<Instant>, complete: Option<Instant>, accepted: seq<Acceptance>, s: int,
                  n: nat): nat
    requires n <= |accepted|
  {
    if n == 0 then 0
    else
      Claims(v, lastAt, complete, accepted, s, n - 1) +
      if AcceptStanding(v, lastAt, complete, accepted[n - 1]) == Fine
        && NamedSequence(accepted[n - 1].payload) == Some(s) then 1 else 0
  }

  function HighestNamed(accepted: seq<Acceptance>, n: nat): int
    requires n <= |accepted|
  {
    if n == 0 then 0
    else
      var before, s := HighestNamed(accepted, n - 1), NamedSequence(accepted[n - 1].payload);
      if s.Some? && s.value > before then s.value else before
  }

  /**
   * A registry event after the log's last record, past every event accepted and not yet due there, may be decided
   * later.
   */
  function ParentStanding(eventAt: Option<Instant>, sequence: int, count: nat, highest: int, logLast: Option<Instant>,
                          complete: Option<Instant>): Standing
  {
    if && count == 0 && sequence > highest && eventAt.Some? && logLast.Some? && Before(logLast.value, eventAt.value)
       && !DueBy(eventAt, MSD_SECONDS, complete)
    then Unsure
    else if count != 1 then Bad
    else Fine
  }

  // ---- rule 7

  predicate KeySeen(accepted: seq<Acceptance>, key: Bytes, n: nat)
    requires n <= |accepted|
  {
    exists j :: 0 <= j < n && accepted[j].key == Some(key)
  }

  function KeyStanding(accepted: seq<Acceptance>, i: nat): Standing
    requires i < |accepted|
  {
    if accepted[i].key.None? || KeySeen(accepted, accepted[i].key.value, i) then Bad else Fine
  }

  // ---- rule 10

  /** What a receipt's body says; agrees stands for comparing it with its record and checking what it is about. */
  datatype Receipt = Receipt(decision: Option<int>, receivedAt: Option<Instant>, sealBy: Option<Instant>,
    agrees: Value -> bool)

  /** A receipt for a decision past the log's range, not known late and not yet due there, may be logged later. */
  function ReceiptStanding(log: View, logLast: Option<Instant>, complete: Option<Instant>, r: Receipt): Standing
  {
    if && r.decision.Some? && r.decision.value > log.to
       && (r.receivedAt.None? || logLast.None? || !Before(r.receivedAt.value, logLast.value))
       && !DueBy(r.sealBy, 0, complete)
    then Unsure
    else if r.decision.Some? && r.decision.value in log.events && r.agrees(log.events[r.decision.value]) then Fine
    else Bad
  }

  // ---- what each standing reports

  function Failing(s: Standing, check: Check): seq<Finding>
  {
    if s == Bad then Fault(check) else []
  }

  function Waiting(s: Standing, check: Check): seq<Finding>
  {
    if s == Unsure then [Finding(check, Scope)] else []
  }

  function AllFailing(ss: seq<Standing>, check: Check): seq<Finding>
  {
    if ss == [] then [] else AllFailing(ss[..|ss| - 1], check) + Failing(ss[|ss| - 1], check)
  }

  function AllWaiting(ss: seq<Standing>, check: Check): seq<Finding>
  {
    if ss == [] then [] else AllWaiting(ss[..|ss| - 1], check) + Waiting(ss[|ss| - 1], check)
  }

  method ReportStanding(run: Run, s: Standing, check: Check)
    requires run.Valid()
    modifies run
    ensures run.Valid() && run.failures == old(run.failures) + Failing(s, check)
    ensures run.unconfirmed == old(run.unconfirmed) + Waiting(s, check)
  {
    hide Run.Valid;
    if s == Bad {
      run.Report(Finding(check, ContentIntegrity));
    } else if s == Unsure {
      run.MarkUnconfirmed(Finding(check, Scope));
    }
  }
}
