/** verify/receipts.go: every window closes once, truthfully (rule 8). */
module WindowCloses {
  import opened Bytes
  import opened JsonValue
  import opened PhpValues
  import opened Run
  import opened RegistryTime
  import opened RegistryLog
  import opened PolicyRules
  import opened Reconcile

  const WINDOW_CLOSE_GRACE := 300

  /** at plus seconds is before than. */
  predicate PlusBefore(at: Instant, seconds: int, than: Instant)
  {
    if at.seconds + seconds != than.seconds then at.seconds + seconds < than.seconds else at.nanos < than.nanos
  }

  /** The last policy read with this hash. */
  function PolicyOfHash(policies: seq<Policy>, hash: Bytes, n: nat): Option<Policy>
    requires n <= |policies|
  {
    if n == 0 then None else if policies[n - 1].hash == hash then Some(policies[n - 1])
      else PolicyOfHash(policies, hash, n - 1)
  }

  /** The acceptance of a key: a later one does not replace it. */
  function AcceptanceOfKey(accepted: seq<Acceptance>, key: Bytes): Option<Acceptance>
  {
    if accepted == [] then None
    else if accepted[0].key == Some(key) then Some(accepted[0])
    else AcceptanceOfKey(accepted[1..], key)
  }

  function CloseKey(c: Close): Bytes
  {
    Text(Field(Some(c.payload), "key"))
  }

  /** A window, and the version that holds it. */
  datatype Held = Held(version: int, window: Value)

  /** The window a record closes, if its policy holds one of that key and close_at. */
  function ClosedWindow(log: Log, c: Close): Option<Held>
  {
    var p := PolicyOfHash(log.policies, Text(Field(Some(c.payload), "policy_hash")), |log.policies|);
    if p.None? then None
    else
      var windows := WindowsOf(log, p.value);
      var window := WindowFor(windows, Some(CloseKey(c)), |windows|);
      if window.None? || Text(Field(Some(c.payload), "close_at")) != Text(Field(window, "close_at")) then None
      else Some(Held(p.value.version, window.value))
  }

  /** The key was accepted before the window closed. */
  predicate Committed(log: Log, c: Close, window: Value)
  {
    var a, closeAt := AcceptanceOfKey(log.accepted, CloseKey(c)), ParseTime(Field(Some(window), "close_at"));
    a.Some? && closeAt.Some? && a.value.receivedAt.Some? && Before(a.value.receivedAt.value, closeAt.value)
  }

  predicate Truthful(log: Log, c: Close, window: Value)
  {
    var outcome, named := Field(Some(c.payload), "outcome"), NamedBy(c.payload);
    if Committed(log, c, window) then
      && StrEq(outcome, "committed") && IsObject(named)
      && StrictEqual(
           Field(named, "sequence"),
           OrFalse(Field(NamedBy(AcceptanceOfKey(log.accepted, CloseKey(c)).value.payload), "sequence")))
    else StrEq(outcome, "missing") && Nullish(named)
  }

  function CloseFindings(log: Log, closed: set<(int, Bytes)>, c: Close): seq<Finding>
  {
    var held := ClosedWindow(log, c);
    if held.None? || (held.value.version, CloseKey(c)) in closed || !Truthful(log, c, held.value.window)
      then Fault(WindowClose) else []
  }

  /** The versions and keys the first n records close. */
  function ClosedBy(log: Log, n: nat): set<(int, Bytes)>
    requires n <= |log.closes|
  {
    if n == 0 then {}
    else
      var c := log.closes[n - 1];
      ClosedBy(log, n - 1) + if ClosedWindow(log, c).Some? then {(ClosedWindow(log, c).value.version, CloseKey(c))}
        else {}
  }

  function ClosesFindings(log: Log, n: nat): seq<Finding>
    requires n <= |log.closes|
  {
    if n == 0 then [] else ClosesFindings(log, n - 1) + CloseFindings(log, ClosedBy(log, n - 1), log.closes[n - 1])
  }

  /** The window closed longer ago than the grace, under the version in force at its close. */
  predicate IsDue(log: Log, p: Policy, window: Value)
  {
    var closeAt := ParseTime(Field(Some(window), "close_at"));
    && window.Object? && closeAt.Some? && log.last.Some?
      && PlusBefore(closeAt.value, WINDOW_CLOSE_GRACE, log.last.value)
    && InForce(log.policies, closeAt, |log.policies|).Some?
      && InForce(log.policies, closeAt, |log.policies|).value.version == p.version
  }

  /** A window's own key is read as text. */
  function WindowKey(window: Value): Bytes
  {
    Text(Field(Some(window), "key"))
  }

  function WindowFindings(log: Log, closed: set<(int, Bytes)>, p: Policy, window: Value): seq<Finding>
  {
    if IsDue(log, p, window) && (p.version, WindowKey(window)) !in closed then Fault(WindowClose) else []
  }

  function WindowsFindings(log: Log, closed: set<(int, Bytes)>, p: Policy, windows: seq<Value>, n: nat): seq<Finding>
    requires n <= |windows|
  {
    if n == 0 then []
    else WindowsFindings(log, closed, p, windows, n - 1) + WindowFindings(log, closed, p, windows[n - 1])
  }

  function DueFindings(log: Log, closed: set<(int, Bytes)>, n: nat): seq<Finding>
    requires n <= |log.policies|
  {
    if n == 0 then []
    else
      var p := log.policies[n - 1];
      DueFindings(log, closed, n - 1) + WindowsFindings(log, closed, p, WindowsOf(log, p), |WindowsOf(log, p)|)
  }

  method CheckClose(run: Run, log: Log, closed: set<(int, Bytes)>, c: Close) returns (closed': set<(int, Bytes)>)
    requires run.Valid()
    modifies run
    ensures run.Valid() && run.unconfirmed == old(run.unconfirmed)
    ensures run.failures == old(run.failures) + CloseFindings(log, closed, c)
    ensures closed' == closed + if ClosedWindow(log, c).Some? then {(ClosedWindow(log, c).value.version, CloseKey(c))}
              else {}
  {
    hide Run.Valid, ClosedWindow, Truthful, CloseKey;
    var held, key := ClosedWindow(log, c), CloseKey(c);
    closed' := closed;
    if held.None? {
      run.Report(Finding(WindowClose, ContentIntegrity));
      return;
    }
    if (held.value.version, key) in closed {
      run.Report(Finding(WindowClose, ContentIntegrity));
      return;
    }
    closed' := closed + {(held.value.version, key)};
    if !Truthful(log, c, held.value.window) {
      run.Report(Finding(WindowClose, ContentIntegrity));
    }
  }

  method CheckWindows(run: Run, log: Log, closed: set<(int, Bytes)>, p: Policy, windows: seq<Value>)
    requires run.Valid()
    modifies run
    ensures run.Valid() && run.unconfirmed == old(run.unconfirmed)
    ensures run.failures == old(run.failures) + WindowsFindings(log, closed, p, windows, |windows|)
  {
    hide Run.Valid, IsDue, WindowKey;
    for i := 0 to |windows|
      invariant run.Valid() && run.unconfirmed == old(run.unconfirmed)
      invariant run.failures == old(run.failures) + WindowsFindings(log, closed, p, windows, i)
    {
      if IsDue(log, p, windows[i]) && (p.version, WindowKey(windows[i])) !in closed {
        run.Report(Finding(WindowClose, ContentIntegrity));
      }
    }
  }

  method CheckCloses(run: Run, log: Log)
    requires run.Valid()
    modifies run
    ensures run.Valid() && run.unconfirmed == old(run.unconfirmed)
    ensures run.failures == old(run.failures) + ClosesFindings(log, |log.closes|) +
              DueFindings(log, ClosedBy(log, |log.closes|), |log.policies|)
  {
    hide Run.Valid, ClosedWindow, CloseFindings, WindowsFindings, WindowsOf, CloseKey;
    var closed: set<(int, Bytes)> := {};
    for i := 0 to |log.closes|
      invariant run.Valid() && run.unconfirmed == old(run.unconfirmed) && closed == ClosedBy(log, i)
      invariant run.failures == old(run.failures) + ClosesFindings(log, i)
    {
      closed := CheckClose(run, log, closed, log.closes[i]);
    }
    ghost var before := run.failures;
    for i := 0 to |log.policies|
      invariant run.Valid() && run.unconfirmed == old(run.unconfirmed)
      invariant run.failures == before + DueFindings(log, closed, i)
    {
      CheckWindows(run, log, closed, log.policies[i], WindowsOf(log, log.policies[i]));
    }
  }

  // ---- what silence says

  ghost predicate ClosesRightly(log: Log, i: nat)
    requires i < |log.closes|
  {
    ClosedWindow(log, log.closes[i]).Some?
      && Truthful(log, log.closes[i], ClosedWindow(log, log.closes[i]).value.window)
  }

  function Slot(log: Log, i: nat): (int, Bytes)
    requires i < |log.closes| && ClosedWindow(log, log.closes[i]).Some?
  {
    (ClosedWindow(log, log.closes[i]).value.version, CloseKey(log.closes[i]))
  }

  lemma {:induction false} ClosedByWhom(log: Log, n: nat, slot: (int, Bytes))
    requires n <= |log.closes|
    ensures slot in ClosedBy(log, n) <==>
              exists i :: 0 <= i < n && ClosedWindow(log, log.closes[i]).Some? && Slot(log, i) == slot
  {
    hide ClosedWindow, CloseKey;
    if n > 0 {
      ClosedByWhom(log, n - 1, slot);
      assert slot in ClosedBy(log, n) <==>
               slot in ClosedBy(log, n - 1) || (ClosedWindow(log, log.closes[n - 1]).Some? && Slot(log, n - 1) == slot);
    }
  }

  lemma {:induction false} EachClose(log: Log, n: nat, i: nat)
    requires i < n <= |log.closes| && ClosesFindings(log, n) == []
    ensures CloseFindings(log, ClosedBy(log, i), log.closes[i]) == []
  {
    hide CloseFindings, ClosedBy;
    if i < n - 1 {
      EachClose(log, n - 1, i);
    }
  }

  lemma CloseGives(log: Log, i: nat)
    requires i < |log.closes| && CloseFindings(log, ClosedBy(log, i), log.closes[i]) == []
    ensures ClosesRightly(log, i) && Slot(log, i) !in ClosedBy(log, i)
  {
    hide ClosedWindow, Truthful, ClosedBy, CloseKey;
  }

  /**
   * Every window.closed names a window its policy holds and tells whether the key was accepted by then; none comes
   * twice.
   */
  lemma ClosesOnce(log: Log, i: nat, j: nat)
    requires ClosesFindings(log, |log.closes|) == [] && i < j < |log.closes|
    ensures ClosesRightly(log, i) && ClosesRightly(log, j) && Slot(log, i) != Slot(log, j)
  {
    hide ClosedWindow, Truthful, ClosedBy, CloseKey, ClosesFindings, CloseFindings, ClosesRightly;
    EachClose(log, |log.closes|, i);
    EachClose(log, |log.closes|, j);
    CloseGives(log, i);
    CloseGives(log, j);
    RightlyWindow(log, i);
    RightlyWindow(log, j);
    ClosedByWhom(log, j, Slot(log, j));
  }

  lemma RightlyWindow(log: Log, i: nat)
    requires i < |log.closes| && ClosesRightly(log, i)
    ensures ClosedWindow(log, log.closes[i]).Some?
  {
    hide ClosedWindow, Truthful;
  }

  lemma {:induction false} EachPolicy(log: Log, closed: set<(int, Bytes)>, n: nat, k: nat)
    requires k < n <= |log.policies| && DueFindings(log, closed, n) == []
    ensures WindowsFindings(log, closed, log.policies[k], WindowsOf(log, log.policies[k]),
              |WindowsOf(log, log.policies[k])|) == []
  {
    hide WindowsFindings, WindowsOf;
    if k < n - 1 {
      EachPolicy(log, closed, n - 1, k);
    }
  }

  lemma {:induction false} EachWindow(log: Log, closed: set<(int, Bytes)>, p: Policy, windows: seq<Value>, n: nat,
                                      w: nat)
    requires w < n <= |windows| && WindowsFindings(log, closed, p, windows, n) == []
    ensures WindowFindings(log, closed, p, windows[w]) == []
  {
    hide WindowFindings;
    if w < n - 1 {
      EachWindow(log, closed, p, windows, n - 1, w);
    }
  }

  /** Every window long closed under the version in force at its close has a window.closed of its version and key. */
  lemma DueWindowsClose(log: Log, k: nat, w: nat) returns (i: nat)
    requires DueFindings(log, ClosedBy(log, |log.closes|), |log.policies|) == []
    requires k < |log.policies| && w < |WindowsOf(log, log.policies[k])|
              && IsDue(log, log.policies[k], WindowsOf(log, log.policies[k])[w])
    ensures i < |log.closes| && ClosedWindow(log, log.closes[i]).Some?
    ensures Slot(log, i) == (log.policies[k].version, WindowKey(WindowsOf(log, log.policies[k])[w]))
  {
    hide DueFindings, ClosedBy, WindowsOf, IsDue, WindowKey, WindowsFindings, ClosedWindow, Slot;
    var closed, p := ClosedBy(log, |log.closes|), log.policies[k];
    var windows := WindowsOf(log, p);
    EachPolicy(log, closed, |log.policies|, k);
    EachWindow(log, closed, p, windows, |windows|, w);
    var slot := (p.version, WindowKey(windows[w]));
    ClosedByWhom(log, |log.closes|, slot);
    i :| 0 <= i < |log.closes| && ClosedWindow(log, log.closes[i]).Some? && Slot(log, i) == slot;
  }
}
