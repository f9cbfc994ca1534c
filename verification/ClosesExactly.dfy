/** verify/receipts.go: exactly when rule 8 is silent about the windows that close. */
module ClosesExactly {
  import opened Bytes
  import opened JsonValue
  import opened PhpValues
  import opened Run
  import opened RegistryTime
  import opened RegistryLog
  import opened PolicyRules
  import opened Reconcile
  import opened WindowCloses
  import opened RuleByRule

  /** The last of the policies with this hash. */
  ghost predicate HashIs(policies: seq<Policy>, n: nat, hash: Bytes, k: nat)
    requires n <= |policies|
  {
    k < n && policies[k].hash == hash && forall j :: k < j < n ==> policies[j].hash != hash
  }

  lemma {:induction false} PolicyExactly(policies: seq<Policy>, hash: Bytes, n: nat)
    requires n <= |policies|
    ensures var found := PolicyOfHash(policies, hash, n);
            && (found.None? <==> forall k: nat :: !HashIs(policies, n, hash, k))
            && forall k: nat :: HashIs(policies, n, hash, k) ==> found == Some(policies[k])
  {
    if n > 0 {
      var m := n - 1;
      PolicyExactly(policies, hash, m);
      if policies[m].hash == hash {
        assert HashIs(policies, n, hash, m);
      } else {
        forall k: nat
          ensures HashIs(policies, n, hash, k) <==> HashIs(policies, m, hash, k)
        {
        }
      }
    }
  }

  /** The record closes window w of policy k: that policy's hash, that window's key and its close_at. */
  ghost predicate ClosesAt(log: Log, c: Close, k: nat, w: nat)
  {
    var n := |log.policies|;
    && HashIs(log.policies, n, Text(Field(Some(c.payload), "policy_hash")), k) && k < n
    && var windows := WindowsOf(log, log.policies[k]);
       && WindowIs(windows, |windows|, Some(Text(Field(Some(c.payload), "key"))), w) && w < |windows|
       && Text(Field(Some(c.payload), "close_at")) == Text(Field(Some(windows[w]), "close_at"))
  }

  lemma WindowExactly(log: Log, c: Close)
    ensures var held := ClosedWindow(log, c);
            && (held.None? <==> forall k: nat, w: nat :: !ClosesAt(log, c, k, w))
            && forall k: nat, w: nat :: ClosesAt(log, c, k, w) ==>
                 held == Some(Held(log.policies[k].version, WindowsOf(log, log.policies[k])[w]))
  {
    hide Field, Text, WindowsOf, WindowIs, HashIs, PolicyOfHash, WindowFor;
    var hash, n := Text(Field(Some(c.payload), "policy_hash")), |log.policies|;
    PolicyExactly(log.policies, hash, n);
    var p := PolicyOfHash(log.policies, hash, n);
    if p.Some? {
      var windows := WindowsOf(log, p.value);
      var key := Some(CloseKey(c));
      WindowForExactly(windows, key, |windows|);
      if ClosedWindow(log, c).Some? {
        var k: nat :| HashIs(log.policies, n, hash, k);
        HashIndex(log.policies, n, hash, k);
        var w: nat :| WindowIs(windows, |windows|, key, w);
        WindowIndex(windows, |windows|, key, w);
        assert ClosesAt(log, c, k, w);
      }
    }
  }

  lemma HashIndex(policies: seq<Policy>, n: nat, hash: Bytes, k: nat)
    requires n <= |policies| && HashIs(policies, n, hash, k)
    ensures k < n
  {
  }

  lemma WindowIndex(windows: seq<Value>, n: nat, key: Option<Bytes>, w: nat)
    requires n <= |windows| && WindowIs(windows, n, key, w)
    ensures w < n
  {
  }

  // ---- what a record says of its window

  /** The first acceptance of the key. */
  ghost predicate TakenBy(accepted: seq<Acceptance>, key: Bytes, i: nat)
  {
    i < |accepted| && accepted[i].key == Some(key) && forall j :: 0 <= j < i ==> accepted[j].key != Some(key)
  }

  lemma {:induction false} TakenExactly(accepted: seq<Acceptance>, key: Bytes)
    ensures var found := AcceptanceOfKey(accepted, key);
            && (found.None? <==> forall i: nat :: !TakenBy(accepted, key, i))
            && forall i: nat :: TakenBy(accepted, key, i) ==> found == Some(accepted[i])
  {
    if accepted != [] {
      var rest := accepted[1..];
      TakenExactly(rest, key);
      assert forall j :: 0 <= j < |rest| ==> rest[j] == accepted[j + 1];
      if accepted[0].key == Some(key) {
        assert TakenBy(accepted, key, 0);
      } else {
        forall i: nat | TakenBy(accepted, key, i)
          ensures i > 0 && TakenBy(rest, key, i - 1)
        {
        }
        forall i: nat | TakenBy(rest, key, i)
          ensures TakenBy(accepted, key, i + 1)
        {
        }
      }
    }
  }

  /** This acceptance took the key before the window closed. */
  ghost predicate TakenInTime(log: Log, key: Bytes, window: Value, i: nat)
  {
    var closeAt := ParseTime(Field(Some(window), "close_at"));
    && TakenBy(log.accepted, key, i) && closeAt.Some? && log.accepted[i].receivedAt.Some?
    && Nanos(log.accepted[i].receivedAt.value) < Nanos(closeAt.value)
  }

  ghost predicate SaysCommitted(c: Close, a: Acceptance)
  {
    var named, s := Field(Some(c.payload), "accepted"), Field(Field(Some(a.payload), "accepted"), "sequence");
    && Field(Some(c.payload), "outcome") == Some(String(Ascii("committed"))) && IsObject(named)
    && StrictEqual(Field(named, "sequence"), if Nullish(s) then Some(Bool(false)) else s)
  }

  ghost predicate SaysMissing(c: Close)
  {
    && Field(Some(c.payload), "outcome") == Some(String(Ascii("missing")))
    && Nullish(Field(Some(c.payload), "accepted"))
  }

  /** Committed, naming the event of the acceptance that took the key in time; or missing, naming none. */
  ghost predicate TellsTruth(log: Log, c: Close, window: Value)
  {
    var key := Text(Field(Some(c.payload), "key"));
    if exists i: nat :: TakenInTime(log, key, window, i)
    then exists i: nat :: TakenInTime(log, key, window, i) && SaysCommitted(c, log.accepted[i])
    else SaysMissing(c)
  }

  lemma TruthExactly(log: Log, c: Close, window: Value)
    ensures Truthful(log, c, window) <==> TellsTruth(log, c, window)
  {
    hide Field, Text, StrictEqual, Ascii, Before, Nanos, AcceptanceOfKey, TakenBy;
    var key, closeAt := CloseKey(c), ParseTime(Field(Some(window), "close_at"));
    TakenExactly(log.accepted, key);
    forall i: nat | TakenBy(log.accepted, key, i)
      ensures i < |log.accepted|
      ensures TakenInTime(log, key, window, i) <==> Committed(log, c, window)
    {
      TakenIndex(log.accepted, key, i);
      if closeAt.Some? && log.accepted[i].receivedAt.Some? {
        BeforeExact(log.accepted[i].receivedAt.value, closeAt.value);
      }
    }
    if Committed(log, c, window) {
      var i: nat :| TakenBy(log.accepted, key, i);
      assert TakenInTime(log, key, window, i);
    }
  }

  lemma TakenIndex(accepted: seq<Acceptance>, key: Bytes, i: nat)
    requires TakenBy(accepted, key, i)
    ensures i < |accepted|
  {
  }

  // ---- the records, and the windows due

  /** The record closes a window its policy holds, and tells the truth about it. */
  ghost predicate ClosesRight(log: Log, i: nat)
    requires i < |log.closes|
  {
    exists k: nat, w: nat ::
      ClosesAt(log, log.closes[i], k, w) && TellsTruth(log, log.closes[i], WindowsOf(log, log.policies[k])[w])
  }

  /** The record closes the window of this key of this version. */
  ghost predicate ClosesSlot(log: Log, i: nat, version: int, key: Bytes)
    requires i < |log.closes|
  {
    && Text(Field(Some(log.closes[i].payload), "key")) == key
    && exists k: nat, w: nat :: ClosesAt(log, log.closes[i], k, w) && log.policies[k].version == version
  }

  /** No two records close the same window. */
  ghost predicate ClosesApart(log: Log, n: nat)
    requires n <= |log.closes|
  {
    forall i, j, version, key :: 0 <= i < j < n && ClosesSlot(log, i, version, key) ==>
      !ClosesSlot(log, j, version, key)
  }

  lemma ClosesIndices(log: Log, c: Close)
    ensures forall k: nat, w: nat :: ClosesAt(log, c, k, w) ==>
              k < |log.policies| && w < |WindowsOf(log, log.policies[k])|
  {
    hide Field, Text, WindowsOf, WindowIs, HashIs;
  }

  lemma SlotExactly(log: Log, i: nat, version: int, key: Bytes)
    requires i < |log.closes|
    ensures ClosesSlot(log, i, version, key) <==>
            ClosedWindow(log, log.closes[i]).Some? && Slot(log, i) == (version, key)
  {
    hide Field, Text, ClosedWindow, ClosesAt, WindowsOf;
    WindowExactly(log, log.closes[i]);
    ClosesIndices(log, log.closes[i]);
    if ClosedWindow(log, log.closes[i]).Some? {
      var k: nat, w: nat :| ClosesAt(log, log.closes[i], k, w);
    }
  }

  lemma RightExactly(log: Log, i: nat)
    requires i < |log.closes|
    ensures ClosesRight(log, i) <==> ClosesRightly(log, i)
  {
    hide Field, Text, ClosedWindow, ClosesAt, TellsTruth, Truthful, WindowsOf;
    var c := log.closes[i];
    WindowExactly(log, c);
    ClosesIndices(log, c);
    if ClosedWindow(log, c).Some? {
      TruthExactly(log, c, ClosedWindow(log, c).value.window);
      var k: nat, w: nat :| ClosesAt(log, c, k, w);
    }
  }

  /** The records are silent exactly when each is right and no window is closed twice. */
  lemma {:induction false} RecordsExactly(log: Log, n: nat)
    requires n <= |log.closes|
    ensures ClosesFindings(log, n) == [] <==> (forall i :: 0 <= i < n ==> ClosesRight(log, i)) && ClosesApart(log, n)
    ensures Uniform(ClosesFindings(log, n), WindowClose)
  {
    hide ClosesRight, ClosesSlot, CloseFindings, ClosedBy, Slot;
    if n > 0 {
      var m := n - 1;
      RecordsExactly(log, m);
      OneRecord(log, m);
    }
  }

  lemma OneRecord(log: Log, m: nat)
    requires m < |log.closes|
    ensures Uniform(CloseFindings(log, ClosedBy(log, m), log.closes[m]), WindowClose)
    ensures CloseFindings(log, ClosedBy(log, m), log.closes[m]) == [] <==>
            ClosesRight(log, m) && forall i, version, key ::
              0 <= i < m && ClosesSlot(log, i, version, key) ==> !ClosesSlot(log, m, version, key)
  {
    hide ClosesRight, ClosesSlot, ClosedBy, ClosedWindow, Truthful, CloseKey;
    RightExactly(log, m);
    if ClosesRight(log, m) {
      RightlyWindow(log, m);
      var slot := Slot(log, m);
      ClosedByWhom(log, m, slot);
      forall i, version, key | 0 <= i <= m
        ensures ClosesSlot(log, i, version, key) <==>
                ClosedWindow(log, log.closes[i]).Some? && Slot(log, i) == (version, key)
      {
        SlotExactly(log, i, version, key);
      }
      SlotIs(log, m);
      if i :| 0 <= i < m && ClosedWindow(log, log.closes[i]).Some? && Slot(log, i) == slot {
        assert ClosesSlot(log, i, slot.0, slot.1) && ClosesSlot(log, m, slot.0, slot.1);
      }
    }
  }

  lemma SlotIs(log: Log, i: nat)
    requires i < |log.closes| && ClosedWindow(log, log.closes[i]).Some?
    ensures Slot(log, i) == (ClosedWindow(log, log.closes[i]).value.version, CloseKey(log.closes[i]))
  {
    hide ClosedWindow, CloseKey;
  }

  /** Closed longer ago than the grace when the log's last record was received, under the version then in force. */
  ghost predicate LongClosed(log: Log, p: Policy, window: Value)
  {
    var closeAt := ParseTime(Field(Some(window), "close_at"));
    && window.Object? && closeAt.Some? && log.last.Some?
    && Nanos(closeAt.value) + 300 * SECOND < Nanos(log.last.value)
    && exists k: nat :: InForceIs(log.policies, |log.policies|, closeAt, k) && log.policies[k].version == p.version
  }

  /** The last of the policies effective by this time. */
  ghost predicate InForceIs(policies: seq<Policy>, n: nat, at: Option<Instant>, k: nat)
    requires n <= |policies|
  {
    k < n && EffectiveBy(policies[k], at) && forall j :: k < j < n ==> !EffectiveBy(policies[j], at)
  }

  lemma {:induction false} InForceExactly(policies: seq<Policy>, at: Option<Instant>, n: nat)
    requires n <= |policies|
    ensures var found := InForce(policies, at, n);
            && (found.None? <==> forall k: nat :: !InForceIs(policies, n, at, k))
            && forall k: nat :: InForceIs(policies, n, at, k) ==> found == Some(policies[k])
  {
    hide Effective, EffectiveBy;
    if n > 0 {
      var m := n - 1;
      InForceExactly(policies, at, m);
      EffectiveExactly(policies[m], at);
      if EffectiveBy(policies[m], at) {
        assert InForceIs(policies, n, at, m);
      } else {
        forall k: nat
          ensures InForceIs(policies, n, at, k) <==> InForceIs(policies, m, at, k)
        {
        }
      }
    }
  }

  lemma GraceExactly(at: Instant, seconds: int, than: Instant)
    ensures PlusBefore(at, seconds, than) <==> Nanos(at) + seconds * SECOND < Nanos(than)
  {
  }

  lemma DueExactly(log: Log, p: Policy, window: Value)
    ensures IsDue(log, p, window) <==> LongClosed(log, p, window)
  {
    hide Field, Nanos, InForceIs, InForce, PlusBefore;
    var closeAt := ParseTime(Field(Some(window), "close_at"));
    InForceExactly(log.policies, closeAt, |log.policies|);
    if closeAt.Some? && log.last.Some? {
      GraceExactly(closeAt.value, WINDOW_CLOSE_GRACE, log.last.value);
    }
    forall k: nat | InForceIs(log.policies, |log.policies|, closeAt, k)
      ensures k < |log.policies|
    {
      InForceIndex(log.policies, |log.policies|, closeAt, k);
    }
  }

  lemma InForceIndex(policies: seq<Policy>, n: nat, at: Option<Instant>, k: nat)
    requires n <= |policies| && InForceIs(policies, n, at, k)
    ensures k < n
  {
  }

  // ---- every window due

  ghost predicate SlotClosed(log: Log, version: int, key: Bytes)
  {
    exists i :: 0 <= i < |log.closes| && ClosesSlot(log, i, version, key)
  }

  lemma ClosedExactly(log: Log, version: int, key: Bytes)
    ensures (version, key) in ClosedBy(log, |log.closes|) <==> SlotClosed(log, version, key)
  {
    hide ClosesSlot, ClosedBy, Slot, ClosedWindow;
    ClosedByWhom(log, |log.closes|, (version, key));
    forall i | 0 <= i < |log.closes|
      ensures ClosesSlot(log, i, version, key) <==>
              ClosedWindow(log, log.closes[i]).Some? && Slot(log, i) == (version, key)
    {
      SlotExactly(log, i, version, key);
    }
  }

  /** A window long closed has its record. */
  ghost predicate WindowRight(log: Log, p: Policy, window: Value)
  {
    LongClosed(log, p, window) ==> SlotClosed(log, p.version, Text(Field(Some(window), "key")))
  }

  lemma OneWindow(log: Log, p: Policy, window: Value)
    ensures var fs := WindowFindings(log, ClosedBy(log, |log.closes|), p, window);
            (fs == [] <==> WindowRight(log, p, window)) && Uniform(fs, WindowClose)
  {
    hide IsDue, ClosedBy, LongClosed, SlotClosed, WindowKey, Field, Text;
    DueExactly(log, p, window);
    ClosedExactly(log, p.version, WindowKey(window));
    KeyIs(window);
  }

  lemma {:induction false} WindowsExactly(log: Log, p: Policy, windows: seq<Value>, n: nat)
    requires n <= |windows|
    ensures var fs := WindowsFindings(log, ClosedBy(log, |log.closes|), p, windows, n);
            && (fs == [] <==> forall w :: 0 <= w < n ==> WindowRight(log, p, windows[w]))
            && Uniform(fs, WindowClose)
  {
    hide ClosedBy, WindowFindings, WindowRight;
    if n > 0 {
      WindowsExactly(log, p, windows, n - 1);
      OneWindow(log, p, windows[n - 1]);
    }
  }

  lemma KeyIs(window: Value)
    ensures WindowKey(window) == Text(Field(Some(window), "key"))
  {
    hide Field, Text;
  }

  ghost predicate PolicyClosed(log: Log, p: Policy)
  {
    var windows := WindowsOf(log, p);
    forall w :: 0 <= w < |windows| ==> WindowRight(log, p, windows[w])
  }

  /** Nothing is due exactly when every window long closed, of every policy, has its record. */
  lemma {:induction false} DuesExactly(log: Log, n: nat)
    requires n <= |log.policies|
    ensures var fs := DueFindings(log, ClosedBy(log, |log.closes|), n);
            && (fs == [] <==> forall k :: 0 <= k < n ==> PolicyClosed(log, log.policies[k]))
            && Uniform(fs, WindowClose)
  {
    hide WindowsFindings, ClosedBy, WindowsOf, WindowRight;
    if n > 0 {
      DuesExactly(log, n - 1);
      var p := log.policies[n - 1];
      WindowsExactly(log, p, WindowsOf(log, p), |WindowsOf(log, p)|);
    }
  }

  /** Every record closes its window truthfully and once, and every window long closed has its record. */
  ghost predicate WindowsClose(log: Log)
  {
    && (forall i :: 0 <= i < |log.closes| ==> ClosesRight(log, i)) && ClosesApart(log, |log.closes|)
    && forall k :: 0 <= k < |log.policies| ==> PolicyClosed(log, log.policies[k])
  }
}
