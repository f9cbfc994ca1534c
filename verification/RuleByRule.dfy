/** verify/receipts.go: which bundles and receipts each rule of reconciliation speaks about, rule by rule. */
module RuleByRule {
  import opened Bytes
  import opened JsonValue
  import opened Canonical
  import opened PhpValues
  import opened Run
  import opened RegistryTime
  import opened RegistryLog
  import opened PolicyRules
  import opened Reconcile
  import opened LogContents

  ghost predicate Mentions(fs: seq<Finding>, check: Check)
  {
    exists f :: f in fs && f.check == check
  }

  /** Whatever is here is this failure of the content. */
  ghost predicate Uniform(fs: seq<Finding>, check: Check)
  {
    forall f :: f in fs ==> f == Finding(check, ContentIntegrity)
  }

  lemma MentionsJoin(fs: seq<Finding>, gs: seq<Finding>, check: Check)
    ensures Mentions(fs + gs, check) <==> Mentions(fs, check) || Mentions(gs, check)
  {
    if f :| f in fs && f.check == check {
      assert f in fs + gs;
    }
    if g :| g in gs && g.check == check {
      assert g in fs + gs;
    }
  }

  lemma MentionsUniform(fs: seq<Finding>, own: Check, check: Check)
    requires Uniform(fs, own)
    ensures Mentions(fs, check) <==> check == own && fs != []
  {
    if fs != [] {
      assert fs[0] in fs;
    }
  }

  // ---- time order and rule 2

  /** Every time received parses, and none is before an earlier one. */
  ghost predicate TimesRise(records: seq<Record>)
  {
    && (forall i :: 0 <= i < |records| ==> ReceivedAt(records[i].value).Some?)
    && forall i, j :: 0 <= i < j < |records| ==> NotAfter(ReceivedAt(records[i].value), ReceivedAt(records[j].value))
  }

  ghost predicate NotAfter(a: Option<Instant>, b: Option<Instant>)
  {
    a.Some? && b.Some? ==> Nanos(a.value) <= Nanos(b.value)
  }

  lemma {:induction false} OrderedExactly(records: seq<Record>, n: nat)
    requires n <= |records|
    ensures TimeOrdered(records, n) <==> TimesRise(records[..n])
  {
    hide ReceivedAt, Nanos;
    var some := records[..n];
    if TimeOrdered(records, n) {
      forall i | 0 <= i < n
        ensures ReceivedAt(some[i].value).Some?
      {
        OrderedTimes(records, n, i, i);
      }
      forall i, j | 0 <= i < j < n
        ensures NotAfter(ReceivedAt(some[i].value), ReceivedAt(some[j].value))
      {
        OrderedTimes(records, n, i, j);
        BeforeExact(ReceivedAt(records[j].value).value, ReceivedAt(records[i].value).value);
      }
    }
    if TimesRise(some) && n > 0 {
      var fewer := records[..n - 1];
      assert forall i :: 0 <= i < n - 1 ==> fewer[i] == some[i];
      OrderedExactly(records, n - 1);
      assert some[n - 1] == records[n - 1];
      if n >= 2 {
        assert some[n - 2] == records[n - 2];
        BeforeExact(ReceivedAt(records[n - 1].value).value, ReceivedAt(records[n - 2].value).value);
      }
    }
  }

  /** Event 1 of the log commits its policy. */
  ghost predicate FirstCommits(log: View)
  {
    1 in log.events && Field(Some(log.events[1]), "action") == Some(String(Ascii("policy.committed")))
  }

  // ---- rule 3

  /** The windows joined back are as many as said, and the policy with them hashes to its policy_hash. */
  ghost predicate HashesTo(log: Log, p: Policy)
  {
    var parts := PartsOf(log, p.version);
    && IsObject(p.rules) && p.parts == Some(Int(|parts|)) && p.count == Some(Int(|Joined(parts)|))
    && var whole := Object(Put(p.rules.value.members, Ascii("windows"), Array(Joined(parts))));
       Canon(whole).Some? && p.hash == Ascii("sha256:") + Sha256Hex(Canon(whole).value)
  }

  lemma {:induction false} HashesExactly(log: Log, n: nat)
    requires n <= |log.policies|
    ensures HashProblems(log, n) == 0 <==>
            log.policyProblems == 0 && forall k :: 0 <= k < n ==> HashesTo(log, log.policies[k])
  {
    hide HashesTo, PolicyHashes;
    if n > 0 {
      HashesExactly(log, n - 1);
      HashExactly(log, log.policies[n - 1]);
    }
  }

  lemma HashExactly(log: Log, p: Policy)
    ensures PolicyHashes(log, p) <==> HashesTo(log, p)
  {
    hide Canon, Ascii, Joined, PartsOf, Sha256Hex, Put;
  }

  // ---- rule 4

  /** The policy is this registry's, keeps to the seal delay, and asks for no odd notice. */
  ghost predicate OwnRules(p: Policy, publicId: Bytes)
  {
    var notice := Field(p.rules, "notice_seconds");
    && Field(p.rules, "registry") == Some(String(publicId)) && Field(p.rules, "msd_seconds") == Some(Int(900))
    && (StrEq(Field(p.rules, "amendment"), "notice") ==> IsInt(notice) && 3600 <= notice.value.n <= 3155760000)
  }

  /**
   * The next version amends one that is under notice and has taken effect by then, and takes effect no sooner than the
   * notice that one asks for.
   */
  ghost predicate AmendsUnderNotice(previous: Policy, p: Policy)
  {
    var notice := Field(previous.rules, "notice_seconds");
    && previous.version != MAX_INT64 && p.version == previous.version + 1 && p.action == Ascii("policy.amended")
    && StrEq(Field(previous.rules, "amendment"), "notice") && IsInt(notice) && 3600 <= notice.value.n <= 3155760000
    && previous.effectiveAt.Some? && p.recordedAt.Some? && p.effectiveAt.Some?
    && Nanos(previous.effectiveAt.value) <= Nanos(p.recordedAt.value)
    && Nanos(p.recordedAt.value) + notice.value.n * SECOND <= Nanos(p.effectiveAt.value)
  }

  /** Every policy is this registry's; the first is version 1 committed, and each later one amends the one before. */
  ghost predicate AmendedRightly(policies: seq<Policy>, publicId: Bytes, n: nat)
    requires n <= |policies|
  {
    && (forall k :: 0 <= k < n ==> OwnRules(policies[k], publicId))
    && (n > 0 ==> policies[0].version == 1 && policies[0].action == Ascii("policy.committed"))
    && forall k :: 0 < k < n ==> AmendsUnderNotice(policies[k - 1], policies[k])
  }

  lemma AmendsExactly(previous: Policy, p: Policy)
    ensures Amends(previous, p) <==> AmendsUnderNotice(previous, p)
  {
    hide Lookup, Ascii, Nanos;
    var notice := Field(previous.rules, "notice_seconds");
    if previous.effectiveAt.Some? && p.recordedAt.Some? {
      BeforeExact(p.recordedAt.value, previous.effectiveAt.value);
    }
    if p.effectiveAt.Some? && p.recordedAt.Some? && IsInt(notice) {
      NoticeExact(p.effectiveAt.value, p.recordedAt.value, notice.value.n);
    }
  }

  lemma OwnRulesExactly(p: Policy, publicId: Bytes)
    ensures RulesProblems(p, publicId) == [] <==> OwnRules(p, publicId)
  {
    hide Lookup, Ascii;
  }

  lemma {:induction false} AmendmentsExactly(policies: seq<Policy>, publicId: Bytes, n: nat)
    requires n <= |policies|
    ensures AmendmentProblems(policies, publicId, n) == [] <==> AmendedRightly(policies, publicId, n)
    ensures Uniform(AmendmentProblems(policies, publicId, n), PolicyAmendment)
  {
    hide *;
    AmendedNow(policies, publicId, n);
    AmendmentStep(policies, publicId, n);
    if n > 0 {
      AmendmentsExactly(policies, publicId, n - 1);
      var p := policies[n - 1];
      OwnRulesExactly(p, publicId);
      RulesUniform(p, publicId);
      var rest := if (if n == 1 then Opens(p) else Amends(policies[n - 2], p)) then [] else Amendment();
      UniformJoin(AmendmentProblems(policies, publicId, n - 1), RulesProblems(p, publicId), PolicyAmendment);
      UniformJoin(AmendmentProblems(policies, publicId, n - 1) + RulesProblems(p, publicId), rest, PolicyAmendment);
      if n > 1 {
        AmendsExactly(policies[n - 2], p);
      }
    }
  }

  lemma UniformJoin(fs: seq<Finding>, gs: seq<Finding>, check: Check)
    ensures Uniform(fs, check) && Uniform(gs, check) ==> Uniform(fs + gs, check)
  {
  }

  lemma AmendmentStep(policies: seq<Policy>, publicId: Bytes, n: nat)
    requires n <= |policies|
    ensures Uniform([], PolicyAmendment) && Uniform(Amendment(), PolicyAmendment) && Amendment() != []
    ensures AmendmentProblems(policies, publicId, n) ==
            if n == 0 then []
            else
              var p := policies[n - 1];
              AmendmentProblems(policies, publicId, n - 1) + RulesProblems(p, publicId) +
              if (if n == 1 then Opens(p) else Amends(policies[n - 2], p)) then [] else Amendment()
    ensures n > 0 ==>
              (Opens(policies[0]) <==> policies[0].version == 1 && policies[0].action == Ascii("policy.committed"))
  {
    hide Amends, RulesProblems, Ascii;
  }

  lemma AmendedNow(policies: seq<Policy>, publicId: Bytes, n: nat)
    requires n <= |policies|
    ensures AmendedRightly(policies, publicId, n) <==>
              n > 0 ==> && AmendedRightly(policies, publicId, n - 1) && OwnRules(policies[n - 1], publicId)
                        && if n == 1 then policies[0].version == 1 && policies[0].action == Ascii("policy.committed")
                           else AmendsUnderNotice(policies[n - 2], policies[n - 1])
  {
    hide OwnRules, AmendsUnderNotice, Ascii;
  }

  lemma RulesUniform(p: Policy, publicId: Bytes)
    ensures Uniform(RulesProblems(p, publicId), PolicyAmendment)
  {
    hide Field, Ascii, StrEq;
  }

  // ---- rule 5

  ghost predicate EffectiveBy(p: Policy, at: Option<Instant>)
  {
    at.Some? && p.effectiveAt.Some? && Nanos(p.effectiveAt.value) <= Nanos(at.value)
  }

  /** The last policy recorded before then and effective by this time. */
  ghost predicate Governs(policies: seq<Policy>, n: nat, at: Option<Instant>, before: int, k: nat)
    requires n <= |policies|
  {
    && k < n && policies[k].sequence < before && EffectiveBy(policies[k], at)
    && forall j :: k < j < n ==> !(policies[j].sequence < before && EffectiveBy(policies[j], at))
  }

  lemma EffectiveExactly(p: Policy, at: Option<Instant>)
    ensures Effective(p, at) <==> EffectiveBy(p, at)
  {
    hide Nanos, Before;
    if at.Some? && p.effectiveAt.Some? {
      BeforeExact(at.value, p.effectiveAt.value);
    }
  }

  /** The policy in force is the one that governs, and there is one exactly where some policy does. */
  lemma {:induction false} GovernsExactly(policies: seq<Policy>, at: Option<Instant>, before: int, n: nat)
    requires n <= |policies|
    ensures var found := InForceBefore(policies, at, before, n);
            && (found.None? <==> forall k: nat :: !Governs(policies, n, at, before, k))
            && forall k: nat :: Governs(policies, n, at, before, k) ==> found == Some(policies[k])
  {
    hide Effective, EffectiveBy;
    if n > 0 {
      var last, m := policies[n - 1], n - 1;
      GovernsExactly(policies, at, before, m);
      EffectiveExactly(last, at);
      if last.sequence < before && EffectiveBy(last, at) {
        assert Governs(policies, n, at, before, m);
      } else {
        forall k: nat
          ensures Governs(policies, n, at, before, k) <==> Governs(policies, m, at, before, k)
        {
        }
      }
    }
  }

  /** A window of this key. */
  ghost predicate IsWindow(window: Value, key: Bytes)
  {
    Field(Some(window), "key") == Some(String(key))
  }

  /** The last of the windows of the decision's key. */
  ghost predicate WindowIs(windows: seq<Value>, n: nat, key: Option<Bytes>, i: nat)
    requires n <= |windows|
  {
    && key.Some? && i < n && IsWindow(windows[i], key.value)
    && forall j :: i < j < n ==> !IsWindow(windows[j], key.value)
  }

  lemma {:induction false} WindowForExactly(windows: seq<Value>, key: Option<Bytes>, n: nat)
    requires n <= |windows|
    ensures var found := WindowFor(windows, key, n);
            && (found.None? <==> forall i: nat :: !WindowIs(windows, n, key, i))
            && forall i: nat :: WindowIs(windows, n, key, i) ==> found == Some(windows[i])
  {
    if n > 0 && key.Some? {
      var last, m := windows[n - 1], n - 1;
      WindowForExactly(windows, key, m);
      WindowKeyed(last, key.value);
      hide IsWindow, Field;
      if IsWindow(last, key.value) {
        assert WindowIs(windows, n, key, m);
      } else {
        forall i: nat
          ensures WindowIs(windows, n, key, i) <==> WindowIs(windows, m, key, i)
        {
        }
      }
    }
  }

  lemma WindowKeyed(window: Value, key: Bytes)
    ensures IsWindow(window, key) <==> IsObject(Some(window)) && Field(Some(window), "key") == Some(String(key))
  {
    hide Lookup;
  }

  /** An acceptance of the key that names a registry event. */
  ghost predicate TakesKey(d: Decision, key: Bytes)
  {
    && d.outcome == Ascii("accepted") && Field(Some(d.payload), "commitment_key") == Some(String(key))
    && IsObject(Field(Some(d.payload), "accepted"))
  }

  /** What the first acceptance of the key names. */
  ghost predicate HolderIs(decisions: seq<Decision>, n: nat, key: Bytes, named: Value, l: nat)
    requires n <= |decisions|
  {
    && l < n && TakesKey(decisions[l], key) && Field(Some(decisions[l].payload), "accepted") == Some(named)
    && forall j :: 0 <= j < l ==> !TakesKey(decisions[j], key)
  }

  lemma TakesExactly(d: Decision, key: Bytes)
    ensures TakesKey(d, key) <==>
            d.outcome == Ascii("accepted") && KeyOf(d.payload) == Some(key) && IsObject(NamedBy(d.payload))
  {
    hide Field, Ascii;
  }

  lemma {:induction false} FirstsExactly(decisions: seq<Decision>, n: nat, key: Bytes)
    requires n <= |decisions|
    ensures var firsts := FirstAcceptances(decisions, n);
            && (key in firsts <==> exists l :: 0 <= l < n && TakesKey(decisions[l], key))
            && forall l, named :: HolderIs(decisions, n, key, named, l) ==> key in firsts && firsts[key] == named
  {
    hide Ascii, TakesKey, Field;
    if n > 0 {
      var d, m := decisions[n - 1], n - 1;
      FirstsExactly(decisions, m, key);
      TakesExactly(d, key);
      HoldExactly(FirstAcceptances(decisions, m), d, key);
      forall l: nat, named: Value | HolderIs(decisions, n, key, named, l)
        ensures key in FirstAcceptances(decisions, n) && FirstAcceptances(decisions, n)[key] == named
      {
        if l < m {
          assert HolderIs(decisions, m, key, named, l);
        }
      }
    }
  }

  lemma HoldExactly(held: map<Bytes, Value>, d: Decision, key: Bytes)
    ensures var after := Hold(held, d);
            && (key in after <==> key in held || TakesKey(d, key))
            && (key in held ==> after[key] == held[key])
            && (key !in held && TakesKey(d, key) ==> Some(after[key]) == Field(Some(d.payload), "accepted"))
  {
    hide Ascii, Field;
    TakesExactly(d, key);
  }

  // ---- what each outcome needs

  ghost predicate StateFits(d: Decision)
  {
    && (d.outcome == Ascii("refused_paused") ==> d.status == Paused)
    && (d.outcome == Ascii("refused_archived") ==> d.status == Archived)
    && (|| d.outcome == Ascii("accepted") || d.outcome == Ascii("replay") || d.outcome == Ascii("conflict")
        || d.outcome == Ascii("invalid") || d.outcome == Ascii("refused_early")
        || d.outcome == Ascii("refused_late") ==>
          d.status == Active)
  }

  lemma OutcomesApart()
    ensures |Ascii("refused_paused")| == 14 && |Ascii("refused_archived")| == 16
    ensures |Ascii("accepted")| == 8 && |Ascii("replay")| == 6 && |Ascii("conflict")| == 8 && |Ascii("invalid")| == 7
    ensures |Ascii("refused_early")| == 13 && |Ascii("refused_late")| == 12 && Ascii("accepted") != Ascii("conflict")
  {
    assert Ascii("accepted")[0] == 0x61 && Ascii("conflict")[0] == 0x63;
  }

  lemma StateFitsExactly(d: Decision)
    ensures !(Needed(d.outcome).Some? && d.status != Needed(d.outcome).value) <==> StateFits(d)
  {
    hide Ascii;
    OutcomesApart();
  }

  ghost predicate InWindow(window: Value, at: Instant)
  {
    var (from, until) := (ParseTime(Field(Some(window), "open_at")), ParseTime(Field(Some(window), "close_at")));
    from.Some? && until.Some? && Nanos(from.value) <= Nanos(at) < Nanos(until.value)
  }

  /** It names the registry event the key's first acceptance named, by sequence, entry hash and request digest. */
  ghost predicate NamesIt(payload: Value, holder: Value)
  {
    var named, first := Field(Some(payload), "accepted"), Field(Some(holder), "sequence");
    && IsObject(named)
    && StrictEqual(Field(named, "sequence"), if Nullish(first) then Some(Bool(false)) else first)
    && Text(Field(named, "entry_hash")) == Text(Field(Some(holder), "entry_hash"))
    && Text(Field(named, "request_digest")) == Text(Field(Some(holder), "request_digest"))
  }

  ghost predicate SaysUnknownKey(payload: Value)
  {
    var reasons := IterValues(Field(Some(payload), "reasons"));
    exists i :: 0 <= i < |reasons| && reasons[i] == String(Ascii("unknown_key"))
  }

  /** Its own digest is the first acceptance's. */
  ghost predicate SameDigest(payload: Value, holder: Value)
  {
    Text(Field(Some(payload), "request_digest")) == Text(Field(Some(holder), "request_digest"))
  }

  /** The outcome agrees with the key's window and with the key's first acceptance. */
  ghost predicate OutcomeRight(d: Decision, at: Instant, window: Option<Value>, holder: Option<Value>)
  {
    && (d.outcome == Ascii("accepted") ==> window.Some? && InWindow(window.value, at))
    && (d.outcome == Ascii("replay") ==>
          && window.Some? && InWindow(window.value, at)
          && holder.Some? && NamesIt(d.payload, holder.value) && SameDigest(d.payload, holder.value))
    && (d.outcome == Ascii("conflict") ==>
          && window.Some? && InWindow(window.value, at)
          && holder.Some? && NamesIt(d.payload, holder.value) && !SameDigest(d.payload, holder.value))
    && (d.outcome == Ascii("refused_early") ==> window.Some? && NotYetOpen(window.value, at))
    && (d.outcome == Ascii("refused_late") ==> window.Some? && AlreadyClosed(window.value, at))
    && (d.outcome == Ascii("invalid") && SaysUnknownKey(d.payload) ==> window.None?)
  }

  /** The window opens after this moment. */
  ghost predicate NotYetOpen(window: Value, at: Instant)
  {
    var from := ParseTime(Field(Some(window), "open_at"));
    from.Some? && Nanos(at) < Nanos(from.value)
  }

  /** The window had closed by this moment. */
  ghost predicate AlreadyClosed(window: Value, at: Instant)
  {
    var until := ParseTime(Field(Some(window), "close_at"));
    until.Some? && Nanos(until.value) <= Nanos(at)
  }

  lemma UnknownKeyExactly(payload: Value)
    ensures UnknownKey(payload) <==> SaysUnknownKey(payload)
  {
    hide Field, Ascii, IterValues;
    var reasons := IterValues(Field(Some(payload), "reasons"));
    assert forall i :: 0 <= i < |reasons| ==> Somes(reasons)[i] == Some(reasons[i]);
    if SaysUnknownKey(payload) {
      var i :| 0 <= i < |reasons| && reasons[i] == String(Ascii("unknown_key"));
      assert Somes(reasons)[i] == Some(String(Ascii("unknown_key")));
    }
  }

  lemma OpenExactly(window: Value, at: Instant)
    ensures IsOpen(Some(window), at) <==> InWindow(window, at)
    ensures var from, until := ParseTime(Field(Some(window), "open_at")), ParseTime(Field(Some(window), "close_at"));
            && (NotYetOpen(window, at) <==> from.Some? && Before(at, from.value))
            && (AlreadyClosed(window, at) <==> until.Some? && !Before(at, until.value))
  {
    hide Field, Nanos, Before;
    var (from, until) := (ParseTime(Field(Some(window), "open_at")), ParseTime(Field(Some(window), "close_at")));
    if from.Some? {
      BeforeExact(at, from.value);
    }
    if until.Some? {
      BeforeExact(at, until.value);
    }
  }

  lemma NamesExactly(payload: Value, holder: Value)
    ensures NamesHolder(payload, Some(holder)) <==> NamesIt(payload, holder)
  {
    hide Field, Text, StrictEqual;
  }

  lemma BrokenExactly(d: Decision, at: Instant, window: Option<Value>, holder: Option<Value>)
    ensures !Broken(d, at, window, holder) <==> OutcomeRight(d, at, window, holder)
  {
    hide Field, Ascii, ParseTime, Before, IsOpen, InWindow, NotYetOpen, AlreadyClosed, NamesIt, NamesHolder, UnknownKey,
      SaysUnknownKey, Text;
    OutcomesApart();
    UnknownKeyExactly(d.payload);
    if window.Some? {
      OpenExactly(window.value, at);
    } else {
      NotOpen(at);
    }
    if holder.Some? {
      NamesExactly(d.payload, holder.value);
    } else {
      NoHolder(d.payload);
    }
  }

  lemma NotOpen(at: Instant)
    ensures !IsOpen(None, at)
  {
  }

  lemma NoHolder(payload: Value)
    ensures !NamesHolder(payload, None)
  {
  }

  /** The window of the decision's key under the policy, if it has one. */
  ghost predicate WindowOf(log: Log, d: Decision, p: Policy, window: Option<Value>)
  {
    var windows, key := WindowsOf(log, p), StringOrNone(Field(Some(d.payload), "commitment_key"));
    if window.None? then forall i: nat :: !WindowIs(windows, |windows|, key, i)
    else exists i: nat :: WindowIs(windows, |windows|, key, i) && windows[i] == window.value
  }

  /** What the first acceptance of the decision's key before it names, if there is one. */
  ghost predicate HolderOf(decisions: seq<Decision>, m: nat, holder: Option<Value>)
    requires m < |decisions|
  {
    var key := StringOrNone(Field(Some(decisions[m].payload), "commitment_key"));
    if holder.None? then key.Some? ==> forall l :: 0 <= l < m ==> !TakesKey(decisions[l], key.value)
    else key.Some? && exists l: nat :: HolderIs(decisions, m, key.value, holder.value, l)
  }

  /** A decision fits the registry's state, names the policy that governs it and keeps to that policy's windows. */
  ghost predicate DecisionRight(log: Log, m: nat)
    requires m < |log.decisions|
  {
    StateFits(log.decisions[m]) && exists k: nat, window: Option<Value>, holder: Option<Value> ::
      FollowsRule(log, m, k, window, holder)
  }

  ghost predicate FollowsRule(log: Log, m: nat, k: nat, window: Option<Value>, holder: Option<Value>)
    requires m < |log.decisions|
  {
    var d := log.decisions[m];
    && Governs(log.policies, |log.policies|, d.receivedAt, d.sequence, k) && d.receivedAt.Some?
    && Field(Some(d.payload), "policy_hash") == Some(String(log.policies[k].hash))
    && WindowOf(log, d, log.policies[k], window) && HolderOf(log.decisions, m, holder)
    && OutcomeRight(d, d.receivedAt.value, window, holder)
  }

  /** The window and the holder the code looks up. */
  lemma LookedUp(log: Log, m: nat, p: Policy, window: Option<Value>, holder: Option<Value>)
    requires m < |log.decisions|
    ensures var d, windows := log.decisions[m], WindowsOf(log, p);
            WindowOf(log, d, p, window) <==> window == WindowFor(windows, KeyOf(d.payload), |windows|)
    ensures HolderOf(log.decisions, m, holder) <==>
            holder == HeldBy(FirstAcceptances(log.decisions, m), log.decisions[m])
  {
    var d, windows := log.decisions[m], WindowsOf(log, p);
    var key := KeyOf(d.payload);
    hide WindowsOf, Field, WindowIs, WindowFor, HolderIs, TakesKey;
    WindowForExactly(windows, key, |windows|);
    if key.Some? {
      FirstsExactly(log.decisions, m, key.value);
      FirstOfKey(log.decisions, m, key.value);
    }
  }

  /** The first of some. */
  lemma {:induction false} FirstOfKey(decisions: seq<Decision>, n: nat, key: Bytes)
    requires n <= |decisions|
    ensures (exists l :: 0 <= l < n && TakesKey(decisions[l], key)) ==>
              exists l: nat, named: Value :: HolderIs(decisions, n, key, named, l)
  {
    hide TakesKey, Field;
    if n > 0 && exists l :: 0 <= l < n && TakesKey(decisions[l], key) {
      var m := n - 1;
      if exists l :: 0 <= l < m && TakesKey(decisions[l], key) {
        FirstOfKey(decisions, m, key);
        var l: nat, named: Value :| HolderIs(decisions, m, key, named, l);
        assert HolderIs(decisions, n, key, named, l);
      } else {
        TakesNamed(decisions[m], key);
        assert HolderIs(decisions, n, key, Field(Some(decisions[m].payload), "accepted").value, m);
      }
    }
  }

  lemma TakesNamed(d: Decision, key: Bytes)
    requires TakesKey(d, key)
    ensures Field(Some(d.payload), "accepted").Some?
  {
    hide Field, Ascii;
  }

  /** Rule 5 is silent about a decision exactly when it is right. */
  lemma DecisionExactly(log: Log, m: nat)
    requires m < |log.decisions|
    ensures var d := log.decisions[m];
            DecisionProblems(log, d, HeldBy(FirstAcceptances(log.decisions, m), d)) == [] <==> DecisionRight(log, m)
  {
    hide Field, Ascii, InForceBefore, Needed, Broken, WindowFor, WindowsOf, Governs, WindowOf, HolderOf, OutcomeRight,
      StateFits, KeyOf, FirstAcceptances, HeldBy;
    var d := log.decisions[m];
    var held, policy := HeldBy(FirstAcceptances(log.decisions, m), d),
      InForceBefore(log.policies, d.receivedAt, d.sequence, |log.policies|);
    StateFitsExactly(d);
    GovernsExactly(log.policies, d.receivedAt, d.sequence, |log.policies|);
    if DecisionProblems(log, d, held) == [] {
      InForceNeedsTime(log.policies, d.receivedAt, d.sequence, |log.policies|);
      var k: nat :| Governs(log.policies, |log.policies|, d.receivedAt, d.sequence, k);
      var windows := WindowsOf(log, policy.value);
      var window := WindowFor(windows, KeyOf(d.payload), |windows|);
      BrokenExactly(d, d.receivedAt.value, window, held);
      LookedUp(log, m, policy.value, window, held);
      GovernsIndex(log.policies, |log.policies|, d.receivedAt, d.sequence, k);
      assert FollowsRule(log, m, k, window, held);
    }
    if DecisionRight(log, m) {
      var k: nat, window: Option<Value>, holder: Option<Value> :| FollowsRule(log, m, k, window, holder);
      GovernsIndex(log.policies, |log.policies|, d.receivedAt, d.sequence, k);
      LookedUp(log, m, log.policies[k], window, holder);
      BrokenExactly(d, d.receivedAt.value, window, holder);
    }
  }

  lemma GovernsIndex(policies: seq<Policy>, n: nat, at: Option<Instant>, before: int, k: nat)
    requires n <= |policies| && Governs(policies, n, at, before, k)
    ensures k < n
  {
  }

  lemma {:induction false} DecisionsExactly(log: Log, n: nat)
    requires n <= |log.decisions|
    ensures DecisionsProblems(log, n) == [] <==> forall m :: 0 <= m < n ==> DecisionRight(log, m)
    ensures Uniform(DecisionsProblems(log, n), DecisionPolicy)
  {
    hide DecisionProblems, DecisionRight, HeldBy, FirstAcceptances;
    if n > 0 {
      DecisionsExactly(log, n - 1);
      DecisionExactly(log, n - 1);
      DecisionUniform(log, log.decisions[n - 1], HeldBy(FirstAcceptances(log.decisions, n - 1), log.decisions[n - 1]));
    }
  }

  lemma DecisionUniform(log: Log, d: Decision, held: Option<Value>)
    ensures Uniform(DecisionProblems(log, d, held), DecisionPolicy)
  {
    hide Field, Ascii, InForceBefore, Needed, Broken, WindowFor, WindowsOf;
  }
}
