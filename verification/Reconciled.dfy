/**
 * verify/receipts.go: what reconciliation reports as a whole, when it is silent, and how it moves with completeness.
 */
module Reconciled {
  import opened Bytes
  import opened PhpValues
  import opened Run
  import opened RegistryTime
  import opened RegistryLog
  import opened PolicyRules
  import opened Reconcile
  import opened Accounting
  import opened WindowCloses

  function Records(v: View): seq<Record>
    requires Loaded(v)
  {
    seq(|v.order|, i requires 0 <= i < |v.order| => Record(v.order[i], v.events[v.order[i]]))
  }

  /** Two verified bundles, who the first is and whose log the second says it is, and the receipts submitters hold. */
  datatype Case = Case(publicId: Option<Bytes>, logFor: Option<Bytes>, registry: View, decisions: View,
    receipts: seq<Receipt>)

  /** Rule 1: the log is the registry's. */
  predicate IsItsLog(c: Case)
  {
    c.publicId.Some? && c.logFor == c.publicId
  }

  ghost predicate WellLoaded(c: Case)
  {
    Verified(c.registry) && Verified(c.decisions)
  }

  function LogOf(c: Case): Log
    requires Loaded(c.decisions)
  {
    ReadLog(Records(c.decisions), |c.decisions.order|)
  }

  function RegistryLast(c: Case): Option<Instant>
    requires Loaded(c.registry)
  {
    LastAt(c.registry, |c.registry.order|)
  }

  function Accepts6(c: Case): seq<Standing>
    requires Loaded(c.registry) && Loaded(c.decisions)
  {
    AcceptStandings(c.registry, RegistryLast(c), Complete(c.registry), LogOf(c).accepted, |LogOf(c).accepted|)
  }

  function Parents6(c: Case): seq<Standing>
    requires Loaded(c.registry) && Loaded(c.decisions)
  {
    ParentStandings(c.registry, RegistryLast(c), Complete(c.registry), LogOf(c), Complete(c.decisions),
      |c.registry.order|)
  }

  function Keys7(c: Case): seq<Standing>
    requires Loaded(c.decisions)
  {
    KeyStandings(LogOf(c).accepted, |LogOf(c).accepted|)
  }

  function Receipts10(c: Case): seq<Standing>
    requires Loaded(c.decisions)
  {
    ReceiptStandings(c.decisions, LogOf(c).last, Complete(c.decisions), c.receipts, |c.receipts|)
  }

  /** The log opens on its policy. */
  predicate OpensOnPolicy(log: View)
  {
    1 in log.events && StrEq(Field(Some(log.events[1]), "action"), "policy.committed")
  }

  function Only(condition: bool, check: Check): seq<Finding>
  {
    if condition then Fault(check) else []
  }

  /** Both streams from their start and in time order, the log opening on its policy. */
  function OrderFailures(c: Case): seq<Finding>
    requires Loaded(c.registry) && Loaded(c.decisions)
  {
    Only(c.decisions.from != 1 || c.registry.from != 1, LogNotDense) + TimeProblems(Records(c.registry)) +
    TimeProblems(Records(c.decisions)) + Only(!OpensOnPolicy(c.decisions), FirstNotPolicy)
  }

  /** Rules 1 to 5, once the log is the registry's. */
  function PolicyFailures(c: Case): seq<Finding>
    requires Loaded(c.registry) && Loaded(c.decisions) && IsItsLog(c)
  {
    var log := LogOf(c);
    OrderFailures(c) + Times(HashProblems(log, |log.policies|), Finding(PolicyHash, ContentIntegrity)) +
    AmendmentProblems(log.policies, c.publicId.value, |log.policies|) + DecisionsProblems(log, |log.decisions|)
  }

  /** Rules 8 and 9. */
  function CloseFailures(c: Case): seq<Finding>
    requires Loaded(c.decisions)
  {
    var log := LogOf(c);
    ClosesFindings(log, |log.closes|) + DueFindings(log, ClosedBy(log, |log.closes|), |log.policies|) +
    Times(log.credentialProblems, Finding(CredentialNotValid, ContentIntegrity))
  }

  /** Rules 6 and 7. */
  function MatchFailures(c: Case): seq<Finding>
    requires Loaded(c.registry) && Loaded(c.decisions)
  {
    AllFailing(Accepts6(c), AcceptedUnmatched) + AllFailing(Parents6(c), ParentUnmatched) +
    AllFailing(Keys7(c), DoubleAcceptance)
  }

  function MatchWaits(c: Case): seq<Finding>
    requires Loaded(c.registry) && Loaded(c.decisions)
  {
    AllWaiting(Accepts6(c), AcceptedUnmatched) + AllWaiting(Parents6(c), ParentUnmatched) +
    AllWaiting(Keys7(c), DoubleAcceptance)
  }

  /** Every failure, in order. */
  function Failures(c: Case): seq<Finding>
    requires Loaded(c.registry) && Loaded(c.decisions)
  {
    if !IsItsLog(c) then Fault(NotDecisionLog)
    else
      PolicyFailures(c) + MatchFailures(c) + CloseFailures(c) + AllFailing(Receipts10(c), ReceiptNotLogged)
  }

  function Waits(c: Case): seq<Finding>
    requires Loaded(c.registry) && Loaded(c.decisions)
  {
    if !IsItsLog(c) then []
    else MatchWaits(c) + AllWaiting(Receipts10(c), ReceiptNotLogged)
  }

  method LatestReceived(v: View) returns (last: Option<Instant>)
    requires Loaded(v)
    ensures last == LastAt(v, |v.order|)
  {
    hide ReceivedAt;
    last := None;
    for i := 0 to |v.order|
      invariant last == LastAt(v, i)
    {
      var at := ReceivedAt(v.events[v.order[i]]);
      if at.Some? && (last.None? || Before(last.value, at.value)) {
        last := at;
      }
    }
  }

  method CountHashProblems(log: Log) returns (n: nat)
    ensures n == HashProblems(log, |log.policies|)
  {
    hide PolicyHashes;
    n := log.policyProblems;
    for i := 0 to |log.policies|
      invariant n == HashProblems(log, i)
    {
      if !PolicyHashes(log, log.policies[i]) {
        n := n + 1;
      }
    }
  }

  method CheckOrder(run: Run, c: Case)
    requires run.Valid() && Loaded(c.registry) && Loaded(c.decisions)
    modifies run
    ensures run.Valid() && run.unconfirmed == old(run.unconfirmed)
              && run.failures == old(run.failures) + OrderFailures(c)
  {
    hide Run.Valid, TimeProblems, OpensOnPolicy, Loaded;
    if c.decisions.from != 1 || c.registry.from != 1 {
      run.Report(Finding(LogNotDense, ContentIntegrity));
    }
    CheckTimeOrder(run, Records(c.registry));
    CheckTimeOrder(run, Records(c.decisions));
    if !OpensOnPolicy(c.decisions) {
      run.Report(Finding(FirstNotPolicy, ContentIntegrity));
    }
  }

  method CheckPolicies(run: Run, c: Case, log: Log)
    requires run.Valid() && Loaded(c.registry) && Loaded(c.decisions) && IsItsLog(c) && log == LogOf(c)
    modifies run
    ensures run.Valid() && run.unconfirmed == old(run.unconfirmed)
              && run.failures == old(run.failures) + PolicyFailures(c)
  {
    hide Run.Valid, ReadLog, DecisionsProblems, AmendmentProblems, HashProblems, Times, OrderFailures, Loaded;
    CheckOrder(run, c);
    var bad := CountHashProblems(log);
    run.ReportTimes(bad, Finding(PolicyHash, ContentIntegrity));
    CheckAmendments(run, log.policies, c.publicId.value);
    CheckDecisions(run, log);
  }

  method MatchEvents(run: Run, c: Case, log: Log, registryComplete: Option<Instant>, logComplete: Option<Instant>)
    requires run.Valid() && Loaded(c.registry) && Loaded(c.decisions) && log == LogOf(c)
    requires registryComplete == Complete(c.registry) && logComplete == Complete(c.decisions)
    modifies run
    ensures run.Valid() && run.failures == old(run.failures) + MatchFailures(c)
    ensures run.unconfirmed == old(run.unconfirmed) + MatchWaits(c)
  {
    hide Run.Valid, ReadLog, AllFailing, AllWaiting, LastAt, AcceptStandings, ParentStandings, KeyStandings, Claims,
      HighestNamed, Loaded;
    var lastAt := LatestReceived(c.registry);
    var claimed, highest := MatchAcceptances(run, c.registry, lastAt, registryComplete, log.accepted);
    MatchParents(run, c.registry, lastAt, registryComplete, log, logComplete, claimed, highest);
    CheckKeys(run, log.accepted);
  }

  method CheckCloseRules(run: Run, c: Case, log: Log)
    requires run.Valid() && Loaded(c.decisions) && log == LogOf(c)
    modifies run
    ensures run.Valid() && run.unconfirmed == old(run.unconfirmed)
              && run.failures == old(run.failures) + CloseFailures(c)
  {
    hide Run.Valid, ReadLog, Times, ClosesFindings, DueFindings, ClosedBy, Loaded;
    CheckCloses(run, log);
    run.ReportTimes(log.credentialProblems, Finding(CredentialNotValid, ContentIntegrity));
  }

  method ReconcileRegistry(run: Run, c: Case)
    requires run.Valid() && WellLoaded(c)
    modifies run
    ensures run.Valid() && Loaded(c.registry) && Loaded(c.decisions)
    ensures run.failures == old(run.failures) + Failures(c)
    ensures run.unconfirmed == old(run.unconfirmed) + Waits(c)
  {
    hide Run.Valid, Verified, ReadLog, AllFailing, AllWaiting, PolicyFailures, MatchFailures, MatchWaits,
      CloseFailures, Latest, Later, ReceiptStandings, Loaded;
    VerifiedLoaded(c.registry);
    VerifiedLoaded(c.decisions);
    if !IsItsLog(c) {
      run.Report(Finding(NotDecisionLog, ContentIntegrity));
      return;
    }
    var registryComplete := CompleteAt(c.registry.created, c.registry.anchored);
    var logComplete := CompleteAt(c.decisions.created, c.decisions.anchored);
    var log := ReadRegistryLog(Records(c.decisions));
    CheckPolicies(run, c, log);
    MatchEvents(run, c, log, registryComplete, logComplete);
    CheckCloseRules(run, c, log);
    CheckReceipts(run, c.decisions, log.last, logComplete, c.receipts);
  }
}
