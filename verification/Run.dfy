/** verify/run.go and verify/report.go: the failures and unconfirmed items one invocation accumulates. */
module Run {
  datatype Area = ContentIntegrity | SigningIdentity | Timestamps | Scope | Redactions

  datatype State = Pass | NotChecked | Unconfirmed | Fail

  /** Which check spoke; messages are not modelled. */
  datatype Check =
    | BadLine | NoSequence | OutOfSequence
    | UnknownPayloadState | RedactedYetPresent | UndeclaredAbsence | DeclaredYetPresent
    | PayloadNotCanonical | PayloadChanged
    | ChainBroken | EntryNotCanonical | EntryChanged | TrailingMissing
    | NoRange | CheckpointOutOfOrder | CheckpointNotCanonical | CheckpointChanged | CheckpointUnchained
    | KeyNotInManifest | KeyNotTrusted | OutsideWindow | SignatureInvalid | EventsMissing | RootChanged | NotCovered
    | StateInvalid | StateChanged | ProofInvalid | RootInvalid | SizeInvalid
    | OtherStreams | NotFromStart | OldIsLonger | RootsNotCaptured | Diverged | ProofDoesNotVerify
    | FormatTooOld | NoDeclarations | BadDeclaration | DeclarationChanged | NotTheWalkedEntry | NotSealed
    | SupplementAlone | DeclaredTooEarly | NotDeclared
    | BadCollection | ReceiptChain | GapRule | SettlementRule | ConnectionRule
    | NotDecisionLog | LogNotDense | NotTimeOrdered | FirstNotPolicy | PolicyHash | PolicyAmendment | DecisionPolicy
    | AcceptedUnmatched | ParentUnmatched | DoubleAcceptance | WindowClose | CredentialNotValid | ReceiptNotLogged

  datatype Finding = Finding(check: Check, area: Area)

  function Times(n: nat, f: Finding): seq<Finding>
  {
    seq(n, _ => f)
  }

  function Rank(s: State): nat
  {
    match s
    case Pass => 0
    case NotChecked => 1
    case Unconfirmed => 2
    case Fail => 3
  }

  function Worst(a: State, b: State): State
  {
    if Rank(b) > Rank(a) then b else a
  }

  ghost predicate Touches(findings: seq<Finding>, area: Area)
  {
    exists i :: 0 <= i < |findings| && findings[i].area == area
  }

  /** Read off the findings alone, in whatever order they came. */
  ghost function StateOf(failures: seq<Finding>, unconfirmed: seq<Finding>, area: Area): State
  {
    if Touches(failures, area) then Fail else if Touches(unconfirmed, area) then Unconfirmed else Pass
  }

  lemma TouchesPush(findings: seq<Finding>, f: Finding, area: Area)
    ensures Touches(findings + [f], area) <==> Touches(findings, area) || f.area == area
  {
    var more := findings + [f];
    assert more[|findings|] == f;
    if i :| 0 <= i < |findings| && findings[i].area == area {
      assert more[i].area == area;
    }
  }

  /** The order the results are reported in. */
  const AREAS: seq<Area> := [ContentIntegrity, SigningIdentity, Timestamps, Scope, Redactions]

  lemma AllAreas(area: Area)
    ensures exists i :: 0 <= i < |AREAS| && AREAS[i] == area
    ensures area == ContentIntegrity || area == SigningIdentity || area == Timestamps || area == Scope
              || area == Redactions
  {
    var i :=
      match area
      case ContentIntegrity => 0
      case SigningIdentity => 1
      case Timestamps => 2
      case Scope => 3
      case Redactions => 4;
    assert AREAS[i] == area;
  }

  const EXIT_PASS := 0
  const EXIT_FAIL := 1
  const EXIT_UNCONFIRMED := 3

  class Run {
    var failures: seq<Finding>
    var unconfirmed: seq<Finding>
    var states: map<Area, State>

    /** Nothing raises a result, so the states are a function of the findings. */
    ghost predicate Valid()
      reads this
    {
      forall area :: area in states && states[area] == StateOf(failures, unconfirmed, area)
    }

    constructor ()
      ensures Valid() && failures == [] && unconfirmed == []
    {
      failures, unconfirmed := [], [];
      states := map[ContentIntegrity := Pass, SigningIdentity := Pass, Timestamps := Pass, Scope := Pass,
        Redactions := Pass];
      new;
      forall area: Area
        ensures area in states
      {
        AllAreas(area);
      }
    }

    method Demote(area: Area, state: State)
      requires area in states
      modifies `states
      ensures states == old(states)[area := Worst(old(states)[area], state)]
    {
      if Rank(state) > Rank(states[area]) {
        states := states[area := state];
      }
    }

    method Report(f: Finding)
      requires Valid()
      modifies this
      ensures Valid() && failures == old(failures) + [f] && unconfirmed == old(unconfirmed)
    {
      forall area { TouchesPush(failures, f, area); }
      failures := failures + [f];
      Demote(f.area, Fail);
    }

    method ReportAll(fs: seq<Finding>)
      requires Valid()
      modifies this
      ensures Valid() && failures == old(failures) + fs && unconfirmed == old(unconfirmed)
    {
      var i := 0;
      while i < |fs|
        invariant 0 <= i <= |fs| && Valid() && failures == old(failures) + fs[..i] && unconfirmed == old(unconfirmed)
      {
        Report(fs[i]);
        i := i + 1;
      }
      assert fs[..i] == fs;
    }

    method ReportTimes(n: nat, f: Finding)
      requires Valid()
      modifies this
      ensures Valid() && failures == old(failures) + Times(n, f) && unconfirmed == old(unconfirmed)
    {
      hide Valid;
      for i := 0 to n
        invariant Valid() && failures == old(failures) + Times(i, f) && unconfirmed == old(unconfirmed)
      {
        Report(f);
      }
    }

    method MarkUnconfirmed(f: Finding)
      requires Valid()
      modifies this
      ensures Valid() && unconfirmed == old(unconfirmed) + [f] && failures == old(failures)
    {
      forall area { TouchesPush(unconfirmed, f, area); }
      unconfirmed := unconfirmed + [f];
      Demote(f.area, Unconfirmed);
    }

    method MarkAll(fs: seq<Finding>)
      requires Valid()
      modifies this
      ensures Valid() && unconfirmed == old(unconfirmed) + fs && failures == old(failures)
    {
      var i := 0;
      while i < |fs|
        invariant 0 <= i <= |fs| && Valid() && unconfirmed == old(unconfirmed) + fs[..i] && failures == old(failures)
      {
        MarkUnconfirmed(fs[i]);
        i := i + 1;
      }
      assert fs[..i] == fs;
    }

    /** The verdict: PASS exactly when nothing failed and nothing is unconfirmed. */
    method ExitCode() returns (code: int)
      requires Valid()
      ensures code == EXIT_PASS <==> failures == [] && unconfirmed == []
      ensures code == EXIT_FAIL <==> failures != []
      ensures code == EXIT_PASS || code == EXIT_FAIL || code == EXIT_UNCONFIRMED
    {
      var areas := AREAS;
      if failures != [] {
        assert Touches(failures, failures[0].area);
        AllAreas(failures[0].area);
      }
      if unconfirmed != [] {
        assert Touches(unconfirmed, unconfirmed[0].area);
        AllAreas(unconfirmed[0].area);
      }
      for i := 0 to |areas|
        invariant forall j :: 0 <= j < i ==> states[areas[j]] != Fail
      {
        if states[areas[i]] == Fail {
          return EXIT_FAIL;
        }
      }
      assert failures == [];
      for i := 0 to |areas|
        invariant forall j :: 0 <= j < i ==> states[areas[j]] != Unconfirmed
      {
        if states[areas[i]] == Unconfirmed {
          return EXIT_UNCONFIRMED;
        }
      }
      assert unconfirmed == [];
      code := EXIT_PASS;
    }
  }
}
