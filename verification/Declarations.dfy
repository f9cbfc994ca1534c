/** verify/declarations.go: an absent payload is accepted only against a declaration that can be authenticated. */
module Declarations {
  import opened Bytes
  import opened JsonValue
  import opened Canonical
  import opened PhpValues
  import opened Preimages
  import opened AuditPath
  import opened Run
  import opened WalkRules

  // ---- what a declaration names

  predicate RunHolds(run: Value, sequence: int)
  {
    run.Array? && |run.items| == 2 && run.items[0].Int? && run.items[1].Int?
      && run.items[0].n <= sequence <= run.items[1].n
  }

  predicate TargetHolds(target: Value, stream: Bytes, sequence: int)
  {
    var runs := Field(Some(target), "runs");
    && target.Object? && Field(Some(target), "stream") == Some(String(stream)) && IsArray(runs)
    && exists j :: 0 <= j < |runs.value.items| && RunHolds(runs.value.items[j], sequence)
  }

  predicate Covers(payload: Option<Value>, stream: Bytes, sequence: int)
  {
    var targets := Field(payload, "targets");
    && IsObject(payload) && IsArray(targets)
    && exists i :: 0 <= i < |targets.value.items| && TargetHolds(targets.value.items[i], stream, sequence)
  }

  method RunsHold(runs: seq<Value>, sequence: int) returns (found: bool)
    ensures found <==> exists j :: 0 <= j < |runs| && RunHolds(runs[j], sequence)
  {
    for j := 0 to |runs|
      invariant forall k :: 0 <= k < j ==> !RunHolds(runs[k], sequence)
    {
      var run := runs[j];
      if !run.Array? || |run.items| != 2 || !run.items[0].Int? || !run.items[1].Int? {
        continue;
      }
      if sequence >= run.items[0].n && sequence <= run.items[1].n {
        return true;
      }
    }
    found := false;
  }

  method DeclarationCovers(payload: Option<Value>, stream: Bytes, sequence: int) returns (found: bool)
    ensures found <==> Covers(payload, stream, sequence)
  {
    hide Ascii, RunHolds;
    var targets := Field(payload, "targets");
    if !IsObject(payload) || !IsArray(targets) {
      return false;
    }
    var items := targets.value.items;
    for i := 0 to |items|
      invariant forall k :: 0 <= k < i ==> !TargetHolds(items[k], stream, sequence)
    {
      var runs := Field(Some(items[i]), "runs");
      if !items[i].Object? || Field(Some(items[i]), "stream") != Some(String(stream)) || !IsArray(runs) {
        continue;
      }
      var holds := RunsHold(runs.value.items, sequence);
      if holds {
        return true;
      }
    }
    found := false;
  }

  // ---- authentication

  function Redaction(check: Check): Finding { Finding(check, Redactions) }

  function SelfProblems(record: Option<Value>): seq<Finding>
  {
    var payload := Canon(OrNull(Field(record, "payload")));
    var entry := Canon(EntryPreimage(OrNull(Field(record, "stream")), OrNull(Field(record, "seq")), record));
    (if payload.None? || Lower(Text(Field(record, "payload_hash"))) != Sha256Hex(payload.value)
      then [Redaction(DeclarationChanged)] else []) +
    (if entry.None? || EntryText(record) != Sha256Hex(entry.value) then [Redaction(DeclarationChanged)] else [])
  }

  /** Both hashes recompute from the declaration's own fields. */
  ghost predicate SelfOk(record: Option<Value>)
  {
    var payload := Canon(OrNull(Field(record, "payload")));
    var entry := Canon(EntryPreimage(OrNull(Field(record, "stream")), OrNull(Field(record, "seq")), record));
    && payload.Some? && Lower(Text(Field(record, "payload_hash"))) == Sha256Hex(payload.value)
    && entry.Some? && EntryText(record) == Sha256Hex(entry.value)
  }

  lemma SelfOkExactly(record: Option<Value>)
    ensures SelfProblems(record) == [] <==> SelfOk(record)
  {
    hide Canon, EntryPreimage, EntryText, Text, Lower, Sha256Hex;
  }

  /** Declarations by entry hash, in the order first added, with removals. */
  datatype Authenticated = Authenticated(order: seq<Bytes>, records: map<Bytes, Value>)

  function Add(a: Authenticated, hash: Bytes, record: Value): Authenticated
  {
    Authenticated(if hash in a.records then a.order else a.order + [hash], a.records[hash := record])
  }

  class AuthenticatedSet {
    var order: seq<Bytes>
    var records: map<Bytes, Value>

    function State(): Authenticated
      reads this
    {
      Authenticated(order, records)
    }

    constructor ()
      ensures State() == Authenticated([], map[])
    {
      order, records := [], map[];
    }

    method Insert(hash: Bytes, record: Value)
      modifies this
      ensures State() == Add(old(State()), hash, record)
    {
      if hash !in records {
        order := order + [hash];
      }
      records := records[hash := record];
    }

    method Remove(hash: Bytes)
      modifies this`records
      ensures records == old(records) - {hash}
    {
      records := records - {hash};
    }

    function Get(hash: Bytes): Option<Value>
      reads this
    {
      if hash in records then Some(records[hash]) else None
    }
  }

  function RecordProblems(line: Bytes): seq<Finding>
  {
    if Decode(line).None? then [Redaction(BadDeclaration)] else SelfProblems(Decode(line))
  }

  function RecordsProblems(lines: seq<Bytes>, n: nat): seq<Finding>
    requires n <= |lines|
  {
    if n == 0 then [] else RecordsProblems(lines, n - 1) + RecordProblems(lines[n - 1])
  }

  /** The declarations whose own hashes recompute. */
  function Loaded(lines: seq<Bytes>, n: nat): Authenticated
    requires n <= |lines|
  {
    if n == 0 then Authenticated([], map[])
    else
      var before, record := Loaded(lines, n - 1), Decode(lines[n - 1]);
      if record.Some? && RecordProblems(lines[n - 1]) == [] then Add(before, EntryText(record), record.value)
        else before
  }

  method Load(run: Run, lines: seq<Bytes>) returns (set_: AuthenticatedSet)
    requires run.Valid()
    modifies run
    ensures run.Valid() && run.unconfirmed == old(run.unconfirmed)
    ensures run.failures == old(run.failures) + RecordsProblems(lines, |lines|)
    ensures fresh(set_) && set_.State() == Loaded(lines, |lines|)
  {
    hide Decode, SelfProblems, EntryText, Run.Valid;
    set_ := new AuthenticatedSet();
    for i := 0 to |lines|
      invariant run.Valid() && run.unconfirmed == old(run.unconfirmed)
      invariant run.failures == old(run.failures) + RecordsProblems(lines, i)
      invariant set_.State() == Loaded(lines, i)
    {
      var record := Decode(lines[i]);
      if record.None? {
        run.Report(Redaction(BadDeclaration));
        continue;
      }
      var problems := SelfProblems(record);
      run.ReportAll(problems);
      if |problems| == 0 {
        set_.Insert(EntryText(record), record.value);
      }
    }
  }

  // ---- sealing

  /** None where a step is malformed. */
  function StepOf(step: Value): Option<Step>
  {
    var hash, side := Field(Some(step), "hash"), Field(Some(step), "side");
    if !step.Object? || hash.None? || !hash.value.String? || HexBytes(hash.value.s).None?
      || !(StrEq(side, "left") || StrEq(side, "right"))
    then None
    else Some(Step(HexBytes(hash.value.s).value, StrEq(side, "left")))
  }

  function StepsOf(path: seq<Value>, n: nat): Option<seq<Step>>
    requires n <= |path|
  {
    if n == 0 then Some([])
    else if StepsOf(path, n - 1).None? || StepOf(path[n - 1]).None? then None
    else Some(StepsOf(path, n - 1).value + [StepOf(path[n - 1]).value])
  }

  method ReadSteps(path: seq<Value>) returns (steps: Option<seq<Step>>)
    ensures steps == StepsOf(path, |path|)
  {
    hide StepOf;
    var read: seq<Step> := [];
    for i := 0 to |path|
      invariant StepsOf(path, i) == Some(read)
    {
      var step := StepOf(path[i]);
      if step.None? {
        NoSteps(path, i + 1, |path|);
        return None;
      }
      read := read + [step.value];
    }
    steps := Some(read);
  }

  lemma {:induction false} NoSteps(path: seq<Value>, m: nat, n: nat)
    requires m <= n <= |path| && StepsOf(path, m).None?
    ensures StepsOf(path, n).None?
  {
    hide StepOf;
    if m < n {
      NoSteps(path, m, n - 1);
    }
  }

  /** The checkpoint's own v, or 1 where it has none. */
  function ProofPreimage(cp: Option<Value>): Value
  {
    CheckpointPreimage(
      if Nullish(Field(cp, "v")) then Int(1) else OrNull(Field(cp, "v")), OrNull(Field(cp, "stream")),
      OrNull(Field(cp, "from")), OrNull(Field(cp, "to")), OrNull(Field(cp, "root")),
      OrNull(Field(cp, "prev_checkpoint")), OrNull(Field(cp, "created_at")))
  }

  /** Everything is the checkpoint's own. */
  lemma ProofFields(cp: Option<Value>)
    ensures var p := ProofPreimage(cp);
            && HasField(p, "v", if Nullish(Field(cp, "v")) then Int(1) else Field(cp, "v").value)
            && HasField(p, "stream", OrNull(Field(cp, "stream"))) && HasField(p, "from", OrNull(Field(cp, "from")))
            && HasField(p, "to", OrNull(Field(cp, "to"))) && HasField(p, "root", OrNull(Field(cp, "root")))
            && HasField(p, "prev_checkpoint", OrNull(Field(cp, "prev_checkpoint")))
            && HasField(p, "created_at", OrNull(Field(cp, "created_at")))
  {
    hide CheckpointPreimage, HasField, Field;
    CheckpointPreimageFields(
      if Nullish(Field(cp, "v")) then Int(1) else OrNull(Field(cp, "v")), OrNull(Field(cp, "stream")),
      OrNull(Field(cp, "from")), OrNull(Field(cp, "to")), OrNull(Field(cp, "root")),
      OrNull(Field(cp, "prev_checkpoint")), OrNull(Field(cp, "created_at")));
  }

  /** The checkpoint's hash recomputes and its key signed it; a trusted key, inside its window. */
  predicate CheckpointSeals(cp: Option<Value>, seal: Seal)
  {
    var canon := Canon(ProofPreimage(cp));
    && canon.Some? && Lower(Text(Field(cp, "checkpoint_hash"))) == Sha256Hex(canon.value)
    && seal.signatureValid && (seal.trusted ==> seal.windowProblems == 0)
  }

  /** An audit path rebuilds the root of a checkpoint that seals it. */
  predicate ProvenSealed(proof: Option<Value>, entryHash: Bytes, seal: Value -> Seal)
  {
    var cp, path, leaf := Field(proof, "checkpoint"), Field(proof, "path"), HexBytes(entryHash);
    && IsObject(cp) && IsArray(path) && leaf.Some? && StepsOf(path.value.items, |path.value.items|).Some?
    && Lower(Text(Field(cp, "root"))) ==
      HexEncode(Climb(leaf.value, StepsOf(path.value.items, |path.value.items|).value))
    && CheckpointSeals(cp, seal(cp.value))
  }

  method ProofHolds(proof: Option<Value>, entryHash: Bytes, seal: Value -> Seal) returns (ok: bool)
    ensures ok <==> ProvenSealed(proof, entryHash, seal)
  {
    hide Field, CheckpointSeals, Climb, HexBytes, HexEncode, Lower, Text, StepsOf;
    if proof.None? {
      NoField("checkpoint");
      return false;
    }
    var cp := Field(proof, "checkpoint");
    if !IsObject(cp) {
      return false;
    }
    var path := Field(proof, "path");
    if !IsArray(path) {
      return false;
    }
    var leaf := HexBytes(entryHash);
    if leaf.None? {
      return false;
    }
    var steps := ReadSteps(path.value.items);
    if steps.None? {
      return false;
    }
    var computed := Audit(leaf.value, steps.value);
    if Lower(Text(Field(cp, "root"))) != HexEncode(computed) {
      return false;
    }
    ok := CheckpointSeals(cp, seal(cp.value));
  }

  lemma NoField(name: string)
    ensures Field(None, name).None?
  {
  }

  /** The bundle's stream and range, the entry hashes its walk kept, and what declaration_proofs.json proves. */
  datatype Context = Context(
    stream: Bytes, from: int, to: int, walked: map<int, Bytes>, proofs: map<Bytes, Value>, seal: Value -> Seal)

  predicate InRange(c: Context, record: Value)
  {
    var s := Field(Some(record), "seq");
    Field(Some(record), "stream") == Some(String(c.stream)) && IsInt(s) && c.from <= s.value.n <= c.to
  }

  function ProofOf(c: Context, hash: Bytes): Option<Value>
  {
    if hash in c.proofs then Some(c.proofs[hash]) else None
  }

  /** In range the walk must have met this very entry hash; outside it an audit path must prove it sealed. */
  predicate IsSealed(c: Context, hash: Bytes, record: Value)
  {
    if InRange(c, record) then
      var s := Field(Some(record), "seq").value.n;
      s in c.walked && c.walked[s] == hash
    else ProvenSealed(ProofOf(c, hash), hash, c.seal)
  }

  function SealFindings(c: Context, hash: Bytes, record: Value): seq<Finding>
  {
    if IsSealed(c, hash, record) then []
    else [Redaction(if InRange(c, record) then NotTheWalkedEntry else NotSealed)]
  }

  function AllSealFindings(c: Context, a: Authenticated, n: nat): seq<Finding>
    requires n <= |a.order|
  {
    if n == 0 then []
    else
      AllSealFindings(c, a, n - 1) +
      if a.order[n - 1] in a.records then SealFindings(c, a.order[n - 1], a.records[a.order[n - 1]]) else []
  }

  function Surviving(c: Context, a: Authenticated): map<Bytes, Value>
  {
    map hash | hash in a.records && IsSealed(c, hash, a.records[hash]) :: a.records[hash]
  }

  /** The order lists each hash once. */
  ghost predicate Listed(a: Authenticated)
  {
    && (forall i, j :: 0 <= i < j < |a.order| ==> a.order[i] != a.order[j])
    && (forall i :: 0 <= i < |a.order| ==> a.order[i] in a.records)
    && (forall hash :: hash in a.records ==> hash in a.order)
  }

  lemma {:induction false} LoadedListed(lines: seq<Bytes>, n: nat)
    requires n <= |lines|
    ensures Listed(Loaded(lines, n))
  {
    hide Decode, RecordProblems, EntryText, Listed, Add;
    if n == 0 {
      NoneListed();
    } else {
      LoadedListed(lines, n - 1);
      var record := Decode(lines[n - 1]);
      if record.Some? {
        AddListed(Loaded(lines, n - 1), EntryText(record), record.value);
      }
    }
  }

  lemma NoneListed()
    ensures Listed(Authenticated([], map[]))
  {
  }

  lemma AddListed(a: Authenticated, hash: Bytes, record: Value)
    requires Listed(a)
    ensures Listed(Add(a, hash, record))
  {
    assert a.order + [hash] == a.order + [hash];
    assert hash in a.order + [hash];
  }

  method CheckSeal(run: Run, c: Context, hash: Bytes, record: Value) returns (ok: bool)
    requires run.Valid()
    modifies run
    ensures run.Valid() && run.unconfirmed == old(run.unconfirmed)
    ensures run.failures == old(run.failures) + SealFindings(c, hash, record) && (ok <==> IsSealed(c, hash, record))
  {
    hide Field, ProvenSealed, Run.Valid;
    if InRange(c, record) {
      var s := Field(Some(record), "seq").value.n;
      ok := s in c.walked && c.walked[s] == hash;
    } else {
      ok := ProofHolds(ProofOf(c, hash), hash, c.seal);
    }
    if !ok {
      run.Report(Redaction(if InRange(c, record) then NotTheWalkedEntry else NotSealed));
    }
  }

  method CheckSeals(run: Run, c: Context, set_: AuthenticatedSet)
    requires run.Valid() && Listed(set_.State())
    modifies run, set_
    ensures run.Valid() && run.unconfirmed == old(run.unconfirmed)
    ensures run.failures == old(run.failures) + AllSealFindings(c, old(set_.State()), |old(set_.order)|)
    ensures set_.order == old(set_.order) && set_.records == Surviving(c, old(set_.State()))
  {
    hide IsSealed, SealFindings, Run.Valid, SealedUpTo, Surviving, Listed;
    ghost var before := set_.State();
    SealedEnds(c, before);
    var order := set_.order;
    for i := 0 to |order|
      invariant run.Valid() && run.unconfirmed == old(run.unconfirmed)
      invariant run.failures == old(run.failures) + AllSealFindings(c, before, i)
      invariant set_.order == order && set_.records == SealedUpTo(c, before, i)
    {
      SealedStep(c, before, i);
      var record := set_.Get(order[i]);
      var ok := CheckSeal(run, c, order[i], record.value);
      if !ok {
        set_.Remove(order[i]);
      }
    }
  }

  /** What is left once the first n in order have been checked. */
  ghost function SealedUpTo(c: Context, a: Authenticated, n: nat): map<Bytes, Value>
    requires n <= |a.order|
  {
    map hash | hash in a.records && (hash in a.order[..n] ==> IsSealed(c, hash, a.records[hash])) :: a.records[hash]
  }

  lemma SealedStep(c: Context, a: Authenticated, n: nat)
    requires Listed(a) && n < |a.order|
    ensures var hash := a.order[n];
            && hash in a.records && hash in SealedUpTo(c, a, n) && SealedUpTo(c, a, n)[hash] == a.records[hash]
            && SealedUpTo(c, a, n + 1) == if IsSealed(c, hash, a.records[hash]) then SealedUpTo(c, a, n)
              else SealedUpTo(c, a, n) - {hash}
  {
    hide IsSealed;
    var hash := a.order[n];
    assert a.order[..n + 1] == a.order[..n] + [hash];
    assert hash !in a.order[..n];
  }

  lemma SealedEnds(c: Context, a: Authenticated)
    requires Listed(a)
    ensures SealedUpTo(c, a, 0) == a.records && SealedUpTo(c, a, |a.order|) == Surviving(c, a)
  {
    hide IsSealed;
    assert a.order[..|a.order|] == a.order;
  }

  // ---- the rule itself

  datatype Ruling = Skipped | SupplementOnly | TooEarly | Found

  /** A supplement acts as the authenticated original it supplements. */
  function ActionOf(records: map<Bytes, Value>, record: Value): Option<Option<Value>>
  {
    var own := Field(Some(record), "action");
    if !StrEq(own, "declaration.supplemented") then Some(own)
    else
      var named := Field(Field(Field(Some(record), "payload"), "declaration"), "entry_hash");
      if IsString(named) && Lower(named.value.s) in records
      then Some(Field(Some(records[Lower(named.value.s)]), "action"))
      else None
  }

  /** The declaration is of the stream and no later than the event it would have destroyed. */
  predicate Precedes(record: Value, stream: Bytes, sequence: int)
  {
    var s := Field(Some(record), "seq");
    Field(Some(record), "stream") == Some(String(stream)) && IsInt(s) && s.value.n <= sequence
  }

  function Rule(records: map<Bytes, Value>, record: Value, stream: Bytes, sequence: int, wanted: string): Ruling
  {
    var action := ActionOf(records, record);
    if !Covers(Field(Some(record), "payload"), stream, sequence) then Skipped
    else if action.None? then SupplementOnly
    else if !StrEq(action.value, wanted) then Skipped
    else if Precedes(record, stream, sequence) then TooEarly
    else Found
  }

  function RulingFindings(r: Ruling): seq<Finding>
  {
    match r
    case SupplementOnly => [Redaction(SupplementAlone)]
    case TooEarly => [Redaction(DeclaredTooEarly)]
    case _ => []
  }

  /** The declarations from i on are tried in order until one is found. */
  function Visit(order: seq<Bytes>, records: map<Bytes, Value>, i: nat, stream: Bytes, sequence: int,
                 wanted: string): seq<Finding>
    requires i <= |order|
    decreases |order| - i
  {
    if i == |order| then [Redaction(NotDeclared)]
    else if order[i] !in records then Visit(order, records, i + 1, stream, sequence, wanted)
    else
      var r := Rule(records, records[order[i]], stream, sequence, wanted);
      if r == Found then [] else RulingFindings(r) + Visit(order, records, i + 1, stream, sequence, wanted)
  }

  function Wanted(erased: bool): string
  {
    if erased then "pii.subject_erased" else "payload.redacted"
  }

  function AbsentFindings(a: Authenticated, stream: Bytes, absent: seq<int>, erased: map<int, bool>,
                          n: nat): seq<Finding>
    requires n <= |absent|
  {
    if n == 0 then []
    else
      AbsentFindings(a, stream, absent, erased, n - 1) +
      Visit(a.order, a.records, 0, stream, absent[n - 1], Wanted(absent[n - 1] in erased && erased[absent[n - 1]]))
  }

  method CheckAbsent(run: Run, a: Authenticated, stream: Bytes, sequence: int, wanted: string)
    requires run.Valid()
    modifies run
    ensures run.Valid() && run.unconfirmed == old(run.unconfirmed)
    ensures run.failures == old(run.failures) + Visit(a.order, a.records, 0, stream, sequence, wanted)
  {
    hide Rule, Run.Valid;
    for i := 0 to |a.order|
      invariant run.Valid() && run.unconfirmed == old(run.unconfirmed)
      invariant run.failures + Visit(a.order, a.records, i, stream, sequence, wanted) ==
                old(run.failures) + Visit(a.order, a.records, 0, stream, sequence, wanted)
    {
      if a.order[i] !in a.records {
        continue;
      }
      var r := Rule(a.records, a.records[a.order[i]], stream, sequence, wanted);
      if r == Found {
        return;
      }
      run.ReportAll(RulingFindings(r));
    }
    run.Report(Redaction(NotDeclared));
  }

  /** absent is not empty; file is None where declarations.ndjson is missing, and known says the format carries it. */
  function Findings(known: bool, file: Option<seq<Bytes>>, c: Context, absent: seq<int>,
                    erased: map<int, bool>): seq<Finding>
  {
    if !known then [Redaction(FormatTooOld)]
    else if file.None? then [Redaction(NoDeclarations)]
    else
      var loaded := Loaded(file.value, |file.value|);
      var left := Authenticated(loaded.order, Surviving(c, loaded));
      RecordsProblems(file.value, |file.value|) + AllSealFindings(c, loaded, |loaded.order|) +
      AbsentFindings(left, c.stream, absent, erased, |absent|)
  }

  method CheckDeclarations(run: Run, known: bool, file: Option<seq<Bytes>>, c: Context, absent: seq<int>,
                           erased: map<int, bool>)
    requires run.Valid()
    modifies run
    ensures run.Valid() && run.unconfirmed == old(run.unconfirmed)
    ensures run.failures == old(run.failures) + Findings(known, file, c, absent, erased)
  {
    hide Run.Valid, Loaded, Surviving, RecordsProblems, AllSealFindings, Visit, Wanted;
    if !known {
      run.Report(Redaction(FormatTooOld));
      return;
    }
    if file.None? {
      run.Report(Redaction(NoDeclarations));
      return;
    }
    LoadedListed(file.value, |file.value|);
    var set_ := Load(run, file.value);
    CheckSeals(run, c, set_);
    ghost var before := run.failures;
    var left := set_.State();
    for i := 0 to |absent|
      invariant run.Valid() && run.unconfirmed == old(run.unconfirmed)
      invariant run.failures == before + AbsentFindings(left, c.stream, absent, erased, i)
    {
      CheckAbsent(run, left, c.stream, absent[i], Wanted(absent[i] in erased && erased[absent[i]]));
    }
  }
}
