/** verify/declarations.go: when the redaction rule is silent, every absent payload was declared destroyed. */
module DeclaredAbsences {
  import opened Bytes
  import opened JsonValue
  import opened Canonical
  import opened PhpValues
  import opened Preimages
  import opened MerkleTree
  import opened AuditPath
  import opened WalkRules
  import opened TamperEvidence
  import opened Walk
  import opened PassedWalk
  import opened Declarations

  // ---- which declarations stand

  /** The line is this declaration, and its two hashes recompute. */
  ghost predicate Authentic(line: Bytes, hash: Bytes, record: Value)
  {
    Decode(line) == Some(record) && SelfOk(Some(record)) && EntryText(Some(record)) == hash
  }

  ghost predicate Carries(line: Bytes, hash: Bytes)
  {
    exists record :: Authentic(line, hash, record)
  }

  /** The last authentic declaration of this entry hash among the first n lines. */
  ghost predicate Latest(lines: seq<Bytes>, n: nat, hash: Bytes, record: Value)
    requires n <= |lines|
  {
    exists i :: 0 <= i < n && LatestAt(lines, n, hash, record, i)
  }

  ghost predicate LatestAt(lines: seq<Bytes>, n: nat, hash: Bytes, record: Value, i: nat)
    requires i < n <= |lines|
  {
    Authentic(lines[i], hash, record) && forall j :: i < j < n ==> !Carries(lines[j], hash)
  }

  /** Both hashes are declared, and the first before the second. */
  ghost predicate DeclaredBefore(lines: seq<Bytes>, hash': Bytes, hash: Bytes)
  {
    exists i :: 0 <= i < |lines| && Carries(lines[i], hash') && forall j :: 0 <= j <= i ==> !Carries(lines[j], hash)
  }

  lemma RecordIs(line: Bytes, hash: Bytes, record: Value)
    ensures Authentic(line, hash, record) <==>
            && Decode(line).Some? && RecordProblems(line) == [] && EntryText(Decode(line)) == hash
            && record == Decode(line).value
  {
    hide Decode, SelfProblems, EntryText, SelfOk;
    if Decode(line).Some? {
      SelfOkExactly(Decode(line));
    }
  }

  lemma LatestPush(lines: seq<Bytes>, n: nat, hash: Bytes, record: Value)
    requires n < |lines|
    ensures Latest(lines, n + 1, hash, record) <==>
            Authentic(lines[n], hash, record) || (!Carries(lines[n], hash) && Latest(lines, n, hash, record))
  {
    hide Authentic, Carries;
    var m := n + 1;
    if i :| 0 <= i < m && LatestAt(lines, m, hash, record, i) {
      if i < n {
        assert !Carries(lines[n], hash);
        assert LatestAt(lines, n, hash, record, i);
      }
    }
    if Authentic(lines[n], hash, record) {
      assert LatestAt(lines, m, hash, record, n);
    } else if i :| !Carries(lines[n], hash) && 0 <= i < n && LatestAt(lines, n, hash, record, i) {
      assert LatestAt(lines, m, hash, record, i);
    }
  }

  /** The set loaded holds the last authentic declaration of each entry hash. */
  lemma {:induction false} LoadedExactly(lines: seq<Bytes>, n: nat, hash: Bytes, record: Value)
    requires n <= |lines|
    ensures hash in Loaded(lines, n).records && Loaded(lines, n).records[hash] == record <==>
            Latest(lines, n, hash, record)
  {
    hide Decode, RecordProblems, EntryText, Authentic, Latest;
    if n == 0 {
      NoneLatest(lines, hash, record);
    } else {
      LoadedExactly(lines, n - 1, hash, record);
      LatestPush(lines, n - 1, hash, record);
      RecordIs(lines[n - 1], hash, record);
      CarriesIs(lines[n - 1], hash);
    }
  }

  lemma NoneLatest(lines: seq<Bytes>, hash: Bytes, record: Value)
    ensures !Latest(lines, 0, hash, record)
  {
  }

  lemma CarriesIs(line: Bytes, hash: Bytes)
    ensures Carries(line, hash) <==>
            Decode(line).Some? && RecordProblems(line) == [] && EntryText(Decode(line)) == hash
  {
    hide Authentic, RecordProblems, EntryText, Decode;
    if Decode(line).Some? {
      RecordIs(line, hash, Decode(line).value);
    }
    if record :| Authentic(line, hash, record) {
      RecordIs(line, hash, record);
    }
  }

  ghost predicate CarriedIn(lines: seq<Bytes>, n: nat, hash: Bytes)
    requires n <= |lines|
  {
    exists i :: 0 <= i < n && Carries(lines[i], hash)
  }

  /** The hashes are listed as first declared. */
  ghost predicate FirstFirst(lines: seq<Bytes>, n: nat, order: seq<Bytes>)
    requires n <= |lines|
  {
    && (forall hash :: hash in order <==> CarriedIn(lines, n, hash))
    && (forall k, j :: 0 <= k < j < |order| ==> DeclaredBefore(lines[..n], order[k], order[j]))
  }

  lemma {:induction false} LoadedOrder(lines: seq<Bytes>, n: nat)
    requires n <= |lines|
    ensures FirstFirst(lines, n, Loaded(lines, n).order)
  {
    hide *;
    if n == 0 {
      NoneFirst(lines);
    } else {
      LoadedOrder(lines, n - 1);
      LoadedListed(lines, n - 1);
      OrderStep(lines, n - 1);
    }
  }

  lemma NoneFirst(lines: seq<Bytes>)
    ensures FirstFirst(lines, 0, Loaded(lines, 0).order)
  {
  }

  lemma AddedOrder(lines: seq<Bytes>, n: nat)
    requires n < |lines| && Listed(Loaded(lines, n))
    ensures var before, after := Loaded(lines, n).order, Loaded(lines, n + 1).order;
            && (after == before || (|after| == |before| + 1 && after == before + [after[|before|]]
                                    && after[|before|] !in before))
            && forall hash :: hash in after <==> hash in before || Carries(lines[n], hash)
  {
    hide Decode, RecordProblems, EntryText, Carries;
    forall hash
      ensures Carries(lines[n], hash) <==>
              Decode(lines[n]).Some? && RecordProblems(lines[n]) == [] && EntryText(Decode(lines[n])) == hash
    {
      CarriesIs(lines[n], hash);
    }
  }

  lemma CarriedPush(lines: seq<Bytes>, n: nat, hash: Bytes)
    requires n < |lines|
    ensures CarriedIn(lines, n + 1, hash) <==> CarriedIn(lines, n, hash) || Carries(lines[n], hash)
  {
    hide Carries;
  }

  lemma OrderStep(lines: seq<Bytes>, n: nat)
    requires n < |lines| && Listed(Loaded(lines, n)) && FirstFirst(lines, n, Loaded(lines, n).order)
    ensures FirstFirst(lines, n + 1, Loaded(lines, n + 1).order)
  {
    hide Loaded, Listed, Carries, DeclaredBefore, CarriedIn;
    var before, after := Loaded(lines, n).order, Loaded(lines, n + 1).order;
    AddedOrder(lines, n);
    forall hash
      ensures hash in after <==> CarriedIn(lines, n + 1, hash)
    {
      CarriedPush(lines, n, hash);
    }
    forall k, j | 0 <= k < j < |after|
      ensures DeclaredBefore(lines[..n + 1], after[k], after[j])
    {
      assert after[k] == before[k] && before[k] in before;
      if j < |before| {
        BeforeGrows(lines, n, before[k], before[j]);
      } else {
        BeforeNew(lines, n, after[k], after[j]);
      }
    }
  }

  lemma BeforeGrows(lines: seq<Bytes>, n: nat, hash': Bytes, hash: Bytes)
    requires n < |lines| && DeclaredBefore(lines[..n], hash', hash)
    ensures DeclaredBefore(lines[..n + 1], hash', hash)
  {
    hide Carries;
    var some, more := lines[..n], lines[..n + 1];
    var i :| 0 <= i < |some| && Carries(some[i], hash') && forall j :: 0 <= j <= i ==> !Carries(some[j], hash);
    assert Carries(more[i], hash');
    assert forall j :: 0 <= j <= i ==> more[j] == some[j];
  }

  lemma BeforeNew(lines: seq<Bytes>, n: nat, hash': Bytes, hash: Bytes)
    requires n < |lines| && CarriedIn(lines, n, hash') && !CarriedIn(lines, n, hash)
    ensures DeclaredBefore(lines[..n + 1], hash', hash)
  {
    hide Carries;
    var i :| 0 <= i < n && Carries(lines[i], hash');
    var more := lines[..n + 1];
    assert Carries(more[i], hash');
    assert forall j :: 0 <= j <= i ==> more[j] == lines[j];
  }

  /** The declarations are tried until one is found; silence means one was, and none before it was at fault. */
  lemma {:induction false} VisitExactly(order: seq<Bytes>, records: map<Bytes, Value>, i: nat, stream: Bytes,
                                        sequence: int, wanted: string)
    requires i <= |order|
    ensures Visit(order, records, i, stream, sequence, wanted) == [] <==>
              exists j :: i <= j < |order| && FoundAt(order, records, i, j, stream, sequence, wanted)
    decreases |order| - i
  {
    hide Rule;
    if i < |order| {
      VisitExactly(order, records, i + 1, stream, sequence, wanted);
      if j :| i <= j < |order| && FoundAt(order, records, i, j, stream, sequence, wanted) {
        if j > i {
          assert FoundAt(order, records, i + 1, j, stream, sequence, wanted);
          assert Quiet(order, records, i, stream, sequence, wanted);
        }
      }
      if Visit(order, records, i, stream, sequence, wanted) == [] {
        FoundStep(order, records, i, i + 1, stream, sequence, wanted);
      }
    }
  }

  ghost predicate Quiet(order: seq<Bytes>, records: map<Bytes, Value>, m: nat, stream: Bytes, sequence: int,
                        wanted: string)
    requires m < |order|
  {
    order[m] in records ==> Rule(records, records[order[m]], stream, sequence, wanted) == Skipped
  }

  ghost predicate FoundAt(order: seq<Bytes>, records: map<Bytes, Value>, i: nat, j: nat, stream: Bytes, sequence: int,
                          wanted: string)
    requires i <= j < |order|
  {
    && order[j] in records && Rule(records, records[order[j]], stream, sequence, wanted) == Found
    && forall m :: i <= m < j ==> Quiet(order, records, m, stream, sequence, wanted)
  }

  lemma FoundStep(order: seq<Bytes>, records: map<Bytes, Value>, i: nat, next: nat, stream: Bytes, sequence: int,
                  wanted: string)
    requires i < |order| && next == i + 1 && Visit(order, records, i, stream, sequence, wanted) == []
    requires Visit(order, records, next, stream, sequence, wanted) == [] <==>
               exists j :: next <= j < |order| && FoundAt(order, records, next, j, stream, sequence, wanted)
    ensures exists j :: i <= j < |order| && FoundAt(order, records, i, j, stream, sequence, wanted)
  {
    hide Rule;
    if order[i] in records && Rule(records, records[order[i]], stream, sequence, wanted) == Found {
      assert FoundAt(order, records, i, i, stream, sequence, wanted);
    } else {
      var j :| next <= j < |order| && FoundAt(order, records, next, j, stream, sequence, wanted);
      assert Quiet(order, records, i, stream, sequence, wanted);
      assert FoundAt(order, records, i, j, stream, sequence, wanted);
    }
  }

  // ---- what naming and sealing mean

  /** Some target of the stream lists a run [from, to] around the sequence. */
  ghost predicate NamedBy(payload: Option<Value>, stream: Bytes, sequence: int, t: nat, r: nat, from: int, to: int)
  {
    var targets := Field(payload, "targets");
    && IsArray(targets) && t < |targets.value.items|
    && var target := Some(targets.value.items[t]);
       && Field(target, "stream") == Some(String(stream)) && IsArray(Field(target, "runs"))
       && r < |Field(target, "runs").value.items|
       && Field(target, "runs").value.items[r] == Array([Int(from), Int(to)]) && from <= sequence <= to
  }

  ghost predicate Names(payload: Option<Value>, stream: Bytes, sequence: int)
  {
    exists t: nat, r: nat, from: int, to: int :: NamedBy(payload, stream, sequence, t, r, from, to)
  }

  lemma CoversExactly(payload: Option<Value>, stream: Bytes, sequence: int)
    ensures Covers(payload, stream, sequence) <==> Names(payload, stream, sequence)
  {
    hide Ascii, Lookup;
    if Covers(payload, stream, sequence) {
      var items := Field(payload, "targets").value.items;
      var t :| 0 <= t < |items| && TargetHolds(items[t], stream, sequence);
      var runs := Field(Some(items[t]), "runs").value.items;
      var r :| 0 <= r < |runs| && RunHolds(runs[r], sequence);
      assert runs[r].items == [runs[r].items[0], runs[r].items[1]];
      assert NamedBy(payload, stream, sequence, t, r, runs[r].items[0].n, runs[r].items[1].n);
    }
    if t: nat, r: nat, from: int, to: int :| NamedBy(payload, stream, sequence, t, r, from, to) {
      var items := Field(payload, "targets").value.items;
      assert RunHolds(Field(Some(items[t]), "runs").value.items[r], sequence);
      assert TargetHolds(items[t], stream, sequence);
    }
  }

  /** A sibling's hash in hexadecimal, and the word left or right. */
  ghost predicate StepSpelled(step: Value, s: Step)
  {
    && IsString(Field(Some(step), "hash")) && HexBytes(Field(Some(step), "hash").value.s) == Some(s.sibling)
    && StrEq(Field(Some(step), "side"), if s.left then "left" else "right")
  }

  ghost predicate PathSpelled(path: seq<Value>, steps: seq<Step>)
  {
    |path| == |steps| && forall i :: 0 <= i < |path| ==> StepSpelled(path[i], steps[i])
  }

  lemma LeftIsNotRight()
    ensures Ascii("left") != Ascii("right")
  {
    assert |Ascii("left")| == 4 && |Ascii("right")| == 5;
  }

  lemma StepExactly(step: Value, s: Step)
    ensures StepOf(step) == Some(s) <==> StepSpelled(step, s)
  {
    LeftIsNotRight();
    hide Ascii, HexBytes, Lookup;
  }

  lemma {:induction false} StepsExactly(path: seq<Value>, n: nat, steps: seq<Step>)
    requires n <= |path|
    ensures StepsOf(path, n) == Some(steps) <==> PathSpelled(path[..n], steps)
  {
    hide StepOf, StepSpelled;
    if n > 0 {
      var k := n - 1;
      if steps != [] {
        assert steps == steps[..|steps| - 1] + [steps[|steps| - 1]];
        StepsExactly(path, k, steps[..|steps| - 1]);
        StepExactly(path[k], steps[|steps| - 1]);
        assert path[..n][..k] == path[..k];
      }
      if StepsOf(path, k).Some? && StepOf(path[k]).Some? {
        StepsExactly(path, k, StepsOf(path, k).value);
      }
    }
  }

  /** The checkpoint's hash recomputes; its signature is valid; and a trusted key was in its window. */
  ghost predicate SealsIt(cp: Value, seal: Seal)
  {
    var text := Canon(ProofPreimage(Some(cp)));
    && text.Some? && Lower(Text(Field(Some(cp), "checkpoint_hash"))) == Sha256Hex(text.value)
    && seal.signatureValid && !(seal.trusted && seal.windowProblems > 0)
  }

  /** The path folds the declaration's own hash to the root of a checkpoint that seals it. */
  ghost predicate Sealing(proof: Option<Value>, hash: Bytes, seal: Value -> Seal, leaf: Bytes, steps: seq<Step>)
  {
    var cp, path := Field(proof, "checkpoint"), Field(proof, "path");
    && IsObject(cp) && IsArray(path) && HexBytes(hash) == Some(leaf) && PathSpelled(path.value.items, steps)
    && Lower(Text(Field(cp, "root"))) == HexEncode(Climb(leaf, steps)) && SealsIt(cp.value, seal(cp.value))
  }

  ghost predicate Proven(proof: Option<Value>, hash: Bytes, seal: Value -> Seal)
  {
    exists leaf: Bytes, steps: seq<Step> :: Sealing(proof, hash, seal, leaf, steps)
  }

  lemma ProvenExactly(proof: Option<Value>, hash: Bytes, seal: Value -> Seal)
    ensures ProvenSealed(proof, hash, seal) <==> Proven(proof, hash, seal)
  {
    hide Ascii, HexBytes, StepsOf, PathSpelled, Climb, HexEncode, Lower, Text, Canon, ProofPreimage, Field, Sha256Hex;
    var path := Field(proof, "path");
    if IsArray(path) {
      var items := path.value.items;
      assert items[..|items|] == items;
      if ProvenSealed(proof, hash, seal) {
        StepsExactly(items, |items|, StepsOf(items, |items|).value);
        assert Sealing(proof, hash, seal, HexBytes(hash).value, StepsOf(items, |items|).value);
      }
      if leaf: Bytes, steps: seq<Step> :| Sealing(proof, hash, seal, leaf, steps) {
        StepsExactly(items, |items|, steps);
      }
    }
  }

  /** An event of the range is sealed as the one the walk met, any other by the proof kept for its hash. */
  ghost predicate RightlySealed(c: Context, hash: Bytes, record: Value)
  {
    var s := Field(Some(record), "seq");
    if Field(Some(record), "stream") == Some(String(c.stream)) && IsInt(s) && c.from <= s.value.n <= c.to
    then s.value.n in c.walked && c.walked[s.value.n] == hash
    else hash in c.proofs && Proven(Some(c.proofs[hash]), hash, c.seal)
  }

  lemma SealedExactly(c: Context, hash: Bytes, record: Value)
    ensures IsSealed(c, hash, record) <==> RightlySealed(c, hash, record)
  {
    hide ProvenSealed, Proven, Field;
    if hash in c.proofs {
      ProvenExactly(Some(c.proofs[hash]), hash, c.seal);
    }
    NothingProven(hash, c.seal);
  }

  lemma NothingProven(hash: Bytes, seal: Value -> Seal)
    ensures !ProvenSealed(None, hash, seal)
  {
  }

  /** The last authentic declaration of its entry hash, and sealed. */
  ghost predicate Stands(c: Context, lines: seq<Bytes>, hash: Bytes, record: Value)
  {
    Latest(lines, |lines|, hash, record) && RightlySealed(c, hash, record)
  }

  lemma SurvivingExactly(c: Context, lines: seq<Bytes>, hash: Bytes, record: Value)
    ensures var left := Surviving(c, Loaded(lines, |lines|));
            hash in left && left[hash] == record <==> Stands(c, lines, hash, record)
  {
    hide Loaded, Latest, IsSealed, RightlySealed;
    LoadedExactly(lines, |lines|, hash, record);
    SealedExactly(c, hash, record);
  }

  // ---- what a declaration does

  ghost predicate IsSupplement(record: Value)
  {
    StrEq(Field(Some(record), "action"), "declaration.supplemented")
  }

  /** The entry hash a supplement names, in either case. */
  ghost predicate Supplements(record: Value, hash: Bytes)
  {
    var named := Field(Field(Field(Some(record), "payload"), "declaration"), "entry_hash");
    IsString(named) && Lower(named.value.s) == hash
  }

  /** Its own action is this one, or it supplements a declaration that stands and whose action is. */
  ghost predicate Acts(c: Context, lines: seq<Bytes>, record: Value, action: string)
  {
    if !IsSupplement(record) then StrEq(Field(Some(record), "action"), action)
    else
      exists original: Value, hash: Bytes ::
        Stands(c, lines, hash, original) && Supplements(record, hash) && StrEq(Field(Some(original), "action"), action)
  }

  /** A supplement to nothing that stands. */
  ghost predicate Alone(c: Context, lines: seq<Bytes>, record: Value)
  {
    IsSupplement(record)
    && forall original: Value, hash: Bytes :: Supplements(record, hash) ==> !Stands(c, lines, hash, original)
  }

  /** It names the event, acts so, and is not of the stream at or before the event. */
  ghost predicate Declares(c: Context, lines: seq<Bytes>, record: Value, sequence: int, action: string)
  {
    var s := Field(Some(record), "seq");
    && Names(Field(Some(record), "payload"), c.stream, sequence) && Acts(c, lines, record, action)
    && (Field(Some(record), "stream") == Some(String(c.stream)) && IsInt(s) ==> s.value.n > sequence)
  }

  /** It does not name the event, or acts as something else. */
  ghost predicate PassedOver(c: Context, lines: seq<Bytes>, record: Value, sequence: int, action: string)
  {
    Names(Field(Some(record), "payload"), c.stream, sequence) ==>
      && !Acts(c, lines, record, action) && !Alone(c, lines, record)
  }

  /** Nothing that stands and was declared earlier is at fault. */
  ghost predicate FirstDeclares(c: Context, lines: seq<Bytes>, hash: Bytes, record: Value, sequence: int,
                                action: string)
  {
    && Stands(c, lines, hash, record) && Declares(c, lines, record, sequence, action)
    && forall hash': Bytes, record': Value :: Stands(c, lines, hash', record') && DeclaredBefore(lines, hash', hash) ==>
         PassedOver(c, lines, record', sequence, action)
  }

  ghost predicate IsDeclared(c: Context, lines: seq<Bytes>, sequence: int, action: string)
  {
    exists hash: Bytes, record: Value :: FirstDeclares(c, lines, hash, record, sequence, action)
  }

  /** Which ceremony each kind of absence needs. */
  ghost predicate DeclaredAs(c: Context, lines: seq<Bytes>, sequence: int, erased: bool)
  {
    IsDeclared(c, lines, sequence, if erased then "pii.subject_erased" else "payload.redacted")
  }

  lemma ActionExactly(c: Context, lines: seq<Bytes>, records: map<Bytes, Value>, record: Value, action: string)
    requires records == Surviving(c, Loaded(lines, |lines|))
    ensures ActionOf(records, record).None? <==> Alone(c, lines, record)
    ensures ActionOf(records, record).Some? && StrEq(ActionOf(records, record).value, action) <==>
            Acts(c, lines, record, action)
  {
    hide Loaded, Stands, Ascii, Field, Surviving, Lower;
    forall hash: Bytes, original: Value
      ensures hash in records && records[hash] == original <==> Stands(c, lines, hash, original)
    {
      SurvivingExactly(c, lines, hash, original);
    }
    var named := Field(Field(Field(Some(record), "payload"), "declaration"), "entry_hash");
    if IsSupplement(record) && IsString(named) && Lower(named.value.s) in records {
      var hash := Lower(named.value.s);
      assert Supplements(record, hash) && Stands(c, lines, hash, records[hash]);
    }
  }

  /** The rule finds what declares the event, and passes over what neither declares it nor is at fault. */
  lemma RuleExactly(c: Context, lines: seq<Bytes>, records: map<Bytes, Value>, record: Value, sequence: int,
                    action: string)
    requires records == Surviving(c, Loaded(lines, |lines|))
    ensures var r := Rule(records, record, c.stream, sequence, action);
            && (r == Found <==> Declares(c, lines, record, sequence, action))
            && (r == Skipped <==> PassedOver(c, lines, record, sequence, action))
  {
    hide Loaded, Field, Surviving, Covers, Names, Acts, Alone, ActionOf, StrEq;
    CoversExactly(Field(Some(record), "payload"), c.stream, sequence);
    ActionExactly(c, lines, records, record, action);
  }

  lemma BeforeOneWay(lines: seq<Bytes>, hash': Bytes, hash: Bytes)
    requires DeclaredBefore(lines, hash', hash)
    ensures !DeclaredBefore(lines, hash, hash')
  {
    hide Carries;
  }

  /** One absence is silent exactly when it is declared. */
  lemma VisitDeclared(c: Context, lines: seq<Bytes>, a: Authenticated, sequence: int, action: string)
    requires a == Authenticated(Loaded(lines, |lines|).order, Surviving(c, Loaded(lines, |lines|)))
    ensures Visit(a.order, a.records, 0, c.stream, sequence, action) == [] <==> IsDeclared(c, lines, sequence, action)
  {
    hide *;
    VisitExactly(a.order, a.records, 0, c.stream, sequence, action);
    if j :| 0 <= j < |a.order| && FoundAt(a.order, a.records, 0, j, c.stream, sequence, action) {
      FoundDeclares(c, lines, a, j, sequence, action);
    }
    if IsDeclared(c, lines, sequence, action) {
      var j := DeclaredFound(c, lines, a, sequence, action);
    }
  }

  lemma OrderOf(c: Context, lines: seq<Bytes>)
    ensures var order := Loaded(lines, |lines|).order;
            && (forall k, j :: 0 <= k < j < |order| ==> DeclaredBefore(lines, order[k], order[j]))
            && (forall hash, record :: Stands(c, lines, hash, record) ==> hash in order)
  {
    hide Loaded, DeclaredBefore, Carries, RightlySealed, Latest;
    LoadedOrder(lines, |lines|);
    assert lines[..|lines|] == lines;
    forall hash, record | Stands(c, lines, hash, record)
      ensures hash in Loaded(lines, |lines|).order
    {
      CarriedOnce(lines, hash, record);
    }
  }

  lemma CarriedOnce(lines: seq<Bytes>, hash: Bytes, record: Value)
    requires Latest(lines, |lines|, hash, record)
    ensures CarriedIn(lines, |lines|, hash)
  {
    hide Authentic;
    var i :| 0 <= i < |lines| && LatestAt(lines, |lines|, hash, record, i);
    assert Carries(lines[i], hash);
  }

  lemma FoundDeclares(c: Context, lines: seq<Bytes>, a: Authenticated, j: nat, sequence: int, action: string)
    requires a == Authenticated(Loaded(lines, |lines|).order, Surviving(c, Loaded(lines, |lines|)))
    requires j < |a.order| && FoundAt(a.order, a.records, 0, j, c.stream, sequence, action)
    ensures IsDeclared(c, lines, sequence, action)
  {
    hide Loaded, Stands, Surviving, Rule, Declares, PassedOver, DeclaredBefore;
    OrderOf(c, lines);
    var hash := a.order[j];
    SurvivingExactly(c, lines, hash, a.records[hash]);
    RuleExactly(c, lines, a.records, a.records[hash], sequence, action);
    forall hash': Bytes, record': Value | Stands(c, lines, hash', record') && DeclaredBefore(lines, hash', hash)
      ensures PassedOver(c, lines, record', sequence, action)
    {
      var m :| 0 <= m < |a.order| && a.order[m] == hash';
      BeforeOneWay(lines, hash', hash);
      assert m < j;
      assert Quiet(a.order, a.records, m, c.stream, sequence, action);
      SurvivingExactly(c, lines, hash', record');
      RuleExactly(c, lines, a.records, record', sequence, action);
    }
    assert FirstDeclares(c, lines, hash, a.records[hash], sequence, action);
  }

  lemma DeclaredFound(c: Context, lines: seq<Bytes>, a: Authenticated, sequence: int, action: string) returns (j: nat)
    requires a == Authenticated(Loaded(lines, |lines|).order, Surviving(c, Loaded(lines, |lines|)))
    requires IsDeclared(c, lines, sequence, action)
    ensures j < |a.order| && FoundAt(a.order, a.records, 0, j, c.stream, sequence, action)
  {
    hide Loaded, Stands, Surviving, Rule, Declares, PassedOver, DeclaredBefore;
    OrderOf(c, lines);
    var hash: Bytes, record: Value :| FirstDeclares(c, lines, hash, record, sequence, action);
    SurvivingExactly(c, lines, hash, record);
    RuleExactly(c, lines, a.records, record, sequence, action);
    j :| 0 <= j < |a.order| && a.order[j] == hash;
    forall m | 0 <= m < j
      ensures Quiet(a.order, a.records, m, c.stream, sequence, action)
    {
      if a.order[m] in a.records {
        var earlier := a.records[a.order[m]];
        SurvivingExactly(c, lines, a.order[m], earlier);
        RuleExactly(c, lines, a.records, earlier, sequence, action);
      }
    }
  }

  // ---- the whole section

  lemma {:induction false} EachAbsentExactly(a: Authenticated, stream: Bytes, absent: seq<int>, erased: map<int, bool>,
                                             n: nat)
    requires n <= |absent|
    ensures AbsentFindings(a, stream, absent, erased, n) == [] <==>
            forall k :: 0 <= k < n ==>
              Visit(a.order, a.records, 0, stream, absent[k], Wanted(absent[k] in erased && erased[absent[k]])) == []
  {
    hide Visit, Wanted;
    if n > 0 {
      EachAbsentExactly(a, stream, absent, erased, n - 1);
    }
  }

  lemma {:induction false} RecordsExactly(lines: seq<Bytes>, n: nat)
    requires n <= |lines|
    ensures RecordsProblems(lines, n) == [] <==> forall i :: 0 <= i < n ==> IsAuthentic(lines[i])
  {
    hide RecordProblems, IsAuthentic;
    if n > 0 {
      RecordsExactly(lines, n - 1);
      AuthenticExactly(lines[n - 1]);
    }
  }

  ghost predicate IsAuthentic(line: Bytes)
  {
    exists hash: Bytes :: Carries(line, hash)
  }

  lemma AuthenticExactly(line: Bytes)
    ensures RecordProblems(line) == [] <==> IsAuthentic(line)
  {
    hide Carries, SelfProblems, Decode;
    if RecordProblems(line) == [] {
      CarriesIs(line, EntryText(Decode(line)));
    }
    if hash: Bytes :| Carries(line, hash) {
      CarriesIs(line, hash);
    }
  }

  lemma {:induction false} SealsUpTo(c: Context, a: Authenticated, n: nat)
    requires n <= |a.order|
    ensures AllSealFindings(c, a, n) == [] <==>
            forall k :: 0 <= k < n && a.order[k] in a.records ==> IsSealed(c, a.order[k], a.records[a.order[k]])
  {
    hide IsSealed, InRange;
    if n > 0 {
      SealsUpTo(c, a, n - 1);
    }
  }

  ghost predicate AllSealed(c: Context, lines: seq<Bytes>)
  {
    forall hash: Bytes, record: Value :: Latest(lines, |lines|, hash, record) ==> RightlySealed(c, hash, record)
  }

  lemma SealsExactly(c: Context, lines: seq<Bytes>)
    ensures AllSealFindings(c, Loaded(lines, |lines|), |Loaded(lines, |lines|).order|) == [] <==> AllSealed(c, lines)
  {
    hide Loaded, Latest, IsSealed, RightlySealed, AllSealFindings;
    var a := Loaded(lines, |lines|);
    SealsUpTo(c, a, |a.order|);
    LoadedListed(lines, |lines|);
    forall hash: Bytes, record: Value
      ensures hash in a.records && a.records[hash] == record <==> Latest(lines, |lines|, hash, record)
    {
      LoadedExactly(lines, |lines|, hash, record);
    }
    if AllSealed(c, lines) {
      forall k | 0 <= k < |a.order| && a.order[k] in a.records
        ensures IsSealed(c, a.order[k], a.records[a.order[k]])
      {
        assert Latest(lines, |lines|, a.order[k], a.records[a.order[k]]);
        SealedExactly(c, a.order[k], a.records[a.order[k]]);
      }
    }
    if forall k :: 0 <= k < |a.order| && a.order[k] in a.records ==> IsSealed(c, a.order[k], a.records[a.order[k]]) {
      forall hash: Bytes, record: Value | Latest(lines, |lines|, hash, record)
        ensures RightlySealed(c, hash, record)
      {
        SealedExactly(c, hash, record);
        var k :| 0 <= k < |a.order| && a.order[k] == hash;
      }
    }
  }

  /** Every line is an authentic, sealed declaration, and every absence is declared by the ceremony of its kind. */
  ghost predicate AllDeclared(c: Context, lines: seq<Bytes>, absent: seq<int>, erased: map<int, bool>)
  {
    && (forall i :: 0 <= i < |lines| ==> IsAuthentic(lines[i])) && AllSealed(c, lines)
    && forall k :: 0 <= k < |absent| ==> DeclaredAs(c, lines, absent[k], absent[k] in erased && erased[absent[k]])
  }

  /** The section on absent payloads is silent exactly when they are all declared. */
  lemma SilentExactly(known: bool, file: Option<seq<Bytes>>, c: Context, absent: seq<int>, erased: map<int, bool>)
    ensures Findings(known, file, c, absent, erased) == [] <==>
            known && file.Some? && AllDeclared(c, file.value, absent, erased)
  {
    hide Loaded, Surviving, RecordsProblems, AllSealFindings, AbsentFindings, IsDeclared, Visit, IsAuthentic, AllSealed;
    if known && file.Some? {
      var lines := file.value;
      var loaded := Loaded(lines, |lines|);
      var left := Authenticated(loaded.order, Surviving(c, loaded));
      RecordsExactly(lines, |lines|);
      SealsExactly(c, lines);
      EachAbsentExactly(left, c.stream, absent, erased, |absent|);
      forall k | 0 <= k < |absent|
        ensures Visit(left.order, left.records, 0, c.stream, absent[k],
                      Wanted(absent[k] in erased && erased[absent[k]])) == [] <==>
                DeclaredAs(c, lines, absent[k], absent[k] in erased && erased[absent[k]])
      {
        VisitDeclared(c, lines, left, absent[k], Wanted(absent[k] in erased && erased[absent[k]]));
      }
    }
  }

  lemma KeptAbsence(b: Bundle, i: nat) returns (k: nat)
    requires Passed(b) && i < |b.lines| && Nullish(Field(Event(b, i), "payload"))
    ensures var kept := KeptAt(b, |b.lines|);
            && k < |kept.absentOrder| && kept.absentOrder[k] == b.rangeFrom + i && b.rangeFrom + i in kept.erased
            && kept.erased[b.rangeFrom + i] == SaysErased(b, i)
  {
    hide Passed, KeptAt, Event, Field, EventsOk, SaysErased;
    PassedClean(b);
    KeptClean(b, |b.lines|);
    var kept, s := KeptAt(b, |b.lines|), b.rangeFrom + i;
    assert AbsentAt(b, s, |b.lines|);
    k :| 0 <= k < |kept.absentOrder| && kept.absentOrder[k] == s;
  }

  /**
   * The walk and the rule together: on a walk that reports nothing the section is silent exactly when every event
   * without a payload is declared, an erased one by a subject's erasure and any other by a redaction.
   */
  lemma PassedDeclaredExactly(b: Bundle, known: bool, file: Option<seq<Bytes>>, c: Context)
    requires Passed(b)
    ensures var kept := KeptAt(b, |b.lines|);
            Findings(known, file, c, kept.absentOrder, kept.erased) == [] <==>
            known && file.Some? && (forall i :: 0 <= i < |file.value| ==> IsAuthentic(file.value[i]))
            && AllSealed(c, file.value) && EventsDeclared(b, c, file.value)
  {
    hide *;
    var kept := KeptAt(b, |b.lines|);
    SilentExactly(known, file, c, kept.absentOrder, kept.erased);
    if file.Some? {
      AbsencesAreEvents(b, c, file.value);
    }
  }

  /** Each event without a payload is declared by the ceremony its own absence field names. */
  ghost predicate EventsDeclared(b: Bundle, c: Context, lines: seq<Bytes>)
  {
    forall i :: 0 <= i < |b.lines| && Nullish(Field(Event(b, i), "payload")) ==>
      IsDeclared(c, lines, b.rangeFrom + i,
                 if StrEq(Field(Event(b, i), "absence"), "erased") then "pii.subject_erased" else "payload.redacted")
  }

  lemma AbsencesAreEvents(b: Bundle, c: Context, lines: seq<Bytes>)
    requires Passed(b)
    ensures var kept := KeptAt(b, |b.lines|);
            AllDeclared(c, lines, kept.absentOrder, kept.erased) <==>
            && (forall i :: 0 <= i < |lines| ==> IsAuthentic(lines[i])) && AllSealed(c, lines)
            && EventsDeclared(b, c, lines)
  {
    hide Passed, KeptAt, IsDeclared, Event, Field, IsAuthentic, AllSealed, EventsOk;
    var kept := KeptAt(b, |b.lines|);
    PassedClean(b);
    KeptClean(b, |b.lines|);
    if EventsDeclared(b, c, lines) {
      forall k | 0 <= k < |kept.absentOrder|
        ensures var s := kept.absentOrder[k]; DeclaredAs(c, lines, s, s in kept.erased && kept.erased[s])
      {
        var s := kept.absentOrder[k];
        assert s in kept.absentOrder && AbsentAt(b, s, |b.lines|);
      }
    }
    if AllDeclared(c, lines, kept.absentOrder, kept.erased) {
      forall i | 0 <= i < |b.lines| && Nullish(Field(Event(b, i), "payload"))
        ensures DeclaredAs(c, lines, b.rangeFrom + i, SaysErased(b, i))
      {
        var k := KeptAbsence(b, i);
      }
    }
  }

  // ---- what sealing proves

  lemma SealedParts(proof: Option<Value>, hash: Bytes, seal: Value -> Seal)
    requires ProvenSealed(proof, hash, seal)
    ensures HexBytes(hash).Some? && IsArray(Field(proof, "path"))
    ensures var path := Field(proof, "path").value.items;
            && StepsOf(path, |path|).Some?
            && Lower(Text(Field(Field(proof, "checkpoint"), "root"))) ==
              HexEncode(Climb(HexBytes(hash).value, StepsOf(path, |path|).value))
  {
    hide Field, CheckpointSeals, Climb, HexBytes, HexEncode, Lower, Text, StepsOf;
  }

  /**
   * Outside the range: where the checkpoint's root is the root of some leaves, the declaration's entry hash is one of
   * them.
   */
  lemma SealedIsALeaf(proof: Option<Value>, hash: Bytes, seal: Value -> Seal, leaves: seq<Bytes>) returns (i: nat)
    requires ProvenSealed(proof, hash, seal) && leaves != []
    requires Lower(Text(Field(Field(proof, "checkpoint"), "root"))) == HexEncode(Root(leaves))
    requires HexBytes(hash).Some? && IsArray(Field(proof, "path"))
    requires StepsOf(Field(proof, "path").value.items, |Field(proof, "path").value.items|).Some?
    requires var steps := StepsOf(Field(proof, "path").value.items, |Field(proof, "path").value.items|).value;
             NoCollision(ClimbInputs(HexBytes(hash).value, steps) + RootInputs(leaves))
    ensures i < |leaves| && HexBytes(hash) == Some(leaves[i])
  {
    hide Field, CheckpointSeals, Climb, HexBytes, HexEncode, Lower, Text, StepsOf, ProvenSealed, ClimbInputs,
      RootInputs, NoCollision, Root;
    SealedParts(proof, hash, seal);
    var steps := StepsOf(Field(proof, "path").value.items, |Field(proof, "path").value.items|).value;
    HexInjective(Climb(HexBytes(hash).value, steps), Root(leaves));
    i := AuditSound(HexBytes(hash).value, steps, leaves);
  }

  lemma SelfOkEntry(record: Option<Value>)
    requires SelfOk(record)
    ensures var entry := Canon(EntryPreimage(OrNull(Field(record, "stream")), OrNull(Field(record, "seq")), record));
            entry.Some? && EntryText(record) == Sha256Hex(entry.value)
  {
    hide Canon, EntryPreimage, EntryText, Text, Lower, Sha256Hex, Field;
  }

  /** In range: the declaration is the event the walk met at its sequence, field for field. */
  lemma SealedIsTheEvent(b: Bundle, c: Context, lines: seq<Bytes>, hash: Bytes, record: Value) returns (i: nat)
    requires Passed(b) && c.from == b.rangeFrom && c.walked == KeptAt(b, |b.lines|).retained
    requires Stands(c, lines, hash, record) && InRange(c, record)
    requires var own := Canon(EntryPreimage(OrNull(Field(Some(record), "stream")), OrNull(Field(Some(record), "seq")),
              Some(record)));
             own.Some? ==> NoCollision(Hashed(b) + {own.value})
    ensures i < |b.lines| && Field(Some(record), "seq") == Some(Int(b.rangeFrom + i))
    ensures EntryText(Event(b, i)) == hash && SameEntryFields(Some(record), Event(b, i))
  {
    hide *;
    PassedClean(b);
    KeptClean(b, |b.lines|);
    i := WalkedAt(b, c, hash, record, lines);
    var own := EntryPreimage(OrNull(Field(Some(record), "stream")), OrNull(Field(Some(record), "seq")), Some(record));
    StandsGives(c, lines, hash, record);
    SelfOkEntry(Some(record));
    EntryReady(b, i);
    FieldWellFormed(Some(record), "stream");
    FieldWellFormed(Some(record), "seq");
    EntryPreimageWellFormed(OrNull(Field(Some(record), "stream")), OrNull(Field(Some(record), "seq")), Some(record));
    var walked := EntryPreimage(String(b.stream), Int(b.rangeFrom + i), Event(b, i));
    NoCollisionWithin({Canon(own).value, Canon(walked).value}, Hashed(b) + {Canon(own).value});
    HashPins(own, walked);
    EntryPreimageSame(
      OrNull(Field(Some(record), "stream")), OrNull(Field(Some(record), "seq")), Some(record),
      String(b.stream), Int(b.rangeFrom + i), Event(b, i));
  }

  lemma StandsGives(c: Context, lines: seq<Bytes>, hash: Bytes, record: Value)
    requires Stands(c, lines, hash, record)
    ensures SelfOk(Some(record)) && EntryText(Some(record)) == hash && WellFormed(record)
  {
    hide SelfOk, EntryText, WellFormed, Decode, RightlySealed, Carries;
    var i :| 0 <= i < |lines| && LatestAt(lines, |lines|, hash, record, i);
    DecodeWellFormed(lines[i]);
  }

  lemma WalkedAt(b: Bundle, c: Context, hash: Bytes, record: Value, lines: seq<Bytes>) returns (i: nat)
    requires c.from == b.rangeFrom && c.walked == KeptAt(b, |b.lines|).retained
              && KeptRight(b, KeptAt(b, |b.lines|), |b.lines|)
    requires Stands(c, lines, hash, record) && InRange(c, record)
    ensures i < |b.lines| && Field(Some(record), "seq") == Some(Int(b.rangeFrom + i)) && EntryText(Event(b, i)) == hash
  {
    hide KeptAt, Field, EntryText, Event, Latest, Proven;
    i := Field(Some(record), "seq").value.n - b.rangeFrom;
  }
}
