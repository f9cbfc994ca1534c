# Verified model of the evidence-bundle verifier

This project models the hard core of `sigilbase-verify`, which checks evidence bundles: a hash-chained event log, sealed by
signed Merkle checkpoints, with consistency proofs, declarations of destroyed payloads, connection receipts and a registry's
decision log on top. The program's loops are one-pass and hold little state; each is proved here against a declarative
meaning, and the meanings are then proved to say what the program is for.

Run `dafny verify dfyconfig.toml` in this directory. No file needs another to be named first.

## How it is built

- **Hashing.** SHA-256 is `Bytes.SHA256`, a constant function given no value, so every result holds of any function from byte
  strings to 32 bytes. It is never assumed injective. A result that needs collision freedom names the finite set of strings
  it needs it for (`NoCollision` of the strings the runs in question hash).
- **Form.** What the program changes in place is a class (`Stack`, `Collector`, `Members`, `Parser`, `UnitReader`, `Run`,
  `CheckpointTrees`, `LogReader`, `AuthenticatedSet`, `CollectionStream`) or an array, and its loops are loops. Each such
  method is proved equal to a function of its inputs or its old state; the theorems are about those functions. Pure recursion
  in the source is a function here.
- **Outcomes.** A run is a list of failures and a list of unconfirmed items; "passes" means both are empty. A finding keeps
  the check that spoke and the result it demotes, not its text.
- **Proofs.** A lemma that begins with `hide` sees no definition but those it is handed by smaller lemmas, which keeps each
  proof small; the short lemmas named `...Is`, `...Gives` and `...Step` each open one definition.
- **Inputs.** A bundle is already read: its lines, checkpoints and files are values. Signatures, key windows, timestamps'
  text and the RSA step are parameters or constants given no value.

## Main results

1. *Merkle trees.* The shifting verifier accepts a proof, with nodes of any length, exactly when the old leaves are the
   first of the new ones and the proof is the one the generator builds (`ConsistencyProof.AcceptsExactly`,
   `ConsistencyVerify.Verify`). The streaming collector yields exactly the generator's proof
   (`Collector.Collector.Nodes`), and the hash stack the recursive root (`HashStack.Stack.Root`).
2. *Canonical JSON.* Parsing what was printed gives the value back up to member order, at every depth the parser accepts
   (`JsonDecoded.RoundTrip`), and two values print alike exactly when they are the same up to member order
   (`JsonDecoded.CanonInjective`). Which values print, and which printed values are read back, is exact (`JsonLimits`).
   What is read is said without the parser, by trees that are spelled and denote values (`JsonGrammar.ParsesExactly`),
   escapes by their UTF-16 units (`JsonEscapes.EscapeWrites`); what is printed, without the printer
   (`JsonTight.CanonExactly`, `KeyOrder.LessExactly`). The hand-written loops are each proved against their functions.
3. *The walk.* Nothing is reported exactly when every event, link, checkpoint and root is right and both cover the
   declared range, whatever ranges the checkpoints claim (`CleanWalk.CleanExactly`). Two passing bundles over one range
   with one last checkpoint hash hold the same events (`TamperEvidence.TamperEvident`); sharing one entry hash already
   pins everything before it (`EntryChainPins`). Nothing is reported with every section after the checkpoints exactly
   when the bundle is clean, its absences declared, its recorded states its own tree's and its collection records right
   (`WholeBundle.WholeExactly`); the exit code is 0 exactly when also every checkpoint key is trusted and nothing waits
   (`Verdict.VerifyOne`, `Verdict.PassesExactly`).
4. *Consistency.* Two bundles compare without a report exactly when both are right whole, agree, and the new one extends
   the old (`ConsistencyBundles.ConsistentExactly`); between comparable passing bundles neither internal error is
   reachable and consistency is reported exactly for a prefix (`ConsistencyBundles.VerdictExactly`); consistency.json is
   accepted exactly when it states the tree's own roots and its one proof (`ConsistencyFile.FileExactly`).
5. *Redactions.* After a passing walk the section is silent exactly when every declaration is authentic and sealed and
   every event without a payload is declared, by a `pii.subject_erased` where it says erased and a `payload.redacted`
   elsewhere (`DeclaredAbsences.PassedDeclaredExactly`).
6. *Registry.* Each rule is reported exactly where the records break it, and waits exactly where a later export may
   settle it (`ReconciledExactly.ReportsExactly`), with what is read of the log said of its records alone
   (`LogContents`, `LogPolicies`) and each rule without its loop (`RuleByRule`, `ClosesExactly`). Silent rules 5 to 7
   put acceptances and events in bijection (`AccountedFor.AccountsForEverything`); the policy in force is a function of
   time that never goes back (`PolicyInForce.InForceAlongTheLog`); verdicts only settle as bundles are known complete
   later (`LaterCompleteness.VerdictIsMonotone`).
7. *Collection.* Interleaved streams behave as if checked alone (`CollectionChains.InterleavedIsAlone`), each is silent
   exactly when every record is right of those before it (`CollectionExact.CollectionExactly`), and in a passing bundle
   from sequence 1 with no receipt redacted silence puts every record of every stream in its place: receipts numbered
   and linked, settlements exact in receipts, gaps and supplement (`CollectionLedger.PassedStreams`).
8. *DER and PSS.* What is read is exact, length forms that are not minimal included (`DerForms.ReadExactly`).
   Re-encoding is a canonical form of whatever the tolerant reader reads (`DerDeep.CanonicalForm`); the PSS check
   accepts exactly the encodings (`Pss.VerifyPss`).

## What the code does that its description does not say

- `SplitPoint` doubles once more after the last power below `n`, so on a 64-bit `int` it stays in range exactly up to 2^62
  leaves (`MerkleTree.SplitFits`).
- A checkpoint's two ends are never compared. No result assumes them in order: a walk that reports nothing can hold a
  checkpoint that ends right before it starts, whose root must then be that of the last checkpoint from the same sequence,
  but none that ends further back (`CleanWalk.CleanExactly`, `CheckpointRules.RootOk`, `Onward`).
- "Every link must resolve" in a bundle from sequence 1 is not so of settlements. A day's first settlement passes numbered
  above 0 if it names a settlement before sequence 1 (`CollectionInputs.UnresolvedSettlement`). The rule is silent exactly
  when the settlement is the next of its day (`CollectionLedger.SupplementExactly`), and a passing one is numbered 0 exactly
  when its `previous_settlement` is null or absent (`CollectionLedger.SupplementsRise`).
- Nor is it so of cursors. After a receipt without `cursor_after` any `cursor_before` passes
  (`CollectionInputs.UncheckedCursor`); cursors are checked exactly where the earlier receipt has one
  (`CollectionChains.LinkExactly`).
- A size written as text in consistency.json's proof is cast to an integer when the proof is checked but not when the roots to
  keep are chosen, so the right proof is refused unless something else asks for that root
  (`ConsistencyFile.UnaskedProofRefused`).
- Nothing compares the request digest an acceptance logs with the one its own `accepted` object states. A replay repeats the
  second; the registry event recomputes to the first (`AccountedFor.RepeatsFollow`).
- A trusted key's window problems fail the signing identity, an untrusted key's the content, and an untrusted key outside the
  manifest has no window checked at all (`CheckpointRules.SealProblems`).

## Model

| member | source | states |
|---|---|---|
| MerkleTree.SplitPoint | internal/merkle/merkle.go:39-45 | The doubling loop ends at the one power of two k with k < n <= 2k |
| MerkleTree.SplitUnique | internal/merkle/merkle.go:37-45 | Any power of two strictly below n and at least half of it is the split point |
| MerkleTree.SplitFits | internal/merkle/merkle.go:39-45 | The loop condition stays inside a signed word exactly for trees up to half the word's range |
| MerkleTree.RootInjective | internal/merkle/merkle.go:61-67 | At a fixed number of leaves equal roots mean equal leaves, given no collision among the strings the two roots hash |
| MerkleTree.NodeInputSplits | internal/merkle/merkle.go:25-35 | Concatenated children of any length are told apart once one length is known |
| MerkleTree.DomainsDisjoint | internal/merkle/merkle.go:15-35 | No leaf string is a node string |
| MerkleTree.RootIsRfc6962 | internal/merkle/merkle.go:15-67 | The root is that of section 2.1 of RFC 6962: SHA-256 of 0x00 and the one leaf, or of 0x01 and the roots either side of the largest power of two below the count |
| HashStack.Stack.Append | internal/merkle/merkle.go:91-104 | The leaf joins the leaves; merging ends (the entries shrink) with perfect subtrees of strictly descending power-of-two sizes summing to the count |
| HashStack.MergeStep | internal/merkle/merkle.go:95-103 | One merge of equal subtrees keeps the leaves and leaves a perfect subtree on top |
| HashStack.FoldStep | internal/merkle/merkle.go:118-125 | Folding one more subtree on the left gives the recursive root of all the leaves from there on |
| HashStack.Stack.Root | internal/merkle/merkle.go:114-127 | The fold, smallest first, is the recursive root of every leaf since the last reset; none for an empty stack |
| HashStack.Stack.Len | internal/merkle/merkle.go:106-109 | The count is the number of leaves since the last reset |
| HashStack.Stack.Reset | internal/merkle/merkle.go:129-133 | The stack holds no leaves and is valid for the next tree |
| HashStack.OneEntryPerSetBit | internal/merkle/merkle.go:74-82 | The stack holds one entry per set bit of its leaf count |
| ConsistencyProof.Completeness | internal/merkle/consistency.go:16-110 | For every 1 <= m <= n and all leaves the proof built is accepted with the two trees' roots |
| ConsistencyProof.ReplayOfSubProof | internal/merkle/consistency.go:31-49 | Replaying a generated sub-proof by splits gives the old and the new root |
| ConsistencyProof.ReplaySound | internal/merkle/consistency.go:85-109 | Nodes of any length that replay to the two roots are the generator's, and the old leaves the first of the new, given no collision |
| ConsistencyProof.AcceptsExactly | internal/merkle/consistency.go:58-110 | Acceptance holds exactly when the old leaves are a prefix and the proof is the one generated, given no collision among the strings hashed |
| ConsistencyVerify.SidesAgree | internal/merkle/consistency.go:77-107 | The bits of m-1 and n-1, shifted as the loop shifts them, are the turns of the top-down recursion |
| ConsistencyVerify.ReplayIsFold | internal/merkle/consistency.go:85-107 | Replaying by splits is folding bottom-up along those turns |
| ConsistencyVerify.AndPredecessor | internal/merkle/consistency.go:71 | The bit test m & (m-1) == 0 is true exactly of powers of two |
| ConsistencyVerify.Verify | internal/merkle/consistency.go:58-110 | The loop over shifted bits returns the top-down acceptance, on every input, odd ones included |
| ProofRanges.RangesTile | internal/merkle/consistency.go:121-155 | The ranges are non-empty and disjoint, and cover [0,n), or [m,n) exactly when m < n is a power of two |
| ProofRanges.RangesAreProof | internal/merkle/consistency.go:128-155 | The roots of the ranges, in order, are the proof's nodes |
| Collector.InsertionSort | internal/merkle/consistency.go:181-186 | Sorting in place leaves an order of all the indexes, by start |
| Collector.NewCollector | internal/merkle/consistency.go:172-193 | Refuses exactly sizes out of range, and otherwise plans the proof with nothing fed |
| Collector.FeedSlices | internal/merkle/consistency.go:197-211 | A leaf belongs to the cursor's range or to none |
| Collector.Collector.Append | internal/merkle/consistency.go:197-211 | Feeding a leaf extends what was fed; the one stack whose range holds it takes it |
| Collector.Collector.Nodes | internal/merkle/consistency.go:219-232 | Refuses before n leaves, and then gives the proof of the first n, whatever came after |
| AuditPath.Audit | internal/merkle/merkle.go:147-157 | Folds a path of siblings from an entry hash up |
| AuditPath.PathReachesRoot | internal/merkle/merkle.go:142-157 | Each leaf's own inclusion path rebuilds the root |
| AuditPath.AuditSound | internal/merkle/merkle.go:142-157 | A path that rebuilds the root of some leaves proves its entry hash, of any length, one of them, and is that leaf's path, given no collision |
| Utf8.DecodeOfEncode | internal/cjson/parse.go:264-295 | Decoding an encoded scalar value gives it back with its length |
| Utf8.EncodeOfDecode | internal/cjson/parse.go:264-295 | Encoding a well-formed decoded rune gives the bytes it was read from |
| KeyOrder.UnitReader.Next | internal/cjson/canonical.go:131-157 | Gives the next UTF-16 unit of a valid string, a pair for a rune beyond the basic plane |
| KeyOrder.CompareUtf16 | internal/cjson/canonical.go:159-181 | Compares two valid keys by their UTF-16 units |
| KeyOrder.UnitsInjective | internal/cjson/canonical.go:162-181 | Different valid keys have different UTF-16 units |
| KeyOrder.LessExactly | internal/cjson/canonical.go:162-181 | One key comes before another exactly where their UTF-16 units agree up to some k and there the first ends or has the smaller unit |
| KeyOrder.LessStrict | internal/cjson/canonical.go:104-114 | The key order is a strict total order on valid UTF-8 keys |
| KeyOrder.AstralBeforePrivateUse | internal/cjson/canonical.go:126-181 | A key beyond the basic plane sorts before one in U+E000..U+FFFF, unlike in byte order |
| JsonValue.LookupPut | internal/cjson/value.go:171-189 | The last value set for a key wins and no other key is touched |
| JsonValue.LookupDrop | internal/cjson/value.go:191-204 | A deleted key is gone and no other key is touched |
| JsonValue.PutAt | internal/cjson/value.go:171-175 | Setting a key already held replaces its value at its first position |
| JsonValue.PutNew | internal/cjson/value.go:176-188 | Setting a new key appends it |
| JsonValue.Members.Find | internal/cjson/value.go:122-137 | The scan below the index threshold and the index above it find the same place |
| JsonValue.Members.Get | internal/cjson/value.go:139-146 | Looks the key up in the list of members |
| JsonValue.Members.Set | internal/cjson/value.go:171-189 | The list of members after the call is the list with the key put, across the point where the index appears |
| JsonValue.Members.Delete | internal/cjson/value.go:191-204 | The list of members after the call is the list with the key dropped, and an index already there is rebuilt |
| JsonParser.Parse | internal/cjson/parse.go:46-61 | The parser returns exactly what the grammar's function returns: value, or failure with its code and position |
| JsonParser.Parser.Number | internal/cjson/parse.go:140-196 | Reads a number: an integer that fits, or a float |
| JsonParser.Parser.ReadStr | internal/cjson/parse.go:233-262 | Reads a string, taking the slow path at the first escape or byte outside ASCII |
| JsonParser.Parser.ReadStrSlow | internal/cjson/parse.go:264-295 | Reads the rest of a string with escapes and multi-byte runes |
| JsonParser.Parser.ReadEscape | internal/cjson/parse.go:297-342 | Reads one escape, surrogate pairs included |
| JsonParser.Parser.ReadObject | internal/cjson/parse.go:376-430 | Reads an object, the last of equal keys winning at the first position |
| JsonParser.Parser.ReadArray | internal/cjson/parse.go:432-466 | Reads an array, within the depth limit |
| JsonEscapes.EscapeWrites | internal/cjson/parse.go:297-366 | The string an accepted escape is read as has exactly the UTF-16 units written: the letter's, the unit four hexadecimal digits give most significant first, or a high half followed by a low one |
| JsonEscapes.WritesEscape | internal/cjson/parse.go:297-366 | Every escape that writes such units is accepted, and read as a string of those units |
| JsonStrings.ReadPieces | internal/cjson/parse.go:233-295 | What is spelled in runes and escapes and then closed is read as what the pieces mean, in order |
| JsonStrings.PiecesOf | internal/cjson/parse.go:233-295 | Every string that is read was spelled in such pieces |
| JsonNumerals.ReadNumeral | internal/cjson/parse.go:140-196 | Every numeral of sign, whole part, fraction and exponent is read as what it denotes: its value by place if it is whole and fits 64 bits, otherwise the float of its literal |
| JsonNumerals.NumeralOf | internal/cjson/parse.go:140-196 | Every number that is read was spelled as such a numeral |
| JsonGrammar.ParsesExactly | internal/cjson/parse.go:46-466 | A document is read, as v, exactly when some tree of fewer than 512 nested containers spells it and denotes v, of two members of one name the later value in the earlier place |
| JsonFailures.FailureExplained | internal/cjson/parse.go:46-466 | Where a document is refused the code says what is there: a control character or the end of an open string, bytes that begin no rune, an escaped half of a pair, the 512th bracket opened or a later one, or a value whose key began with an escaped NUL |
| JsonDecoded.FitsExactly | internal/cjson/parse.go:198-221 | The comparison of digit strings accepts exactly the literals whose value is a 64-bit integer |
| JsonDecoded.DecodedIsReadable | internal/cjson/parse.go:46-466 | Whatever the parser accepts has distinct valid UTF-8 keys, valid strings, 64-bit integers and at most 511 levels |
| Canonical.SortSorted | internal/cjson/canonical.go:104-114 | Sorting orders the members by key |
| Canonical.SortedUnique | internal/cjson/canonical.go:104-114 | Two orderings of the same distinct keys are the same list |
| Canonical.SortOfPermutation | internal/cjson/canonical.go:104-114 | The sorted members do not depend on insertion order |
| CanonicalWriter.AppendString | internal/cjson/canonical.go:76-102 | Appends the escaped string |
| CanonicalWriter.SortOrder | internal/cjson/canonical.go:105-114 | Sorting the index slice in place orders the keys by UTF-16 units and keeps every index |
| CanonicalWriter.AppendObject | internal/cjson/canonical.go:104-124 | Appends the members in key order, or fails where one of them does |
| CanonicalWriter.AppendCanonical | internal/cjson/canonical.go:33-72 | Appends the canonical bytes, or fails where the value does not print |
| JsonLimits.PrintsExactly | internal/cjson/canonical.go:12-72 | A value prints exactly when it holds no float and no integer beyond 2^53-1 |
| JsonTight.CanonExactly | internal/cjson/canonical.go:25-124 | A value prints as these bytes exactly when a tree without space spells them, of the value's own scalars in their one shortest spelling and members strictly rising by UTF-16 units |
| JsonRoundTrip.ReadCanon | internal/cjson/parse.go:103-128 | Reading canonical bytes in any place gives the value with its members in key order |
| JsonDecoded.RoundTrip | internal/cjson/canonical.go:25-31 | For every accepted document that prints, the bytes are read back as the same value up to member order and print to the same bytes |
| JsonLimits.ReadBackExactly | internal/cjson/parse.go:26-466 | A printed value is read back exactly when it is at most 511 containers deep and, for Parse, has no key that begins with NUL |
| JsonEquality.SameNorm | internal/cjson/canonical.go:104-124 | Two values are the same up to member order exactly when sorting their members makes them equal |
| JsonDecoded.CanonInjective | internal/cjson/canonical.go:25-72 | Two values print to the same bytes exactly when they are the same up to member order |
| PhpValues.LongTextIsString | verify/phpvalue.go:36-60 | Only a string is 64 characters long as text |
| PhpValues.HexInjective | verify/phpvalue.go:228-242 | Hexadecimal text determines its bytes |
| PhpCasts.LowerExactly | verify/phpvalue.go:210-226 | Lower case changes exactly the letters A to Z, byte by byte |
| PhpCasts.HexReads | verify/phpvalue.go:228-255 | Hexadecimal text is read as raw exactly when it spells raw, two digits a byte, in either case |
| PhpCasts.HexWrites | verify/walk.go:137-140 | What is written spells the bytes, in small digits |
| PhpCasts.StrictExactly | verify/phpvalue.go:143-173 | Values are strictly equal exactly when both are missing or null, or they are the same value and hold no object |
| PhpCasts.TextExactly | verify/phpvalue.go:41-60 | The text of each kind of value: a string itself, true as 1, an integer in decimal, and nothing of false, null and containers |
| PhpCasts.IterExactly | verify/phpvalue.go:176-195 | A loop runs over an array's elements or an object's values, in order, and over nothing else |
| PhpCasts.Digest64Exactly | verify/collection.go:43-51 | A value is read as a digest exactly when its text in small letters is 64 hexadecimal digits |
| PhpCasts.DayFormExactly | verify/collection.go:366-371 | A day is ten characters, decimal digits but for the two hyphens |
| Preimages.EntryPreimageSame | verify/walk.go:142-155 | Preimages that are the same value are of the same stream, sequence and seven fields |
| Preimages.CheckpointPreimageSame | verify/walk.go:168-182 | Preimages that are the same value agree in all seven fields |
| Preimages.HashPins | verify/walk.go:137-155 | Equal hashes of two canonical encodings, with no collision between them, mean the same value |
| Preimages.EntryPreimageFields | verify/walk.go:142-155 | The preimage of an entry hash is an object of just ten members, each by its name |
| Preimages.CheckpointPreimageFields | verify/walk.go:168-182 | The preimage of a checkpoint hash is an object of just seven members, each by its name |
| Run.Run.Report | verify/run.go:58-66 | A failure is kept and its result becomes failed |
| Run.Run.MarkUnconfirmed | verify/run.go:68-75 | An unconfirmed item is kept and its result is at least unconfirmed |
| Run.Run.ExitCode | verify/report.go:65-77 | Passes exactly when nothing failed and nothing is unconfirmed; fails exactly when something failed |
| WalkRules.EventOkExactly | verify/walk.go:397-505 | One event reports nothing, after a clean prefix, exactly when its sequence, payload, link and entry hash are right |
| WalkRules.EventsOkExactly | verify/walk.go:385-505 | The loop over lines reports nothing exactly on clean events |
| LineGrammar.DecodeExactly | verify/walk.go:129-135 | A line is an event exactly when it spells an object, and it is the event spelled |
| FieldReads.EventReads | verify/walk.go:405-470 | An event is at a sequence exactly when its seq is that integer, its entry hash is read in either case, and it is absent exactly when its state is redacted and its payload missing or null |
| FieldReads.CheckpointReads | verify/walk.go:536-559 | A checkpoint has a range exactly when from and to are those integers, and its own hash is read in either case |
| CheckpointRules.Wrap64Exactly | verify/walk.go:603-606 | The count a checkpoint's ends ask for is Go's 64-bit one: the integer in range that differs by a multiple of 2^64 |
| WalkRules.EntryHashIsString | verify/walk.go:464-470 | A recomputed entry hash comes from a 64-character string |
| WalkRules.EntrySequenceIsExact | verify/walk.go:464-470 | A sequence whose entry hash recomputes is within 2^53-1 |
| WalkTrees.LeavesClean | verify/walk.go:485-492 | On clean events the leaves are the recomputed entry hashes, one per event |
| WalkTrees.StreamIsBatch | verify/walk.go:477-492 | After any number of clean events, whatever ranges the checkpoints claim, every closed tree holds the sequences past all earlier ends up to its own, a later one replacing an earlier one from the same start, and the open tree the rest |
| WalkTrees.CloseAllBatched | verify/walk.go:513-515 | Closing what is left gives every range what is its own |
| RangeTiles.EnoughTiles | verify/walk.go:603-612 | Ranges that each start where the last ended, all have at least the leaves they cover and end with the leaves, tile them: each starts right after all that came before |
| RangeTiles.TilesGiven | verify/walk.go:603-612 | Tiling ranges hold exactly their own leaves, an empty one those of the last range from its start |
| WalkTrees.CapturedClean | verify/walk.go:494-496 | The cumulative roots kept are the prefixes' roots, at exactly the sizes asked for |
| CheckpointRules.EndsAreExact | verify/walk.go:549-555 | A recomputed checkpoint hash bounds both ends by 2^53-1 |
| CheckpointRules.SealedFields | verify/walk.go:545-555 | Which of a checkpoint's own fields, and which of the bundle's, stand under each name of what its hash is over |
| CheckpointRules.FormsOkExactly | verify/walk.go:536-621 | The loop over checkpoints reports nothing exactly when each is in order, recomputes, is chained, is sealed and has its tree |
| CleanWalk.ClosedGiven | verify/walk.go:477-515 | On clean events the trees kept are those the ranges were given, whatever the ranges |
| CleanWalk.TreesOkExactly | verify/walk.go:603-612 | With events and checkpoint forms in order the leaf counts and roots pass exactly when no checkpoint ends before right before it starts and every root is right; every tree then holds its own leaves |
| CleanWalk.CleanExactly | verify/walk.go:385-625 | The walk reports nothing exactly when every event, link, checkpoint and root is right and both cover the range; checkpoints may be empty, and none can go back |
| CleanWalk.CounterNeverOverflows | verify/walk.go:66-82 | On a clean walk the sequence counter never reaches its overflow |
| Walk.CheckEvent | verify/walk.go:405-470 | Reports what the rules for one event report, in order |
| Walk.CheckpointTrees.CloseCheckpoint | verify/walk.go:372-383 | Keeps the root and the count of the leaves held, empties the tree and moves on |
| Walk.CheckpointTrees.CloseBefore | verify/walk.go:477-483 | Closes every checkpoint a sequence has passed |
| Walk.FeedEvent | verify/walk.go:472-492 | A 32-byte entry hash becomes a leaf of both trees and of the proof |
| Walk.StreamEvents | verify/walk.go:385-505 | One pass over the lines reports and keeps what the event rules and the streams say |
| Walk.CheckCheckpoints | verify/walk.go:529-625 | One pass over the checkpoints reports what the checkpoint rules say |
| Walk.VerifyBundle | verify/walk.go:342-626 | Failures, unconfirmed items, captured roots, kept hashes and the streamed proof of events and checkpoints are those of the rules; a hard error exactly without checkpoints or events |
| Verdict.UnconfirmedExactly | verify/walk.go:566-574 | Something is left unconfirmed exactly when some checkpoint that has a range is signed by a key not trusted, and always of the signing identity |
| Verdict.WalkAreas | verify/walk.go:385-625 | A walk fails the signing identity exactly when a trusted key signed outside its window, the scope exactly when the checkpoints do not cover the range, and nothing else but content |
| Verdict.VerifyOne | verify/verify.go:58-88 | The exit code is 0 exactly when nothing is reported, every checkpoint key is trusted and nothing else waits; 1 exactly when something is reported; a hard error exactly without checkpoints or events; and any state given is the tree's own root, given only from sequence 1 |
| Verdict.PassesExactly | verify/verify.go:58-88 | PASS, said of the bundle alone: clean, absences declared, records right, recorded states its own, every checkpoint key trusted and nothing waiting, exactly when nothing is reported or waits |
| PassedWalk.KeptClean | verify/walk.go:354-356 | On clean events the absences kept are exactly the sequences without a payload, ascending, and the hashes kept those asked for |
| PassedWalk.StreamedIsBatch | verify/walk.go:494-515 | On a walk with nothing reported each captured root is a prefix's root and the streamed proof is the batch proof |
| TamperEvidence.ChainPins | verify/walk.go:545-559 | One shared checkpoint hash makes every earlier checkpoint agree, counted back; where none is empty they stand in the same places |
| TamperEvidence.RootPins | verify/walk.go:603-612 | Checkpoints that agree hold the same entry hashes |
| TamperEvidence.EntryPins | verify/walk.go:464-470 | Equal entry hashes are over the same fields of the same sequence of the same stream |
| TamperEvidence.PayloadPins | verify/walk.go:447-457 | Payloads under the same payload hash are the same value |
| TamperEvidence.TamperEvident | verify/walk.go:385-621 | Two passing bundles over one range with the same last checkpoint hash have checkpoints that agree counted back and hold the same events, field for field up to member order and hex case, payloads included where both are present, given no collision among the strings hashed |
| TamperEvidence.EntryChainPins | verify/walk.go:459-470 | Exports of clean events that share one entry hash agree on every earlier sequence both hold |
| WholeBundle.VerifyWhole | verify/walk.go:342-690 | Failures and unconfirmed items of the walk and of every section after it, in order |
| WholeBundle.WholeExactly | verify/walk.go:342-690 | Nothing is reported of a bundle exactly when it is clean, every event without a payload has a standing declaration of the ceremony its absence names and every declaration is authentic and sealed, every collection record is right, the recorded states are the tree's own and nothing given from outside speaks against it |
| ConsistencyBundles.CompareBundles | verify/consistency.go:74-143 | Reports the two bundles, the disagreements, and, if nothing was reported, the comparison |
| ConsistencyBundles.WholeComparable | verify/consistency.go:90-105 | Two bundles that pass whole and agree in stream, start and length are comparable |
| ConsistencyBundles.NoInternalError | verify/consistency.go:105-135 | When both walks pass and streams and sizes agree, neither internal error is reachable |
| ConsistencyBundles.VerdictExactly | verify/consistency.go:105-135 | Consistency is reported exactly when the old entry hashes are a prefix of the new ones, and otherwise the one failure is the divergence, given no collision |
| ConsistencyBundles.AgreeExactly | verify/consistency.go:90-100 | Nothing is said against the pair exactly when they are of one stream, both start at sequence 1 and the old one is not longer |
| ConsistencyBundles.ConsistentExactly | verify/consistency.go:74-143 | The whole comparison reports nothing exactly when both bundles are right whole, they agree and the new one extends the old; once nothing is reported before it, consistency is given exactly for an extension |
| ConsistencyBundles.ExtensionKeepsEvents | verify/consistency.go:105-135 | An extension holds the old bundle's events, not only their hashes |
| ConsistencyBundles.CompareRecorded | verify/consistency.go:149-183 | Reports the bundle and the comparison with the recorded state |
| ConsistencyBundles.RecordedExactly | verify/consistency.go:164-178 | A passing bundle extends a recorded state exactly when it is the root of its first size leaves |
| ConsistencyFile.CheckConsistencyFile | verify/consistency.go:15-69 | Reports what the file's root, states and proof are at fault for |
| ConsistencyFile.FileExactly | verify/consistency.go:25-67 | After a passing walk the file is accepted exactly when it states the tree's own roots and its one proof, from a size whose root was asked for, given no collision |
| ConsistencyFile.UnaskedProofRefused | verify/consistency.go:49-67 | A proof from a size nothing asked for is refused, even the right one |
| Declarations.DeclarationCovers | verify/declarations.go:16-38 | The search finds exactly the targets that name the event |
| Declarations.AuthenticatedSet.Insert | verify/declarations.go:71-79 | The order keeps the first place of a hash and the record its last |
| Declarations.ProofHolds | verify/declarations.go:247-322 | Accepts exactly a proof whose path rebuilds the root of a checkpoint that recomputes and is signed, inside a trusted key's window |
| Declarations.ProofFields | verify/declarations.go:287-300 | Which fields stand under each name of what a proof's checkpoint hash is over, its version being 1 where it is missing |
| Declarations.CheckSeals | verify/declarations.go:155-173 | Removes exactly the declarations not sealed in range or by proof |
| Declarations.CheckDeclarations | verify/declarations.go:102-221 | Reports what loading, sealing and the rule for each absence say, in order |
| DeclaredAbsences.AuthenticExactly | verify/declarations.go:44-69 | A line is loaded exactly when it is an object whose payload and entry hashes recompute |
| DeclaredAbsences.LoadedExactly | verify/declarations.go:71-153 | The record held for a hash is the last authentic line of that hash |
| DeclaredAbsences.CoversExactly | verify/declarations.go:16-38 | A declaration covers an event exactly when some target of the event's stream lists a run [from, to] around it |
| DeclaredAbsences.ProvenExactly | verify/declarations.go:247-322 | A proof holds exactly when its path, each step a sibling in hexadecimal and the word left or right, folds the hash to the root of a checkpoint that recomputes, is validly signed and not by a trusted key outside its window |
| DeclaredAbsences.SealedExactly | verify/declarations.go:155-173 | A declaration of an event in range is sealed exactly as the one the walk met there, any other exactly by the proof kept for its hash |
| DeclaredAbsences.VisitDeclared | verify/declarations.go:175-219 | One absence is silent exactly when a standing declaration names the event, acts as wanted, itself or through the standing declaration it supplements, and is not at or before the event, with none declared earlier at fault |
| DeclaredAbsences.SilentExactly | verify/declarations.go:102-221 | The section is silent exactly when the format is known, the file is there, every line is authentic and sealed, each erased absence is declared by a pii.subject_erased and any other by a payload.redacted |
| DeclaredAbsences.PassedDeclaredExactly | verify/walk.go:628-636 | After a passing walk the section, run on the absences the walk kept, is silent exactly when every line is authentic and sealed and every event without a payload is declared by the ceremony its own absence names |
| DeclaredAbsences.VisitExactly | verify/declarations.go:175-219 | One absence reports nothing exactly when a declaration is found and none before it is at fault |
| DeclaredAbsences.SealedIsALeaf | verify/declarations.go:247-285 | Outside the range, where the checkpoint's root is the root of some leaves the declaration's entry hash is one of them, given no collision |
| DeclaredAbsences.SealedIsTheEvent | verify/declarations.go:160-167 | In range the declaration is the event the walk met at its sequence, field for field, given no collision |
| RegistryTime.AfterPlusExact | verify/receipts.go:1478-1486 | The comparison in whole seconds and nanoseconds is exact and forms only a difference that fits 64 bits |
| RegistryTime.NoticeExact | verify/receipts.go:1488-1497 | The notice comparison is exact for every notice |
| RegistryTime.DueStaysDue | verify/receipts.go:1471-1476 | What is due stays due as the bundle is known complete later |
| RegistryTime.CompleteAt | verify/receipts.go:1447-1464 | The latest of the checkpoints' times and the latest anchor |
| RegistryTime.LatestIsLatest | verify/receipts.go:1450-1457 | It is one of the times and none is later |
| RegistryLog.ReadRegistryLog | verify/receipts.go:807-949 | One pass reads policies, windows, credentials, status, decisions and acceptances as the fold over records does |
| LogPolicies.PoliciesExactly | verify/receipts.go:856-879 | A policy is read exactly from each record that commits or amends one with an integer version no earlier record took |
| LogPolicies.PartsExactly | verify/receipts.go:881-889 | A version's windows are those of its policy.windows records, each numbered one more than the parts before it |
| LogPolicies.PolicyProblemsExactly | verify/receipts.go:856-889 | No problem is counted exactly when no policy record lacks a new version and no windows record is out of place |
| LogPolicies.LastExactly | verify/receipts.go:821-823 | The log's last time is that of the last record whose time parses |
| LogPolicies.ReadInOrder | verify/receipts.go:818-948 | Policies, decisions, acceptances and closes are each held once and in the order of the log |
| FieldReads.RecordReads | verify/receipts.go:819-823 | A record's action is its text and its time what parses of received_at |
| LogContents.StateExactly | verify/receipts.go:825-833 | The registry is paused or archived exactly where the last record about its state says so |
| LogContents.CredentialsExactly | verify/receipts.go:891-908 | A credential is held, with this expiry, exactly when the last record about it, an issue, a snapshot, a revocation or an expiry, lists it with that expiry |
| LogContents.CredentialProblemsExactly | verify/receipts.go:926-938 | Rule 9 counts exactly the accepted records whose credential the last earlier record about it does not list, or lists with an expiry that does not parse or that the time received is not before |
| LogContents.DecisionsExactly | verify/receipts.go:914-924 | A decision is read exactly from each ingress record that carries an object, in the state the records up to it leave |
| LogContents.AcceptancesExactly | verify/receipts.go:926-948 | An acceptance is read exactly from each ingress.accepted record that carries an object |
| LogContents.ClosesExactly | verify/receipts.go:910-913 | A close is read exactly from each window.closed record that carries an object |
| PolicyRules.CheckTimeOrder | verify/receipts.go:998-1016 | Reports once, at the first event out of time order |
| PolicyRules.CheckAmendments | verify/receipts.go:1050-1080 | Reports what each policy and each amendment is at fault for |
| PolicyRules.AmendmentsSucceed | verify/receipts.go:1050-1080 | With rule 4 silent versions run 1, 2, 3, ..., each recorded once its predecessor is in effect and effective at least an hour later |
| RuleByRule.OrderedExactly | verify/receipts.go:998-1016 | A log is in time order exactly when every time parses and none is before the one preceding it |
| RuleByRule.HashesExactly | verify/receipts.go:951-974 | No policy counts exactly when each, its windows joined back, all present and counted, prints to what its policy_hash is over |
| RuleByRule.AmendmentsExactly | verify/receipts.go:1046-1080 | Rule 4 is silent exactly when every policy is this registry's with the required delay and a notice in bounds where it has one, the first is version 1 committed, and each later one amends the one before it, under notice, once that is in effect and no sooner than the notice that one promised |
| RuleByRule.GovernsExactly | verify/receipts.go:1085-1093 | The policy in force is the last one recorded before then and effective by that time, and there is one exactly where some policy is |
| RuleByRule.DecisionExactly | verify/receipts.go:1098-1196 | Rule 5 is silent on a decision exactly when the registry was in the state its outcome needs, it names the hash of the policy in force, and its window and the key's first acceptance bear it out, outcome by outcome |
| PolicyRules.InForceAt | verify/receipts.go:1085-1093 | The last policy recorded before a decision and effective by then |
| PolicyInForce.ReadFromRecords | verify/receipts.go:818-939 | Every policy and decision read comes from a record of the log |
| PolicyInForce.FilterRedundant | verify/receipts.go:1085-1093 | With both time checks and rules 2 to 4 passed, the filter on where a policy was recorded changes nothing |
| PolicyInForce.InForceAlongTheLog | verify/receipts.go:1046-1093 | The policy in force is a function of time alone and its version never goes back along the log; effective_at strictly increases |
| Reconcile.CheckDecisions | verify/receipts.go:1094-1196 | Reports what each decision is at fault for under the policy in force and the first acceptance of its key |
| Accounting.MatchAcceptances | verify/receipts.go:1215-1247 | Reports acceptances the registry does not hold as they say, and counts the claims on each event |
| Accounting.MatchParents | verify/receipts.go:1248-1263 | Reports registry events not claimed exactly once |
| Accounting.CheckKeys | verify/receipts.go:1265-1278 | Reports acceptances without a key or of a key seen before |
| Accounting.CheckReceipts | verify/receipts.go:1391-1422 | Reports receipts the log does not hold, or that may be logged later |
| WindowCloses.CheckCloses | verify/receipts.go:1280-1360 | Reports closes that name no window, repeat one or tell an untruth, and due windows no record closes |
| WindowCloses.ClosesOnce | verify/receipts.go:1286-1329 | With rule 8 silent every window.closed names a window its policy holds and tells whether the key was accepted before it closed, and no version and key is closed twice |
| WindowCloses.DueWindowsClose | verify/receipts.go:1331-1360 | With rule 8 silent every window long closed under the version in force at its close has a window.closed |
| ClosesExactly.RecordsExactly | verify/receipts.go:1280-1329 | Closes report nothing exactly when each names a window of the policy of its hash with that close, no two name one version and key, and each says committed with the sequence accepted before the close, or missing, as the log has it |
| ClosesExactly.DuesExactly | verify/receipts.go:1331-1360 | No close is missed exactly when every window whose close and grace passed before the last record has one, unless another version was in force at its close |
| Reconciled.ReconcileRegistry | verify/receipts.go:979-1425 | Stops at rule 1 if the log is not the registry's; otherwise the rules report in order, failures and unconfirmed items apart |
| AccountedFor.SilentGoverns | verify/receipts.go:993-1093 | Silent rules 1 to 5, with record 1 read as the first policy, are what the results on the policy in force ask for |
| ReconciledExactly.AcceptExactly | verify/receipts.go:1215-1247 | An acceptance stands exactly when it claims an event the registry holds with the same entry hash, request digest and time, and waits exactly when that event may be sealed later |
| ReconciledExactly.ParentExactly | verify/receipts.go:1248-1263 | An event stands exactly when just one acceptance claims it, and waits exactly when its decision may be logged later |
| ReconciledExactly.ReceiptExactly | verify/receipts.go:1391-1418 | A receipt stands exactly when the log holds its record and nothing in it differs, and waits exactly when it may be logged later |
| ReconciledExactly.ReportsExactly | verify/receipts.go:979-1425 | Rule by rule: of a log that is the registry's a check is reported exactly where what it asks is broken, and waits exactly where a later export may settle it; of any other log only that is reported |
| ReconciledExactly.ReconcilesExactly | verify/receipts.go:979-1425 | Nothing is reported or waits exactly when the log is the registry's, no rule is broken and none waits |
| RequestDigests.DigestExactly | verify/receipts.go:209-235 | Every event has a request digest, and two have the same exactly when the six values submitted are the same, given no collision |
| Reconcile.RequestFields | verify/receipts.go:209-235 | The digest is over an object of just six members, each by its name |
| Reconcile.LastAtIsLatest | verify/receipts.go:1206-1214 | The registry's last time is one of its events' and none is later |
| AccountedFor.AccountsForEverything | verify/receipts.go:1198-1278 | Silent rules 5 to 7 put accepted records and registry events in bijection, with hashes, digests and times agreeing and no key twice |
| AccountedFor.RepeatsFollow | verify/receipts.go:1152-1196 | Every replay and conflict comes after its key's one acceptance in the log and names that same registry event; a replay repeats the digest the acceptance's accepted object states and a conflict does not, while the event recomputes to the digest the acceptance itself logs |
| AccountedFor.DecisionsFollowPolicy | verify/receipts.go:1110-1196 | With rule 5 silent every decision names the policy in force when it was made, and accepted, repeated, early and late ones lie on the right side of their window's ends while the registry is active |
| LaterCompleteness.AcceptSettles | verify/receipts.go:1222-1234 | Known complete later, an acceptance stands as before or goes from unconfirmed to failed |
| LaterCompleteness.VerdictIsMonotone | verify/receipts.go:1228-1262 | For fixed bundles and receipts, later anchors leave each acceptance, event and receipt as it stood or turn it from unconfirmed to failed and change nothing else: PASS and FAIL never change |
| Collection.CollectionStream.Take | verify/collection.go:168-485 | One record reports and changes its own stream as the rules say |
| Collection.CheckCollectionRecords | verify/collection.go:122-486 | One pass over the lines reports what the rules say of every collection record and keeps every resource's state |
| CollectionFields.EntriesExactly | verify/collection.go:136-160 | The records of a pass are those of the lines that hold one, each in its place |
| CollectionFields.EntryExactly | verify/collection.go:145-152 | An event is a record exactly with one of the five actions, on the resource of a connection stream, with an integer sequence |
| CollectionFields.WithheldExactly | verify/collection.go:168-185 | A record is withheld exactly when its payload state is redacted or its payload absent or null |
| CollectionFields.FieldsExactly | verify/collection.go:213-372 | A gap's id, a day, a supplement and an index are read exactly where the payload has them in form |
| CollectionFields.CursorsExactly | verify/collection.go:53-63 | Cursors agree exactly when both print and they are the same value up to member order |
| CollectionExact.RecordExactly | verify/collection.go:168-485 | One record is silent exactly when, of its stream's records so far, it is right: a configuration, the next receipt, a new gap, a known gap healed, or a settlement exact in receipts, gaps, state and supplement |
| CollectionExact.StateExactly | verify/collection.go:452-458 | A settlement whose gaps are right is in a right state exactly when it says gapped where some listed gap is unhealed, and settled otherwise |
| CollectionExact.StreamExactly | verify/collection.go:168-485 | A stream alone is silent exactly when each record is right of those before it |
| CollectionExact.CollectionExactly | verify/collection.go:122-486 | The pass over all streams is silent exactly when each stream's records are right |
| CollectionChains.InterleavedIsAlone | verify/collection.go:136-486 | The pass reports nothing exactly when every resource's records alone report nothing |
| CollectionChains.StateIsOwn | verify/collection.go:160-166 | Each stream's state is what its own records alone give |
| CollectionChains.LinkExactly | verify/collection.go:260-282 | At the head of a chain the rule on links is silent exactly when the receipt is the next of it |
| CollectionChains.ReceiptsChain | verify/collection.go:213-290 | In a bundle from sequence 1 with nothing reported and no redacted receipt, receipts are numbered 1..k, linked by hash from the zero hash, and continuous in cursor where the earlier one left a cursor |
| CollectionChains.SettlementCounts | verify/collection.go:384-409 | Each settlement names the latest receipt before it and counts them exactly |
| CollectionLedger.ListedGaps | verify/collection.go:411-451 | Each listed gap was declared earlier with the stated bounds, reason and healed flag |
| CollectionLedger.SupplementExactly | verify/collection.go:460-484 | The rule on supplements is silent exactly when the settlement is the next one of its day |
| CollectionLedger.SupplementsRise | verify/collection.go:460-484 | A day's supplements rise by one, each naming the settlement before it; a settlement is number 0 exactly when it names none |
| CollectionInputs.UnresolvedSettlement | verify/collection.go:460-484 | A chain that passes from sequence 1 although a day's first settlement, of any number above 0, names one at sequence 0 |
| CollectionInputs.UncheckedCursor | verify/collection.go:268-290 | A chain that passes although its second receipt goes on from any cursor whatever, the first having left none |
| CollectionLedger.PassedStreams | verify/collection.go:122-486 | In a passing bundle from sequence 1 with no redacted receipt and nothing reported, every receipt of every resource is the next of its chain and every settlement is exact in receipts, gaps and supplement |
| CollectionLedger.WalkHashes | verify/collection.go:169 | On a passing walk every collection record's entry hash is a digest |
| Der.ReadElement | internal/tst/der.go:36-81 | Reads one element, or refuses with the source's reason |
| Der.Children | internal/tst/der.go:85-100 | Reads every element back to back, or gives the error of the first that cannot be read |
| DerForms.ReadExactly | internal/tst/der.go:36-81 | An element is read exactly where tag, length and content stand: a length in one octet below 128, or in one to four octets that give it, leading zeros included |
| DerForms.RefusedBecause | internal/tst/der.go:36-81 | Each of the four refusals is given exactly for its own reason |
| Der.Reencode | internal/tst/der.go:104-128 | Writes the minimal header and the content |
| Der.ReadOfEncode | internal/tst/der.go:36-128 | Reading what was written gives it back wherever it stands and whatever follows; refused exactly for tag number 31 and contents of 2^32 bytes or more |
| Der.EncodeOfRead | internal/tst/der.go:36-128 | What was read is written in no more bytes, and in the same ones exactly where its length was minimal |
| Der.MinimalIsShortest | internal/tst/der.go:118-122 | No encoding of a length is shorter than its minimal bytes |
| Der.ChildrenOfEncodeAll | internal/tst/der.go:85-128 | Children of concatenated re-encodings are the elements |
| DerDeep.ReencodeDeep | internal/tst/der.go:136-150 | The recursion over children ends, on content length, and writes the element with every length inside it minimal |
| DerDeep.ReencodeDeepOfRead | internal/tst/der.go:136-150 | What is read re-encodes to no more bytes, reads back whole, and re-encodes to the same bytes |
| DerDeep.TreeOfDeep | internal/tst/der.go:130-150 | Re-encoding keeps tags, nesting and the content of whatever does not parse |
| DerDeep.CanonicalForm | internal/tst/der.go:130-150 | Two elements re-encode alike exactly when they differ only in how their lengths were written |
| Pss.Increment | internal/tst/crypto.go:490-495 | The carry loop adds one to the counter, wrapping after the largest |
| Pss.Mgf1Any | internal/tst/crypto.go:477-498 | The mask does not depend on how many blocks beyond the needed ones are made |
| Pss.Mgf1Xor | internal/tst/crypto.go:478-498 | The in-place loop with carry applies the MGF1 mask of the seed |
| Pss.Unmask | internal/tst/crypto.go:448-455 | Masking and unmasking undo each other where the first octet has no high bits |
| Pss.GoodExactly | internal/tst/crypto.go:433-474 | A block of the encoded length passes exactly when it is the encoding of the data with some salt of the stated length |
| Pss.VerifyPss | internal/tst/crypto.go:413-475 | Accepts exactly the zero-padded EMSA-PSS encodings of the data with some salt of the stated length, for every modulus length and digest size |
| PssBits.EncodedExactly | internal/tst/crypto.go:428-475 | An encoding, octet by octet and bit by bit: the trailer, the hash, and the masked padding, mark and salt with the bits beyond the modulus zero |

## Left out

- Zip, directory and line reading, file loading, the command line and report rendering: a bundle is already read, blank lines
  and lines too long included.
- SHA-256, Ed25519, RSA and the other primitives: SHA-256 is a function given no value, the RSA step's block and every
  signature's validity are inputs.
- manifest.json's own checks (known formats, key list, range types): the stream, the range and the keys are given, decoded.
- `redactions.json` parsing: the declared sequences are given as a set.
- Message text, notes, fingerprints, counts kept only for reports, and the run's reason codes.
- Dates, regular expressions and floats: a timestamp's meaning is a function given no value, floats matter only as
  unprintable and as text of at most 24 characters, and equality of floats is equality of the numbers that name them.
- Anchors, certificates, tokens, SigilSign cross-checks and receipt signatures: long sequences of local checks. What they
  report is an input of `WholeBundle.VerifyWhole`.
- Accounting.CheckReceipts: reading a receipt file, setting aside receipts of another stream and checking a receipt's own
  signature come before the part modelled, and comparing a receipt with its record is an input. After a receipt that passes,
  the source also checks its subject (`checkReceiptSubject`, reasons RECEIPT_SUBJECT and MSD_BREACH), which is not modelled.
- Reconciled.ReconcileRegistry: rule 10 is the part `Accounting.CheckReceipts` models; receipts come read, signed and compared.
- connection.json (rule 7 of the collection records): what it reports is an input of `WholeBundle.VerifyWhole`.
- Walk.VerifyBundle: the sections after the checkpoints are in `WholeBundle.VerifyWhole`.
- Sharing of slices: Go's sub-slices alias their array; here they are values, which the source never relies on.
- `sort.Slice`: a sort of the index slice in place by the same comparison, as an insertion sort; the keys are distinct, so
  every sort gives the same order.
- Reconcile.View: `order` is taken ascending, as a bundle whose walk passed makes it, so the source's sorts of it are left out.
- Der.Reencode: contents up to 2^63-1 bytes, the lengths a Go `int` can hold.
