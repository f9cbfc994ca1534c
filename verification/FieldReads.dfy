/** verify/walk.go, verify/receipts.go: which field of an event, a checkpoint or a log record each check reads. */
module FieldReads {
  import opened Bytes
  import opened JsonValue
  import opened PhpValues
  import opened WalkRules
  import opened WalkTrees
  import opened CheckpointRules
  import opened RegistryTime
  import opened RegistryLog

  /** An event's sequence is an integer, its entry hash is read in either case, and it is present unless it says not. */
  lemma EventReads(ev: Option<Value>, n: int, s: Bytes)
    ensures SeqOf(ev) == Some(n) <==> Field(ev, "seq") == Some(Int(n))
    ensures Field(ev, "entry_hash") == Some(String(s)) ==> EntryText(ev) == Lower(s)
    ensures Absent(ev) <==>
            && Field(ev, "payload_state") == Some(String(Ascii("redacted")))
            && (Field(ev, "payload") == None || Field(ev, "payload") == Some(Null))
  {
    hide Lookup, Ascii, Lower;
    PresentIsNotRedacted();
  }

  lemma PresentIsNotRedacted()
    ensures Ascii("present") != Ascii("redacted")
  {
    assert |Ascii("redacted")| == 8 && |Ascii("present")| == 7;
  }

  /** A checkpoint's range is its two integers, and its own hash is read in either case. */
  lemma CheckpointReads(cp: Value, r: Sealed, s: Bytes)
    ensures RangeOf(cp) == Some(r) <==>
            Field(Some(cp), "from") == Some(Int(r.from)) && Field(Some(cp), "to") == Some(Int(r.to))
    ensures Field(Some(cp), "checkpoint_hash") == Some(String(s)) ==> CheckpointText(cp) == Lower(s)
  {
    hide Lookup, Ascii, Lower;
  }

  /** A record's action is text, and the time it was received is what parses of it. */
  lemma RecordReads(record: Value, s: Bytes)
    ensures Field(Some(record), "action") == Some(String(s)) ==> Action(record) == s
    ensures Field(Some(record), "received_at") == Some(String(s)) ==> ReceivedAt(record) == ParseTime(Some(String(s)))
  {
    hide Lookup, Ascii;
  }
}
