/** verify/walk.go: exactly which lines are events, and what each says. */
module LineGrammar {
  import opened Bytes
  import opened JsonValue
  import opened JsonSyntax
  import opened JsonGrammar
  import opened WalkRules

  /** A line is read as an event exactly where it spells an object, no key of which begins with NUL. */
  lemma DecodeExactly(line: Bytes, v: Value)
    ensures Decode(line) == Some(v) <==> v.Object? && exists s :: Spells(false, s, line, v)
  {
    hide Document, Spells;
    ParsesExactly(false, line, v);
  }
}
