/**
 * internal/cjson/parse.go: the language of documents, written down as trees that are spelled and denote values without
 * saying how they are read, and the proof that the parser reads exactly that language.
 */
module JsonGrammar {
  import opened Bytes
  import opened JsonValue
  import opened JsonSyntax
  import opened JsonScalars
  import opened JsonRoundTrip
  import opened JsonStrings
  import opened JsonNumerals

  datatype Text =
    | Word(v: Value)
    | Numeric(numeral: Numeral)
    | Quoted(pieces: seq<Piece>)
    | Bracketed(gap: Bytes, slots: seq<Slot>)
    | Braced(gap: Bytes, pairs: seq<Pair>)

  /** A value with the space around it. */
  datatype Slot = Slot(before: Bytes, text: Text, after: Bytes)

  datatype Pair = Pair(before: Bytes, key: seq<Piece>, between: Bytes, slot: Slot)

  // ---- what is well formed

  predicate Gap(s: Bytes)
  {
    forall i :: 0 <= i < |s| ==> s[i] == 0x20 || s[i] == 0x09 || s[i] == 0x0A || s[i] == 0x0D
  }

  /** Fewer than 512 containers around any value, and NUL at the head of a key only where it is allowed. */
  ghost predicate GoodText(assoc: bool, t: Text, depth: nat)
    decreases t
  {
    match t
    case Word(v) => v.Null? || v.Bool?
    case Numeric(n) => GoodNumeral(n)
    case Quoted(pieces) => GoodPieces(pieces)
    case Bracketed(gap, slots) => depth + 1 < 512 && Gap(gap) && GoodSlots(assoc, slots, depth + 1)
    case Braced(gap, pairs) => depth + 1 < 512 && Gap(gap) && GoodPairs(assoc, pairs, depth + 1)
  }

  ghost predicate GoodSlot(assoc: bool, s: Slot, depth: nat)
    decreases s
  {
    Gap(s.before) && Gap(s.after) && GoodText(assoc, s.text, depth)
  }

  ghost predicate GoodPair(assoc: bool, p: Pair, depth: nat)
    decreases p
  {
    && Gap(p.before) && Gap(p.between) && GoodPieces(p.key) && GoodSlot(assoc, p.slot, depth)
    && (assoc || MeanPieces(p.key) == [] || MeanPieces(p.key)[0] != 0)
  }

  ghost predicate GoodSlots(assoc: bool, slots: seq<Slot>, depth: nat)
    decreases slots
  {
    forall i :: 0 <= i < |slots| ==> GoodSlot(assoc, slots[i], depth)
  }

  ghost predicate GoodPairs(assoc: bool, pairs: seq<Pair>, depth: nat)
    decreases pairs
  {
    forall i :: 0 <= i < |pairs| ==> GoodPair(assoc, pairs[i], depth)
  }

  // ---- how it is spelled

  function SpellWord(v: Value): Bytes
  {
    if v == Bool(true) then Ascii("true") else if v == Bool(false) then Ascii("false") else Ascii("null")
  }

  function Spell(t: Text): Bytes
    decreases t
  {
    match t
    case Word(v) => SpellWord(v)
    case Numeric(n) => SpellNumeral(n)
    case Quoted(pieces) => [0x22] + (SpellPieces(pieces) + [0x22])
    case Bracketed(gap, slots) => [0x5B] + ((if slots == [] then gap else SpellSlots(slots)) + [0x5D])
    case Braced(gap, pairs) => [0x7B] + ((if pairs == [] then gap else SpellPairs(pairs)) + [0x7D])
  }

  function SpellSlot(s: Slot): Bytes
    decreases s
  {
    s.before + (Spell(s.text) + s.after)
  }

  function SpellSlots(slots: seq<Slot>): Bytes
    decreases slots
  {
    if slots == [] then []
    else if |slots| == 1 then SpellSlot(slots[0])
    else SpellSlot(slots[0]) + ([0x2C] + SpellSlots(slots[1..]))
  }

  function SpellPair(p: Pair): Bytes
    decreases p
  {
    p.before + ([0x22] + (SpellPieces(p.key) + [0x22]) + (p.between + ([0x3A] + SpellSlot(p.slot))))
  }

  function SpellPairs(pairs: seq<Pair>): Bytes
    decreases pairs
  {
    if pairs == [] then []
    else if |pairs| == 1 then SpellPair(pairs[0])
    else SpellPair(pairs[0]) + ([0x2C] + SpellPairs(pairs[1..]))
  }

  // ---- what it denotes

  function Denote(t: Text): Value
    decreases t
  {
    match t
    case Word(v) => v
    case Numeric(n) => DenoteNumeral(n)
    case Quoted(pieces) => String(MeanPieces(pieces))
    case Bracketed(_, slots) => Array(DenoteSlots(slots))
    case Braced(_, pairs) => Object(Gather([], pairs))
  }

  function DenoteSlots(slots: seq<Slot>): (items: seq<Value>)
    ensures |items| == |slots|
    decreases slots
  {
    if slots == [] then [] else [Denote(slots[0].text)] + DenoteSlots(slots[1..])
  }

  /** Of two members of one name the later value stays, in the earlier place. */
  function Gather(ms: seq<Member>, pairs: seq<Pair>): seq<Member>
    decreases pairs
  {
    if pairs == [] then ms
    else Gather(Put(ms, MeanPieces(pairs[0].key), Denote(pairs[0].slot.text)), pairs[1..])
  }

  // ---- gaps

  lemma {:induction false} SkipGap(data: Bytes, pos: nat, gap: Bytes)
    requires Placed(data, pos, gap) && Gap(gap) && (pos + |gap| == |data| || !Space(data[pos + |gap|]))
    ensures SkipSpace(data, pos) == pos + |gap|
    decreases |gap|
  {
    if gap != [] {
      assert gap == gap[..1] + gap[1..];
      PlacedSplit(data, pos, gap[..1], gap[1..]);
      PlacedAt(data, pos, gap, 0);
      SkipGap(data, pos + 1, gap[1..]);
    }
  }

  lemma {:induction false} GapOf(data: Bytes, pos: nat)
    requires pos <= |data|
    ensures var end := SkipSpace(data, pos);
            Gap(data[pos..end]) && (end == |data| || !Space(data[end]))
    decreases |data| - pos
  {
    if pos < |data| && Space(data[pos]) {
      GapOf(data, pos + 1);
      var end := SkipSpace(data, pos + 1);
      assert data[pos..end] == [data[pos]] + data[pos + 1..end];
    }
  }

  /** A gap before something that is none ends where that begins. */
  lemma EndsAfter(data: Bytes, pos: nat, gap: Bytes)
    requires Placed(data, pos, gap) && Gap(gap) && Ends(data, pos + |gap|)
    ensures Ends(data, pos)
  {
    if gap != [] {
      PlacedAt(data, pos, gap, 0);
    }
  }

  // ---- what is spelled is read

  /** A value begins with something that is neither space nor the end of one. */
  lemma TextBegins(assoc: bool, t: Text, depth: nat)
    requires GoodText(assoc, t, depth)
    ensures Spell(t) != [] && !Space(Spell(t)[0]) && Spell(t)[0] != 0x5D
  {
    hide SpellPieces, SpellSlots, SpellPairs;
  }

  lemma ReadText(assoc: bool, data: Bytes, pos: nat, depth: nat, t: Text)
    requires GoodText(assoc, t, depth) && Placed(data, pos, Spell(t)) && Ends(data, pos + |Spell(t)|)
    ensures pos <= |data| && PValue(assoc, data, pos, depth) == Ok(Denote(t), pos + |Spell(t)|)
    decreases t, 1
  {
    hide *;
    match t {
      case Word(v) => ReadWord(assoc, data, pos, depth, t);
      case Numeric(n) => ReadNumeric(assoc, data, pos, depth, t);
      case Quoted(pieces) => ReadQuoted(assoc, data, pos, depth, t);
      case Bracketed(gap, slots) => ReadBracketed(assoc, data, pos, depth, t);
      case Braced(gap, pairs) => ReadBraced(assoc, data, pos, depth, t);
    }
  }

  lemma ReadWord(assoc: bool, data: Bytes, pos: nat, depth: nat, t: Text)
    requires t.Word? && GoodText(assoc, t, depth) && Placed(data, pos, Spell(t))
    ensures pos <= |data| && PValue(assoc, data, pos, depth) == Ok(Denote(t), pos + |Spell(t)|)
  {
    hide *;
    WordSpelled(assoc, t, depth);
    PlacedAt(data, pos, Spell(t), 0);
    PlacedWord(data, pos, Spell(t));
    WordTurn(assoc, data, pos, depth);
  }

  lemma WordSpelled(assoc: bool, t: Text, depth: nat)
    requires t.Word? && GoodText(assoc, t, depth)
    ensures Denote(t) == t.v && Spell(t) != []
    ensures || (t.v == Bool(true) && Spell(t) == Ascii("true") && Spell(t)[0] == 0x74)
            || (t.v == Bool(false) && Spell(t) == Ascii("false") && Spell(t)[0] == 0x66)
            || (t.v == Null && Spell(t) == Ascii("null") && Spell(t)[0] == 0x6E)
  {
  }

  lemma WordTurn(assoc: bool, data: Bytes, pos: nat, depth: nat)
    requires pos < |data|
    ensures data[pos] == 0x74 ==> PValue(assoc, data, pos, depth) == Literal(data, pos, Ascii("true"), Bool(true))
    ensures data[pos] == 0x66 ==> PValue(assoc, data, pos, depth) == Literal(data, pos, Ascii("false"), Bool(false))
    ensures data[pos] == 0x6E ==> PValue(assoc, data, pos, depth) == Literal(data, pos, Ascii("null"), Null)
  {
    hide Literal, Ascii;
  }

  lemma ReadNumeric(assoc: bool, data: Bytes, pos: nat, depth: nat, t: Text)
    requires t.Numeric? && GoodText(assoc, t, depth) && Placed(data, pos, Spell(t)) && Ends(data, pos + |Spell(t)|)
    ensures pos <= |data| && PValue(assoc, data, pos, depth) == Ok(Denote(t), pos + |Spell(t)|)
  {
    hide Placed, Ends, GoodNumeral, SpellNumeral, DenoteNumeral, Number;
    ReadNumeral(data, pos, t.numeral);
  }

  lemma ReadQuoted(assoc: bool, data: Bytes, pos: nat, depth: nat, t: Text)
    requires t.Quoted? && GoodText(assoc, t, depth) && Placed(data, pos, Spell(t))
    ensures pos <= |data| && PValue(assoc, data, pos, depth) == Ok(Denote(t), pos + |Spell(t)|)
  {
    hide Placed, GoodPieces, SpellPieces, MeanPieces, Str;
    PlacedSplit(data, pos, [0x22], SpellPieces(t.pieces) + [0x22]);
    PlacedAt(data, pos, [0x22], 0);
    ReadPieces(data, pos + 1, t.pieces, []);
    assert [] + MeanPieces(t.pieces) == MeanPieces(t.pieces);
  }

  /** A value with its space, before a comma, a closing bracket or the end. */
  lemma ReadSlot(assoc: bool, data: Bytes, pos: nat, depth: nat, s: Slot)
    requires GoodSlot(assoc, s, depth) && Placed(data, pos, SpellSlot(s)) && Delimited(data, pos + |SpellSlot(s)|)
    ensures pos <= SkipSpace(data, pos) < |data| && data[SkipSpace(data, pos)] != 0x5D
    ensures var r := PValue(assoc, data, SkipSpace(data, pos), depth);
            r.Ok? && r.value == Denote(s.text) && SkipSpace(data, r.pos) == pos + |SpellSlot(s)|
    decreases s, 0
  {
    hide *;
    SlotParts(assoc, s, depth);
    PlacedSplit(data, pos, s.before, Spell(s.text) + s.after);
    PlacedSplit(data, pos + |s.before|, Spell(s.text), s.after);
    var start := pos + |s.before|;
    TextBegins(assoc, s.text, depth);
    PlacedAt(data, start, Spell(s.text), 0);
    SkipGap(data, pos, s.before);
    DelimitedEnds(data, start + |Spell(s.text)| + |s.after|);
    EndsAfter(data, start + |Spell(s.text)|, s.after);
    ReadText(assoc, data, start, depth, s.text);
    SkipGap(data, start + |Spell(s.text)|, s.after);
  }

  lemma SlotParts(assoc: bool, s: Slot, depth: nat)
    requires GoodSlot(assoc, s, depth)
    ensures Gap(s.before) && Gap(s.after) && GoodText(assoc, s.text, depth)
    ensures SpellSlot(s) == s.before + (Spell(s.text) + s.after)
  {
  }

  lemma DelimitedEnds(data: Bytes, pos: nat)
    requires Delimited(data, pos)
    ensures Ends(data, pos) && (pos >= |data| || !Space(data[pos]))
  {
  }

  lemma ReadBracketed(assoc: bool, data: Bytes, pos: nat, depth: nat, t: Text)
    requires t.Bracketed? && GoodText(assoc, t, depth) && Placed(data, pos, Spell(t))
    ensures pos <= |data| && PValue(assoc, data, pos, depth) == Ok(Denote(t), pos + |Spell(t)|)
    decreases t, 0
  {
    hide *;
    BracketedParts(assoc, t, depth);
    var inner := if t.slots == [] then t.gap else SpellSlots(t.slots);
    PlacedSplit(data, pos, [0x5B], inner + [0x5D]);
    BytePlaced(data, pos, 0x5B);
    PArrayStep(assoc, data, pos, depth);
    if t.slots == [] {
      CloseGap(data, pos + 1, t.gap, 0x5D);
    } else {
      ReadSlots(assoc, data, pos + 1, depth + 1, t.slots, []);
      assert [] + DenoteSlots(t.slots) == DenoteSlots(t.slots);
    }
  }

  lemma BracketedParts(assoc: bool, t: Text, depth: nat)
    requires t.Bracketed? && GoodText(assoc, t, depth)
    ensures depth + 1 < MAX_DEPTH && Gap(t.gap) && GoodSlots(assoc, t.slots, depth + 1)
    ensures Spell(t) == [0x5B] + ((if t.slots == [] then t.gap else SpellSlots(t.slots)) + [0x5D])
    ensures Denote(t) == Array(DenoteSlots(t.slots)) && DenoteSlots([]) == []
  {
  }

  lemma BytePlaced(data: Bytes, pos: nat, b: byte)
    requires Placed(data, pos, [b])
    ensures ByteAt(data, pos, b) && pos < |data| && data[pos] == b
  {
    PlacedAt(data, pos, [b], 0);
  }

  /** Nothing but space before a closing bracket. */
  lemma CloseGap(data: Bytes, pos: nat, gap: Bytes, b: byte)
    requires Gap(gap) && Placed(data, pos, gap + [b]) && (b == 0x5D || b == 0x7D)
    ensures pos <= |data| && SkipSpace(data, pos) == pos + |gap| && ByteAt(data, pos + |gap|, b)
  {
    hide Placed, Gap, SkipSpace;
    PlacedSplit(data, pos, gap, [b]);
    BytePlaced(data, pos + |gap|, b);
    SkipGap(data, pos, gap);
  }

  lemma {:induction false} ReadSlots(assoc: bool, data: Bytes, pos: nat, depth: nat, slots: seq<Slot>,
                                     acc: seq<Value>)
    requires slots != [] && GoodSlots(assoc, slots, depth) && Placed(data, pos, SpellSlots(slots) + [0x5D])
    ensures pos <= |data| && !ByteAt(data, SkipSpace(data, pos), 0x5D)
    ensures PItems(assoc, data, SkipSpace(data, pos), depth, acc) ==
              Ok(Array(acc + DenoteSlots(slots)), pos + |SpellSlots(slots)| + 1)
    decreases slots, 0
  {
    hide *;
    SlotsHead(assoc, slots, depth);
    SlotsPlaced(assoc, data, pos, depth, slots);
    var s := slots[0];
    var end := pos + |SpellSlot(s)|;
    ReadSlot(assoc, data, pos, depth, s);
    NotByte(data, SkipSpace(data, pos), 0x5D);
    ItemsTurn(assoc, data, SkipSpace(data, pos), depth, acc);
    if |slots| == 1 {
      assert slots[1..] == [];
      assert acc + ([Denote(s.text)] + []) == acc + [Denote(s.text)];
    } else {
      ReadSlots(assoc, data, end + 1, depth, slots[1..], acc + [Denote(s.text)]);
      assert acc + [Denote(s.text)] + DenoteSlots(slots[1..]) == acc + ([Denote(s.text)] + DenoteSlots(slots[1..]));
    }
  }

  lemma SlotsPlaced(assoc: bool, data: Bytes, pos: nat, depth: nat, slots: seq<Slot>)
    requires slots != [] && GoodSlots(assoc, slots, depth) && Placed(data, pos, SpellSlots(slots) + [0x5D])
    ensures var end := pos + |SpellSlot(slots[0])|;
            && Placed(data, pos, SpellSlot(slots[0])) && Delimited(data, end) && SkipSpace(data, end) == end
            && if |slots| == 1 then ByteAt(data, end, 0x5D)
               else ByteAt(data, end, 0x2C) && Placed(data, end + 1, SpellSlots(slots[1..]) + [0x5D])
  {
    hide *;
    SlotsHead(assoc, slots, depth);
    var s := slots[0];
    var after := if |slots| == 1 then [0x5D] else [0x2C] + (SpellSlots(slots[1..]) + [0x5D]);
    assert SpellSlots(slots) + [0x5D] == SpellSlot(s) + after;
    PlacedSplit(data, pos, SpellSlot(s), after);
    var end := pos + |SpellSlot(s)|;
    PlacedAt(data, end, after, 0);
    Closes(data, end, after[0]);
    if |slots| > 1 {
      PlacedSplit(data, end, [0x2C], SpellSlots(slots[1..]) + [0x5D]);
    }
  }

  lemma NotByte(data: Bytes, pos: nat, b: byte)
    requires pos < |data| && data[pos] != b
    ensures !ByteAt(data, pos, b)
  {
  }

  lemma SlotsHead(assoc: bool, slots: seq<Slot>, depth: nat)
    requires slots != [] && GoodSlots(assoc, slots, depth)
    ensures GoodSlot(assoc, slots[0], depth) && GoodSlots(assoc, slots[1..], depth)
    ensures SpellSlots(slots) ==
            if |slots| == 1 then SpellSlot(slots[0]) else SpellSlot(slots[0]) + ([0x2C] + SpellSlots(slots[1..]))
    ensures DenoteSlots(slots) == [Denote(slots[0].text)] + DenoteSlots(slots[1..]) && DenoteSlots([]) == []
  {
    hide GoodSlot;
  }

  /** One turn of the loop over items. */
  lemma ItemsTurn(assoc: bool, data: Bytes, pos: nat, depth: int, acc: seq<Value>)
    requires pos <= |data| && PValue(assoc, data, pos, depth).Ok?
    ensures var r := PValue(assoc, data, pos, depth);
            && r.pos <= |data|
            && var next := SkipSpace(data, r.pos);
               && (ByteAt(data, next, 0x5D) ==>
                     PItems(assoc, data, pos, depth, acc) == Ok(Array(acc + [r.value]), next + 1))
               && (ByteAt(data, next, 0x2C) ==>
                     && next < |data|
                     && PItems(assoc, data, pos, depth, acc) ==
                        PItems(assoc, data, SkipSpace(data, next + 1), depth, acc + [r.value]))
               && (PItems(assoc, data, pos, depth, acc).Ok? ==> ByteAt(data, next, 0x5D) || ByteAt(data, next, 0x2C))
  {
    hide PValue, SkipSpace, Unexpected;
  }

  lemma ReadBraced(assoc: bool, data: Bytes, pos: nat, depth: nat, t: Text)
    requires t.Braced? && GoodText(assoc, t, depth) && Placed(data, pos, Spell(t))
    ensures pos <= |data| && PValue(assoc, data, pos, depth) == Ok(Denote(t), pos + |Spell(t)|)
    decreases t, 0
  {
    hide *;
    BracedParts(assoc, t, depth);
    var inner := if t.pairs == [] then t.gap else SpellPairs(t.pairs);
    PlacedSplit(data, pos, [0x7B], inner + [0x7D]);
    BytePlaced(data, pos, 0x7B);
    PObjectStep(assoc, data, pos, depth);
    if t.pairs == [] {
      CloseGap(data, pos + 1, t.gap, 0x7D);
    } else {
      ReadPairs(assoc, data, pos + 1, depth + 1, t.pairs, []);
    }
  }

  lemma BracedParts(assoc: bool, t: Text, depth: nat)
    requires t.Braced? && GoodText(assoc, t, depth)
    ensures depth + 1 < MAX_DEPTH && Gap(t.gap) && GoodPairs(assoc, t.pairs, depth + 1)
    ensures Spell(t) == [0x7B] + ((if t.pairs == [] then t.gap else SpellPairs(t.pairs)) + [0x7D])
    ensures Denote(t) == Object(Gather([], t.pairs)) && Gather([], []) == []
  {
  }

  lemma {:induction false} ReadPairs(assoc: bool, data: Bytes, pos: nat, depth: nat, pairs: seq<Pair>,
                                     acc: seq<Member>)
    requires pairs != [] && GoodPairs(assoc, pairs, depth) && Placed(data, pos, SpellPairs(pairs) + [0x7D])
    ensures pos <= |data| && !ByteAt(data, SkipSpace(data, pos), 0x7D)
    ensures PMembers(assoc, data, SkipSpace(data, pos), depth, acc) ==
              Ok(Object(Gather(acc, pairs)), pos + |SpellPairs(pairs)| + 1)
    decreases pairs, 0
  {
    hide *;
    PairsHead(assoc, pairs, depth, acc);
    PairsPlaced(assoc, data, pos, depth, pairs);
    ReadPair(assoc, data, pos, depth, pairs[0]);
    NotByte(data, SkipSpace(data, pos), 0x7D);
    MembersTurn(assoc, data, SkipSpace(data, pos), depth, acc);
    var end := pos + |SpellPair(pairs[0])|;
    if |pairs| > 1 {
      ReadPairs(assoc, data, end + 1, depth, pairs[1..],
        Put(acc, MeanPieces(pairs[0].key), Denote(pairs[0].slot.text)));
    } else {
      assert pairs[1..] == [];
    }
  }

  lemma PairsPlaced(assoc: bool, data: Bytes, pos: nat, depth: nat, pairs: seq<Pair>)
    requires pairs != [] && GoodPairs(assoc, pairs, depth) && Placed(data, pos, SpellPairs(pairs) + [0x7D])
    ensures var end := pos + |SpellPair(pairs[0])|;
            && Placed(data, pos, SpellPair(pairs[0])) && Delimited(data, end) && SkipSpace(data, end) == end
            && if |pairs| == 1 then ByteAt(data, end, 0x7D)
               else ByteAt(data, end, 0x2C) && Placed(data, end + 1, SpellPairs(pairs[1..]) + [0x7D])
  {
    hide *;
    PairsHead(assoc, pairs, depth, []);
    var p := pairs[0];
    var after := if |pairs| == 1 then [0x7D] else [0x2C] + (SpellPairs(pairs[1..]) + [0x7D]);
    assert SpellPairs(pairs) + [0x7D] == SpellPair(p) + after;
    PlacedSplit(data, pos, SpellPair(p), after);
    var end := pos + |SpellPair(p)|;
    PlacedAt(data, end, after, 0);
    Closes(data, end, after[0]);
    if |pairs| > 1 {
      PlacedSplit(data, end, [0x2C], SpellPairs(pairs[1..]) + [0x7D]);
    }
  }

  lemma PairsHead(assoc: bool, pairs: seq<Pair>, depth: nat, acc: seq<Member>)
    requires pairs != [] && GoodPairs(assoc, pairs, depth)
    ensures GoodPair(assoc, pairs[0], depth) && GoodPairs(assoc, pairs[1..], depth)
    ensures SpellPairs(pairs) ==
            if |pairs| == 1 then SpellPair(pairs[0]) else SpellPair(pairs[0]) + ([0x2C] + SpellPairs(pairs[1..]))
    ensures var more := Put(acc, MeanPieces(pairs[0].key), Denote(pairs[0].slot.text));
            Gather(acc, pairs) == Gather(more, pairs[1..]) && Gather(more, []) == more
  {
    hide GoodPair;
  }

  lemma ReadPair(assoc: bool, data: Bytes, pos: nat, depth: nat, p: Pair)
    requires GoodPair(assoc, p, depth) && Placed(data, pos, SpellPair(p)) && Delimited(data, pos + |SpellPair(p)|)
    ensures pos <= SkipSpace(data, pos) < |data| && data[SkipSpace(data, pos)] == 0x22
    ensures var r := PPair(assoc, data, SkipSpace(data, pos), depth);
            && r.Ok? && r.value == Member(MeanPieces(p.key), Denote(p.slot.text))
            && SkipSpace(data, r.pos) == pos + |SpellPair(p)|
    decreases p, 0
  {
    hide *;
    PairParts(assoc, p, depth);
    var start := pos + |p.before|;
    KeyPlaced(data, pos, p);
    var colon := start + |SpellPieces(p.key)| + 2 + |p.between|;
    ColonPlaced(data, start + |SpellPieces(p.key)| + 2, p.between, p.slot);
    ReadSlot(assoc, data, colon + 1, depth, p.slot);
    PairTurn(assoc, data, start, depth, colon);
  }

  lemma KeyPlaced(data: Bytes, pos: nat, p: Pair)
    requires Gap(p.before) && GoodPieces(p.key) && Placed(data, pos, SpellPair(p))
    ensures var (start, size) := (pos + |p.before|, |SpellPieces(p.key)| + 2);
            && SkipSpace(data, pos) == start < |data| && data[start] == 0x22 && ByteAt(data, start, 0x22)
            && Str(data, start + 1, []) == Ok(MeanPieces(p.key), start + size)
            && Placed(data, start + size, p.between + ([0x3A] + SpellSlot(p.slot)))
  {
    hide *;
    PairSpelling(p);
    var quoted := [0x22] + (SpellPieces(p.key) + [0x22]);
    var rest := p.between + ([0x3A] + SpellSlot(p.slot));
    PlacedSplit(data, pos, p.before, quoted + rest);
    var start := pos + |p.before|;
    PlacedSplit(data, start, quoted, rest);
    PlacedSplit(data, start, [0x22], SpellPieces(p.key) + [0x22]);
    BytePlaced(data, start, 0x22);
    NoSpaceByte(0x22);
    SkipGap(data, pos, p.before);
    ReadPieces(data, start + 1, p.key, []);
    assert [] + MeanPieces(p.key) == MeanPieces(p.key);
  }

  lemma ColonPlaced(data: Bytes, pos: nat, gap: Bytes, s: Slot)
    requires Gap(gap) && Placed(data, pos, gap + ([0x3A] + SpellSlot(s)))
    ensures pos <= |data| && SkipSpace(data, pos) == pos + |gap| < |data| && ByteAt(data, pos + |gap|, 0x3A)
    ensures Placed(data, pos + |gap| + 1, SpellSlot(s))
  {
    hide *;
    var colon := pos + |gap|;
    PlacedSplit(data, pos, gap, [0x3A] + SpellSlot(s));
    PlacedSplit(data, colon, [0x3A], SpellSlot(s));
    BytePlaced(data, colon, 0x3A);
    NoSpaceByte(0x3A);
    SkipGap(data, pos, gap);
  }

  lemma NoSpaceByte(b: byte)
    requires b == 0x22 || b == 0x3A
    ensures !Space(b)
  {
  }

  lemma PairParts(assoc: bool, p: Pair, depth: nat)
    requires GoodPair(assoc, p, depth)
    ensures Gap(p.before) && Gap(p.between) && GoodPieces(p.key) && GoodSlot(assoc, p.slot, depth)
    ensures assoc || MeanPieces(p.key) == [] || MeanPieces(p.key)[0] != 0
    ensures |SpellPair(p)| == |p.before| + |SpellPieces(p.key)| + 2 + |p.between| + 1 + |SpellSlot(p.slot)|
  {
    hide GoodSlot, GoodPieces, SpellPieces, SpellSlot, Gap, MeanPieces;
  }

  lemma PairSpelling(p: Pair)
    ensures SpellPair(p) ==
            p.before + ([0x22] + (SpellPieces(p.key) + [0x22]) + (p.between + ([0x3A] + SpellSlot(p.slot))))
  {
  }

  lemma PairTurn(assoc: bool, data: Bytes, pos: nat, depth: int, colon: nat)
    requires ByteAt(data, pos, 0x22) && pos < |data| && Str(data, pos + 1, []).Ok?
    requires Str(data, pos + 1, []).pos <= |data| && SkipSpace(data, Str(data, pos + 1, []).pos) == colon
    requires ByteAt(data, colon, 0x3A) && colon < |data|
    requires assoc || Str(data, pos + 1, []).value == [] || Str(data, pos + 1, []).value[0] != 0
    requires PValue(assoc, data, SkipSpace(data, colon + 1), depth).Ok?
    ensures var r := PValue(assoc, data, SkipSpace(data, colon + 1), depth);
            PPair(assoc, data, pos, depth) == Ok(Member(Str(data, pos + 1, []).value, r.value), r.pos)
  {
    hide PValue, SkipSpace, Unexpected, Str;
  }

  /** One turn of the loop over members. */
  lemma MembersTurn(assoc: bool, data: Bytes, pos: nat, depth: int, acc: seq<Member>)
    requires pos <= |data| && PPair(assoc, data, pos, depth).Ok?
    ensures var r := PPair(assoc, data, pos, depth);
            && r.pos <= |data|
            && var next, more := SkipSpace(data, r.pos), Put(acc, r.value.key, r.value.val);
               && (ByteAt(data, next, 0x7D) ==> PMembers(assoc, data, pos, depth, acc) == Ok(Object(more), next + 1))
               && (ByteAt(data, next, 0x2C) ==>
                     && next < |data|
                     && PMembers(assoc, data, pos, depth, acc) ==
                        PMembers(assoc, data, SkipSpace(data, next + 1), depth, more))
               && (PMembers(assoc, data, pos, depth, acc).Ok? ==> ByteAt(data, next, 0x7D) || ByteAt(data, next, 0x2C))
  {
    hide PPair, SkipSpace, Unexpected;
  }

  // ---- what is read was spelled

  /** The tree of a value that is read. */
  lemma TextOf(assoc: bool, data: Bytes, pos: nat, depth: nat) returns (t: Text)
    requires pos <= |data| && PValue(assoc, data, pos, depth).Ok?
    ensures var r := PValue(assoc, data, pos, depth);
            GoodText(assoc, t, depth) && r.pos <= |data| && Spell(t) == data[pos..r.pos] && Denote(t) == r.value
    decreases |data| - pos, 1
  {
    hide *;
    ValueBegins(assoc, data, pos, depth);
    if ByteAt(data, pos, 0x5B) {
      t := BracketedOf(assoc, data, pos, depth);
    } else if ByteAt(data, pos, 0x7B) {
      t := BracedOf(assoc, data, pos, depth);
    } else if ByteAt(data, pos, 0x22) {
      t := QuotedOf(assoc, data, pos, depth);
    } else {
      t := ScalarOf(assoc, data, pos, depth);
    }
  }

  lemma ValueBegins(assoc: bool, data: Bytes, pos: nat, depth: nat)
    requires pos <= |data| && PValue(assoc, data, pos, depth).Ok?
    ensures pos < |data|
  {
  }

  lemma ScalarOf(assoc: bool, data: Bytes, pos: nat, depth: nat) returns (t: Text)
    requires pos <= |data| && PValue(assoc, data, pos, depth).Ok?
    requires !ByteAt(data, pos, 0x5B) && !ByteAt(data, pos, 0x7B) && !ByteAt(data, pos, 0x22)
    ensures var r := PValue(assoc, data, pos, depth);
            GoodText(assoc, t, depth) && r.pos <= |data| && Spell(t) == data[pos..r.pos] && Denote(t) == r.value
  {
    hide GoodNumeral, SpellNumeral, DenoteNumeral, Number;
    var b := data[pos];
    if b == 0x74 {
      t := Word(Bool(true));
    } else if b == 0x66 {
      t := Word(Bool(false));
    } else if b == 0x6E {
      t := Word(Null);
    } else {
      var n := NumeralOf(data, pos);
      t := Numeric(n);
    }
  }

  lemma QuotedOf(assoc: bool, data: Bytes, pos: nat, depth: nat) returns (t: Text)
    requires pos < |data| && ByteAt(data, pos, 0x22) && PValue(assoc, data, pos, depth).Ok?
    ensures var r := PValue(assoc, data, pos, depth);
            GoodText(assoc, t, depth) && r.pos <= |data| && Spell(t) == data[pos..r.pos] && Denote(t) == r.value
  {
    hide GoodPieces, SpellPieces, MeanPieces, Str;
    var ps := PiecesOf(data, pos + 1, []);
    assert [] + MeanPieces(ps) == MeanPieces(ps);
    t := Quoted(ps);
    var end := Str(data, pos + 1, []).pos;
    assert data[pos..end] == [0x22] + data[pos + 1..end];
  }

  /** A value that is read, with the space around it. */
  lemma SlotOf(assoc: bool, data: Bytes, pos: nat, depth: nat) returns (s: Slot)
    requires pos <= |data| && PValue(assoc, data, SkipSpace(data, pos), depth).Ok?
    ensures var r := PValue(assoc, data, SkipSpace(data, pos), depth);
            && GoodSlot(assoc, s, depth) && r.pos <= |data| && r.value == Denote(s.text)
            && pos < SkipSpace(data, r.pos) && SpellSlot(s) == data[pos..SkipSpace(data, r.pos)]
    decreases |data| - pos, 2
  {
    hide *;
    var start := SkipSpace(data, pos);
    var t := TextOf(assoc, data, start, depth);
    var r := PValue(assoc, data, start, depth);
    var end := SkipSpace(data, r.pos);
    GapOf(data, pos);
    GapOf(data, r.pos);
    s := Slot(data[pos..start], t, data[r.pos..end]);
    SlotMade(assoc, s, depth);
    assert data[pos..start] + (data[start..r.pos] + data[r.pos..end]) == data[pos..end];
  }

  lemma SlotMade(assoc: bool, s: Slot, depth: nat)
    requires Gap(s.before) && Gap(s.after) && GoodText(assoc, s.text, depth)
    ensures GoodSlot(assoc, s, depth) && SpellSlot(s) == s.before + (Spell(s.text) + s.after)
  {
  }

  lemma BracketedOf(assoc: bool, data: Bytes, pos: nat, depth: nat) returns (t: Text)
    requires pos < |data| && ByteAt(data, pos, 0x5B) && PValue(assoc, data, pos, depth).Ok?
    ensures var r := PValue(assoc, data, pos, depth);
            GoodText(assoc, t, depth) && r.pos <= |data| && Spell(t) == data[pos..r.pos] && Denote(t) == r.value
    decreases |data| - pos, 0
  {
    hide *;
    PArrayStep(assoc, data, pos, depth);
    var start, end := SkipSpace(data, pos + 1), PValue(assoc, data, pos, depth).pos;
    IsByte(data, pos, 0x5B);
    if ByteAt(data, start, 0x5D) {
      IsByte(data, start, 0x5D);
      GapOf(data, pos + 1);
      t := Bracketed(data[pos + 1..start], []);
      assert data[pos..end] == [0x5B] + (data[pos + 1..start] + [0x5D]);
      NoSlots(assoc, depth + 1);
    } else {
      var slots := SlotsOf(assoc, data, pos + 1, depth + 1, []);
      assert [] + DenoteSlots(slots) == DenoteSlots(slots);
      t := Bracketed([], slots);
      assert data[pos..end] == [0x5B] + data[pos + 1..end];
    }
    BracketedMade(assoc, t, depth);
  }

  lemma IsByte(data: Bytes, pos: nat, b: byte)
    requires ByteAt(data, pos, b)
    ensures pos < |data| && data[pos] == b
  {
  }

  lemma NoSlots(assoc: bool, depth: nat)
    ensures GoodSlots(assoc, [], depth) && GoodPairs(assoc, [], depth)
  {
  }

  lemma BracketedMade(assoc: bool, t: Text, depth: nat)
    requires t.Bracketed?
    ensures depth + 1 < MAX_DEPTH && Gap(t.gap) && GoodSlots(assoc, t.slots, depth + 1) ==> GoodText(assoc, t, depth)
    ensures Spell(t) == [0x5B] + ((if t.slots == [] then t.gap else SpellSlots(t.slots)) + [0x5D])
    ensures Denote(t) == Array(DenoteSlots(t.slots)) && DenoteSlots([]) == [] && Gap([])
  {
    hide GoodSlots, SpellSlots;
  }

  lemma {:induction false} SlotsOf(assoc: bool, data: Bytes, pos: nat, depth: nat, acc: seq<Value>)
    returns (slots: seq<Slot>)
    requires pos <= |data| && PItems(assoc, data, SkipSpace(data, pos), depth, acc).Ok?
    ensures var r := PItems(assoc, data, SkipSpace(data, pos), depth, acc);
            && slots != [] && GoodSlots(assoc, slots, depth) && r.value == Array(acc + DenoteSlots(slots))
            && pos < r.pos <= |data| && SpellSlots(slots) + [0x5D] == data[pos..r.pos]
    decreases |data| - pos, 3
  {
    hide *;
    var start := SkipSpace(data, pos);
    ItemsFirstRead(assoc, data, start, depth, acc);
    var s := SlotOf(assoc, data, pos, depth);
    var val := PValue(assoc, data, start, depth);
    var next := SkipSpace(data, val.pos);
    ItemsTurn(assoc, data, start, depth, acc);
    if ByteAt(data, next, 0x5D) {
      IsByte(data, next, 0x5D);
      slots := [s];
      assert slots[1..] == [];
      NoSlots(assoc, depth);
      assert acc + ([Denote(s.text)] + []) == acc + [Denote(s.text)];
      assert data[pos..next + 1] == data[pos..next] + [0x5D];
    } else {
      IsByte(data, next, 0x2C);
      var rest := SlotsOf(assoc, data, next + 1, depth, acc + [Denote(s.text)]);
      slots := [s] + rest;
      assert slots[1..] == rest;
      assert acc + [Denote(s.text)] + DenoteSlots(rest) == acc + ([Denote(s.text)] + DenoteSlots(rest));
      var end := PItems(assoc, data, start, depth, acc).pos;
      assert data[pos..end] == data[pos..next] + ([0x2C] + data[next + 1..end]);
      assert data[pos..next] + ([0x2C] + SpellSlots(rest)) + [0x5D] ==
             data[pos..next] + ([0x2C] + (SpellSlots(rest) + [0x5D]));
    }
    SlotsMade(assoc, slots, depth);
  }

  lemma ItemsFirstRead(assoc: bool, data: Bytes, pos: nat, depth: int, acc: seq<Value>)
    requires pos <= |data| && PItems(assoc, data, pos, depth, acc).Ok?
    ensures PValue(assoc, data, pos, depth).Ok?
  {
    hide PValue, SkipSpace, Unexpected;
  }

  lemma SlotsMade(assoc: bool, slots: seq<Slot>, depth: nat)
    requires slots != [] && GoodSlot(assoc, slots[0], depth) && GoodSlots(assoc, slots[1..], depth)
    ensures GoodSlots(assoc, slots, depth)
    ensures SpellSlots(slots) ==
            if |slots| == 1 then SpellSlot(slots[0]) else SpellSlot(slots[0]) + ([0x2C] + SpellSlots(slots[1..]))
    ensures DenoteSlots(slots) == [Denote(slots[0].text)] + DenoteSlots(slots[1..]) && DenoteSlots([]) == []
  {
    hide GoodSlot;
    forall i | 0 <= i < |slots|
      ensures GoodSlot(assoc, slots[i], depth)
    {
      if i > 0 {
        assert slots[i] == slots[1..][i - 1];
      }
    }
  }

  lemma BracedOf(assoc: bool, data: Bytes, pos: nat, depth: nat) returns (t: Text)
    requires pos < |data| && ByteAt(data, pos, 0x7B) && PValue(assoc, data, pos, depth).Ok?
    ensures var r := PValue(assoc, data, pos, depth);
            GoodText(assoc, t, depth) && r.pos <= |data| && Spell(t) == data[pos..r.pos] && Denote(t) == r.value
    decreases |data| - pos, 0
  {
    hide *;
    PObjectStep(assoc, data, pos, depth);
    var start, end := SkipSpace(data, pos + 1), PValue(assoc, data, pos, depth).pos;
    IsByte(data, pos, 0x7B);
    if ByteAt(data, start, 0x7D) {
      IsByte(data, start, 0x7D);
      GapOf(data, pos + 1);
      t := Braced(data[pos + 1..start], []);
      assert data[pos..end] == [0x7B] + (data[pos + 1..start] + [0x7D]);
      NoSlots(assoc, depth + 1);
    } else {
      var pairs := PairsOf(assoc, data, pos + 1, depth + 1, []);
      t := Braced([], pairs);
      assert data[pos..end] == [0x7B] + data[pos + 1..end];
    }
    BracedMade(assoc, t, depth);
  }

  lemma BracedMade(assoc: bool, t: Text, depth: nat)
    requires t.Braced?
    ensures depth + 1 < MAX_DEPTH && Gap(t.gap) && GoodPairs(assoc, t.pairs, depth + 1) ==> GoodText(assoc, t, depth)
    ensures Spell(t) == [0x7B] + ((if t.pairs == [] then t.gap else SpellPairs(t.pairs)) + [0x7D])
    ensures Denote(t) == Object(Gather([], t.pairs)) && Gather([], []) == [] && Gap([])
  {
    hide GoodPairs, SpellPairs;
  }

  lemma {:induction false} PairsOf(assoc: bool, data: Bytes, pos: nat, depth: nat, acc: seq<Member>)
    returns (pairs: seq<Pair>)
    requires pos <= |data| && PMembers(assoc, data, SkipSpace(data, pos), depth, acc).Ok?
    ensures var r := PMembers(assoc, data, SkipSpace(data, pos), depth, acc);
            && pairs != [] && GoodPairs(assoc, pairs, depth) && r.value == Object(Gather(acc, pairs))
            && pos < r.pos <= |data| && SpellPairs(pairs) + [0x7D] == data[pos..r.pos]
    decreases |data| - pos, 4
  {
    hide *;
    var start := SkipSpace(data, pos);
    MembersFirstRead(assoc, data, start, depth, acc);
    var p := PairOf(assoc, data, pos, depth);
    var pair := PPair(assoc, data, start, depth);
    var next, more := SkipSpace(data, pair.pos), Put(acc, pair.value.key, pair.value.val);
    MembersTurn(assoc, data, start, depth, acc);
    if ByteAt(data, next, 0x7D) {
      IsByte(data, next, 0x7D);
      pairs := [p];
      assert pairs[1..] == [];
      NoSlots(assoc, depth);
      assert data[pos..next + 1] == data[pos..next] + [0x7D];
    } else {
      IsByte(data, next, 0x2C);
      var rest := PairsOf(assoc, data, next + 1, depth, more);
      pairs := [p] + rest;
      assert pairs[1..] == rest;
      var end := PMembers(assoc, data, start, depth, acc).pos;
      assert data[pos..end] == data[pos..next] + ([0x2C] + data[next + 1..end]);
      assert data[pos..next] + ([0x2C] + SpellPairs(rest)) + [0x7D] ==
             data[pos..next] + ([0x2C] + (SpellPairs(rest) + [0x7D]));
    }
    PairsMade(assoc, pairs, depth, acc);
  }

  lemma MembersFirstRead(assoc: bool, data: Bytes, pos: nat, depth: int, acc: seq<Member>)
    requires pos <= |data| && PMembers(assoc, data, pos, depth, acc).Ok?
    ensures PPair(assoc, data, pos, depth).Ok?
  {
    hide PPair, SkipSpace, Unexpected;
  }

  lemma PairsMade(assoc: bool, pairs: seq<Pair>, depth: nat, acc: seq<Member>)
    requires pairs != [] && GoodPair(assoc, pairs[0], depth) && GoodPairs(assoc, pairs[1..], depth)
    ensures GoodPairs(assoc, pairs, depth)
    ensures SpellPairs(pairs) ==
            if |pairs| == 1 then SpellPair(pairs[0]) else SpellPair(pairs[0]) + ([0x2C] + SpellPairs(pairs[1..]))
    ensures var more := Put(acc, MeanPieces(pairs[0].key), Denote(pairs[0].slot.text));
            Gather(acc, pairs) == Gather(more, pairs[1..]) && Gather(more, []) == more
  {
    hide GoodPair;
    forall i | 0 <= i < |pairs|
      ensures GoodPair(assoc, pairs[i], depth)
    {
      if i > 0 {
        assert pairs[i] == pairs[1..][i - 1];
      }
    }
  }

  lemma PairOf(assoc: bool, data: Bytes, pos: nat, depth: nat) returns (p: Pair)
    requires pos <= |data| && PPair(assoc, data, SkipSpace(data, pos), depth).Ok?
    ensures var r := PPair(assoc, data, SkipSpace(data, pos), depth);
            && GoodPair(assoc, p, depth) && r.pos <= |data|
            && r.value == Member(MeanPieces(p.key), Denote(p.slot.text))
            && pos < SkipSpace(data, r.pos) && SpellPair(p) == data[pos..SkipSpace(data, r.pos)]
    decreases |data| - pos, 3
  {
    hide *;
    var start := SkipSpace(data, pos);
    var key, colon, val := PairSteps(assoc, data, start, depth);
    IsByte(data, start, 0x22);
    IsByte(data, colon, 0x3A);
    var ps := PiecesOf(data, start + 1, []);
    assert [] + MeanPieces(ps) == MeanPieces(ps);
    var s := SlotOf(assoc, data, colon + 1, depth);
    GapOf(data, pos);
    GapOf(data, key.pos);
    p := Pair(data[pos..start], ps, data[key.pos..colon], s);
    PairMade(assoc, p, depth);
    var end := SkipSpace(data, PPair(assoc, data, start, depth).pos);
    PairJoin(data, pos, start, key.pos, colon, end);
  }

  lemma PairJoin(data: Bytes, pos: nat, start: nat, k: nat, colon: nat, end: nat)
    requires pos <= start < k <= colon < end <= |data| && data[start] == 0x22 && data[colon] == 0x3A
    ensures data[pos..end] ==
            data[pos..start] + ([0x22] + data[start + 1..k] + (data[k..colon] + ([0x3A] + data[colon + 1..end])))
  {
    assert data[pos..end] == data[pos..start] + data[start..end];
    assert data[start..end] == data[start..k] + data[k..end];
    assert data[start..k] == [0x22] + data[start + 1..k];
    assert data[k..end] == data[k..colon] + data[colon..end];
    assert data[colon..end] == [0x3A] + data[colon + 1..end];
  }

  lemma PairSteps(assoc: bool, data: Bytes, pos: nat, depth: int)
    returns (key: Parsed<Bytes>, colon: nat, val: Parsed<Value>)
    requires pos <= |data| && PPair(assoc, data, pos, depth).Ok?
    ensures ByteAt(data, pos, 0x22) && pos < |data| && key == Str(data, pos + 1, [])
    ensures key.Ok? && pos < key.pos <= |data|
    ensures assoc || key.value == [] || key.value[0] != 0
    ensures colon == SkipSpace(data, key.pos) && ByteAt(data, colon, 0x3A) && pos < colon < |data|
    ensures val == PValue(assoc, data, SkipSpace(data, colon + 1), depth) && val.Ok?
    ensures PPair(assoc, data, pos, depth) == Ok(Member(key.value, val.value), val.pos)
  {
    hide PValue, SkipSpace, Unexpected, Str;
    key := Str(data, pos + 1, []);
    colon := SkipSpace(data, key.pos);
    val := PValue(assoc, data, SkipSpace(data, colon + 1), depth);
  }

  lemma PairMade(assoc: bool, p: Pair, depth: nat)
    requires Gap(p.before) && Gap(p.between) && GoodPieces(p.key) && GoodSlot(assoc, p.slot, depth)
    requires assoc || MeanPieces(p.key) == [] || MeanPieces(p.key)[0] != 0
    ensures GoodPair(assoc, p, depth)
    ensures SpellPair(p) ==
            p.before + ([0x22] + (SpellPieces(p.key) + [0x22]) + (p.between + ([0x3A] + SpellSlot(p.slot))))
  {
    hide GoodSlot, GoodPieces, SpellPieces, SpellSlot, Gap, MeanPieces;
  }

  // ---- documents

  /** The document is one value with space around it, and the value is v. */
  ghost predicate Spells(assoc: bool, s: Slot, data: Bytes, v: Value)
  {
    GoodSlot(assoc, s, 0) && SpellSlot(s) == data && Denote(s.text) == v
  }

  /** Every document of the grammar is read, and as what it denotes. */
  lemma DocumentRead(assoc: bool, s: Slot, data: Bytes, v: Value)
    requires Spells(assoc, s, data, v)
    ensures Document(assoc, data) == Ok(v, |data|)
  {
    hide GoodSlot, SpellSlot, Denote, PValue, SkipSpace, Unexpected;
    assert data[0..|data|] == data;
    ReadSlot(assoc, data, 0, 0, s);
  }

  /** Everything that is read is a document of the grammar. */
  lemma DocumentSpelled(assoc: bool, data: Bytes) returns (s: Slot)
    requires Document(assoc, data).Ok?
    ensures Spells(assoc, s, data, Document(assoc, data).value)
  {
    hide GoodSlot, SpellSlot, Denote, PValue, SkipSpace, Unexpected;
    s := SlotOf(assoc, data, 0, 0);
    assert data[0..|data|] == data;
  }

  /** A document is read, as v, exactly when it spells v. */
  lemma ParsesExactly(assoc: bool, data: Bytes, v: Value)
    ensures Document(assoc, data).Ok? && Document(assoc, data).value == v <==> exists s :: Spells(assoc, s, data, v)
  {
    hide Document, Spells;
    if Document(assoc, data).Ok? && Document(assoc, data).value == v {
      var s := DocumentSpelled(assoc, data);
    }
    if s :| Spells(assoc, s, data, v) {
      DocumentRead(assoc, s, data, v);
    }
  }
}
