/** internal/cjson/canonical.go: appending the encoding to a buffer, object by object, through a sorted index slice. */
module CanonicalWriter {
  import opened Bytes
  import opened KeyOrder
  import opened JsonValue
  import opened Canonical
  import opened IndexOrders

  method AppendByte(buf: Bytes, b: byte) returns (out: Bytes)
    ensures out == buf + EscapeByte(b)
  {
    if b == 0x22 {
      out := buf + [0x5C, 0x22];
    } else if b == 0x5C {
      out := buf + [0x5C, 0x5C];
    } else if b == 0x08 {
      out := buf + [0x5C, 0x62];
    } else if b == 0x09 {
      out := buf + [0x5C, 0x74];
    } else if b == 0x0A {
      out := buf + [0x5C, 0x6E];
    } else if b == 0x0C {
      out := buf + [0x5C, 0x66];
    } else if b == 0x0D {
      out := buf + [0x5C, 0x72];
    } else if b < 0x20 {
      out := buf + [0x5C, 0x75, 0x30, 0x30, HexLetter(b as int / 0x10), HexLetter(b as int % 0x10)];
    } else {
      out := buf + [b];
    }
    hide EscapeByte;
    EscapeCases(b);
  }

  method AppendString(buf: Bytes, s: Bytes) returns (out: Bytes)
    ensures out == buf + CanonString(s)
  {
    hide EscapeByte;
    out := buf + [0x22];
    var i := 0;
    while i < |s|
      invariant 0 <= i <= |s| && out + Escaped(s[i..]) + [0x22] == buf + CanonString(s)
    {
      ghost var before, rest := out, Escaped(s[i + 1..]);
      EscapedNext(s, i);
      out := AppendByte(out, s[i]);
      assert before + (EscapeByte(s[i]) + rest) + [0x22] == out + rest + [0x22];
      i := i + 1;
    }
    assert s[i..] == [];
    out := out + [0x22];
  }

  lemma EscapedNext(s: Bytes, i: nat)
    requires i < |s|
    ensures Escaped(s[i..]) == EscapeByte(s[i]) + Escaped(s[i + 1..])
  {
    assert s[i..][1..] == s[i + 1..];
  }

  lemma EscapeCases(b: byte)
    ensures EscapeByte(b) ==
      if b == 0x22 then [0x5C, 0x22]
      else if b == 0x5C then [0x5C, 0x5C]
      else if b == 0x08 then [0x5C, 0x62]
      else if b == 0x09 then [0x5C, 0x74]
      else if b == 0x0A then [0x5C, 0x6E]
      else if b == 0x0C then [0x5C, 0x66]
      else if b == 0x0D then [0x5C, 0x72]
      else if b < 0x20 then [0x5C, 0x75, 0x30, 0x30, HexLetter(b as int / 0x10), HexLetter(b as int % 0x10)]
      else [b]
  {
  }

  // ---- the sorted index slice

  ghost predicate OrderedKeys(ms: seq<Member>, order: seq<nat>, n: nat)
    requires n <= |order| && forall i :: 0 <= i < |order| ==> order[i] < |ms|
  {
    forall i, j :: 0 <= i < j < n ==> Less(ms[order[i]].key, ms[order[j]].key)
  }

  /** The first i + 1 are ordered but for the one at j, which is no lower than any after it. */
  ghost predicate OrderedBut(ms: seq<Member>, order: seq<nat>, i: nat, j: nat)
    requires forall p :: 0 <= p < |order| ==> order[p] < |ms|
  {
    forall p, q :: 0 <= p < q <= i && q < |order| && q != j ==> Less(ms[order[p]].key, ms[order[q]].key)
  }

  lemma OrderedButSwap(ms: seq<Member>, order: seq<nat>, i: nat, j: nat)
    requires forall p :: 0 <= p < |order| ==> order[p] < |ms|
    requires OrderedBut(ms, order, i, j) && 0 < j <= i < |order| && Less(ms[order[j]].key, ms[order[j - 1]].key)
    ensures OrderedBut(ms, order[j - 1 := order[j]][j := order[j - 1]], i, j - 1)
  {
    hide Less;
  }

  lemma OrderedButEnds(ms: seq<Member>, order: seq<nat>, i: nat, j: nat)
    requires forall p :: 0 <= p < |order| ==> order[p] < |ms|
    requires OrderedBut(ms, order, i, j) && j <= i < |order|
    requires j > 0 ==> Less(ms[order[j - 1]].key, ms[order[j]].key)
    ensures OrderedKeys(ms, order, i + 1)
  {
    hide Less;
    if j > 0 {
      assert forall p :: 0 <= p < j - 1 ==> Less(ms[order[p]].key, ms[order[j - 1]].key);
      LessChain(ms, order, j);
    }
  }

  lemma OrderedButStarts(ms: seq<Member>, order: seq<nat>, i: nat)
    requires forall p :: 0 <= p < |order| ==> order[p] < |ms|
    requires i <= |order| && OrderedKeys(ms, order, i)
    ensures OrderedBut(ms, order, i, i)
  {
    hide Less;
  }

  /** Stands for sort.Slice with compareUTF16: swaps neighbours until the keys ascend. */
  method SortOrder(order: array<nat>, ms: seq<Member>)
    requires IndexOrder(order[..], |ms|) && Distinct(ms) && ValidKeys(ms)
    modifies order
    ensures IndexOrder(order[..], |ms|) && OrderedKeys(ms, order[..], |ms|)
  {
    hide IndexOrder, Less, ValidUtf8, Compare, Units, OrderedBut;
    OrderInRange(order[..], |ms|);
    var i := 1;
    while i < order.Length
      invariant 1 <= i && (i <= order.Length || order.Length == 0)
      invariant IndexOrder(order[..], |ms|) && forall p :: 0 <= p < order.Length ==> order[p] < |ms|
      invariant i <= order.Length ==> OrderedKeys(ms, order[..], i)
    {
      hide OrderedKeys;
      var j := i;
      OrderedButStarts(ms, order[..], i);
      while j > 0
        invariant 0 <= j <= i < order.Length
        invariant IndexOrder(order[..], |ms|) && forall p :: 0 <= p < order.Length ==> order[p] < |ms|
        invariant OrderedBut(ms, order[..], i, j)
      {
        var c := CompareUtf16(ms[order[j]].key, ms[order[j - 1]].key);
        ghost var before := order[..];
        LowerOrHigher(ms, before, j, c);
        if c >= 0 {
          break;
        }
        SwapKeepsOrder(before, |ms|, j - 1, j);
        OrderedButSwap(ms, before, i, j);
        order[j], order[j - 1] := order[j - 1], order[j];
        assert order[..] == before[j - 1 := before[j]][j := before[j - 1]];
        j := j - 1;
      }
      OrderedButEnds(ms, order[..], i, j);
      i := i + 1;
    }
  }

  lemma LowerOrHigher(ms: seq<Member>, order: seq<nat>, j: nat, c: int)
    requires IndexOrder(order, |ms|) && Distinct(ms) && ValidKeys(ms) && 0 < j < |order|
    requires order[j] < |ms| && order[j - 1] < |ms|
              && c == Compare(Units(ms[order[j]].key), Units(ms[order[j - 1]].key))
    ensures if c < 0 then Less(ms[order[j]].key, ms[order[j - 1]].key) else Less(ms[order[j - 1]].key, ms[order[j]].key)
  {
    hide Compare, Units, ValidUtf8;
    var a, b := order[j], order[j - 1];
    assert a < b || b < a;
    LessStrict(ms[a].key, ms[b].key, ms[a].key);
  }

  lemma LessChain(ms: seq<Member>, order: seq<nat>, j: nat)
    requires 0 < j < |order| && forall p :: 0 <= p < |order| ==> order[p] < |ms|
    requires Less(ms[order[j - 1]].key, ms[order[j]].key)
    requires forall p :: 0 <= p < j - 1 ==> Less(ms[order[p]].key, ms[order[j - 1]].key)
    ensures forall p :: 0 <= p < j ==> Less(ms[order[p]].key, ms[order[j]].key)
  {
    hide Less;
    forall p | 0 <= p < j
      ensures Less(ms[order[p]].key, ms[order[j]].key)
    {
      LessStrict(ms[order[p]].key, ms[order[j - 1]].key, ms[order[j]].key);
    }
  }

  function Arranged(ms: seq<Member>, order: seq<nat>): (r: seq<Member>)
    requires forall i :: 0 <= i < |order| ==> order[i] < |ms|
    ensures |r| == |order|
  {
    seq(|order|, i requires 0 <= i < |order| => ms[order[i]])
  }

  lemma ArrangedMembers(ms: seq<Member>, order: seq<nat>, m: Member)
    requires IndexOrder(order, |ms|)
    ensures m in Arranged(ms, order) <==> m in ms
  {
    var r := Arranged(ms, order);
    if m in ms {
      var i :| 0 <= i < |ms| && ms[i] == m;
      assert i in order;
      var p :| 0 <= p < |order| && order[p] == i;
      assert r[p] == m;
    }
  }

  /** The one order the sort can end in is Sort's. */
  lemma ArrangedIsSort(ms: seq<Member>, order: seq<nat>)
    requires IndexOrder(order, |ms|) && OrderedKeys(ms, order, |ms|) && Distinct(ms) && ValidKeys(ms)
    ensures Arranged(ms, order) == Sort(ms)
  {
    ArrangedSorted(ms, order);
    SortSorted(ms);
    SortSameMembers(ms);
    hide Sort, SortedByKey, Arranged, IndexOrder, OrderedKeys, ValidKeys, Distinct;
    forall m
      ensures m in Arranged(ms, order) <==> m in Sort(ms)
    {
      ArrangedMembers(ms, order, m);
    }
    SortedUnique(Arranged(ms, order), Sort(ms));
  }

  lemma ArrangedSorted(ms: seq<Member>, order: seq<nat>)
    requires IndexOrder(order, |ms|) && OrderedKeys(ms, order, |ms|)
    ensures SortedByKey(Arranged(ms, order))
  {
    hide Less;
  }

  // ---- the encoder

  /** None is the source's error: a float, or an integer outside the exact range. */
  method AppendCanonical(buf: Bytes, v: Value) returns (out: Option<Bytes>)
    requires WellFormed(v)
    ensures out == if Canon(v).None? then None else Some(buf + Canon(v).value)
    decreases Size(v), 1
  {
    match v {
      case Null => out := Some(buf + Ascii("null"));
      case Bool(b) => out := Some(buf + if b then Ascii("true") else Ascii("false"));
      case Int(n) =>
        if n > MAX_EXACT_INT || n < -MAX_EXACT_INT {
          return None;
        }
        out := Some(buf + if n < 0 then [0x2D] + Decimal(-n) else Decimal(n));
      case Float(_) => out := None;
      case String(s) =>
        var appended := AppendString(buf, s);
        out := Some(appended);
      case Array(items) =>
        out := AppendItems(buf, v);
      case Object(ms) =>
        out := AppendObject(buf, v);
    }
  }

  /** What the encoding will be when i parts are in text and the rest is still to come. */
  ghost function Finish(text: Bytes, first: bool, rest: Option<Bytes>, empty: bool, close: byte): Option<Bytes>
  {
    if rest.None? then None else Some(text + (if first || empty then [] else [0x2C]) + rest.value + [close])
  }

  ghost function FinishItems(text: Bytes, items: seq<Value>, i: nat): Option<Bytes>
    requires i <= |items|
  {
    Finish(text, i == 0, CanonItems(items[i..]), i == |items|, 0x5D)
  }

  method AppendItems(buf: Bytes, v: Value) returns (out: Option<Bytes>)
    requires v.Array? && WellFormed(v)
    ensures out == if Canon(v).None? then None else Some(buf + Canon(v).value)
    decreases Size(v), 0
  {
    var items := v.items;
    var text := buf + [0x5B];
    ArrayFinish(buf, v);
    WellFormedItems(v);
    ghost var result := FinishItems(text, items, 0);
    hide *;
    var i := 0;
    while i < |items|
      invariant 0 <= i <= |items| && FinishItems(text, items, i) == result
    {
      ItemStep(text, items, i);
      if i > 0 {
        text := text + [0x2C];
      }
      var item := AppendCanonical(text, items[i]);
      if item.None? {
        return None;
      }
      text := item.value;
      i := i + 1;
    }
    ItemsDone(text, items);
    out := Some(text + [0x5D]);
  }

  lemma ArrayFinish(buf: Bytes, v: Value)
    requires v.Array?
    ensures FinishItems(buf + [0x5B], v.items, 0) == if Canon(v).None? then None else Some(buf + Canon(v).value)
  {
    hide CanonItems;
    assert v.items[0..] == v.items;
    var inner := CanonItems(v.items);
    if inner.Some? {
      assert buf + [0x5B] + [] + inner.value + [0x5D] == buf + ([0x5B] + inner.value + [0x5D]);
    }
  }

  lemma WellFormedItems(v: Value)
    requires v.Array? && WellFormed(v)
    ensures forall i :: 0 <= i < |v.items| ==> WellFormed(v.items[i]) && Size(v.items[i]) < Size(v)
  {
    forall i | 0 <= i < |v.items|
      ensures Size(v.items[i]) < Size(v)
    {
      ItemSize(v.items, i);
    }
  }

  lemma {:induction false} ItemSize(items: seq<Value>, i: nat)
    requires i < |items|
    ensures Size(items[i]) < ItemsSize(items)
  {
    if i > 0 {
      ItemSize(items[1..], i - 1);
    }
  }

  lemma ItemStep(text: Bytes, items: seq<Value>, i: nat)
    requires i < |items|
    ensures var t, c := if i > 0 then text + [0x2C] else text, Canon(items[i]);
            FinishItems(text, items, i) == if c.None? then None else FinishItems(t + c.value, items, i + 1)
  {
    hide Canon;
    assert items[i..][1..] == items[i + 1..];
    if Canon(items[i]).Some? && CanonItems(items[i + 1..]).Some? {
      FinishStep(text, i == 0, Canon(items[i]), CanonItems(items[i + 1..]), i + 1 == |items|, 0x5D);
    }
  }

  lemma FinishStep(text: Bytes, first: bool, head: Option<Bytes>, rest: Option<Bytes>, last: bool, close: byte)
    requires head.Some? && rest.Some? && (last ==> rest.value == [])
    ensures Finish(text, first, Some(if last then head.value else head.value + [0x2C] + rest.value), false, close)
         == Finish((if first then text else text + [0x2C]) + head.value, false, rest, last, close)
  {
    var comma: Bytes := if first then [] else [0x2C];
    assert text + comma == if first then text else text + [0x2C];
    if last {
      assert text + comma + head.value + [close] == (text + comma) + head.value + [] + [] + [close];
    } else {
      assert text + comma + (head.value + [0x2C] + rest.value) + [close]
          == (text + comma) + head.value + [0x2C] + rest.value + [close];
    }
  }

  lemma ItemsDone(text: Bytes, items: seq<Value>)
    ensures FinishItems(text, items, |items|) == Some(text + [0x5D])
  {
    assert items[|items|..] == [];
    assert text + [] + [] + [0x5D] == text + [0x5D];
  }

  ghost function FinishMembers(text: Bytes, ms: seq<Member>, i: nat): Option<Bytes>
    requires i <= |ms|
  {
    Finish(text, i == 0, CanonMembers(ms[i..]), i == |ms|, 0x7D)
  }

  method AppendObject(buf: Bytes, v: Value) returns (out: Option<Bytes>)
    requires v.Object? && WellFormed(v)
    ensures out == if Canon(v).None? then None else Some(buf + Canon(v).value)
    decreases Size(v), 0
  {
    hide *;
    var ms := v.members;
    WellFormedMembers(v);
    var order := Identity(|ms|);
    SortOrder(order, ms);
    ghost var o := order[..];
    OrderInRange(o, |ms|);
    ArrangedIsSort(ms, o);
    var text := buf + [0x7B];
    ghost var sorted := Sort(ms);
    ObjectFinish(buf, v);
    ghost var result := FinishMembers(text, sorted, 0);
    var i := 0;
    while i < |ms|
      invariant 0 <= i <= |ms| == |sorted| && order[..] == o && FinishMembers(text, sorted, i) == result
    {
      MemberStep(text, sorted, i);
      ArrangedAt(ms, o, i);
      assert order[i] == o[i];
      if i > 0 {
        text := text + [0x2C];
      }
      text := AppendString(text, ms[order[i]].key);
      text := text + [0x3A];
      var val := AppendCanonical(text, ms[order[i]].val);
      if val.None? {
        return None;
      }
      text := val.value;
      i := i + 1;
    }
    MembersDone(text, sorted);
    out := Some(text + [0x7D]);
  }

  lemma ArrangedAt(ms: seq<Member>, order: seq<nat>, i: nat)
    requires i < |order| && forall p :: 0 <= p < |order| ==> order[p] < |ms|
    ensures Arranged(ms, order)[i] == ms[order[i]]
  {
  }

  lemma WellFormedMembers(v: Value)
    requires v.Object? && WellFormed(v)
    ensures Distinct(v.members) && ValidKeys(v.members)
    ensures forall i :: 0 <= i < |v.members| ==> WellFormed(v.members[i].val) && Size(v.members[i].val) < Size(v)
  {
    forall i | 0 <= i < |v.members|
      ensures Size(v.members[i].val) < Size(v)
    {
      MemberSize(v.members, i);
    }
  }

  lemma {:induction false} MemberSize(ms: seq<Member>, i: nat)
    requires i < |ms|
    ensures Size(ms[i].val) < MembersSize(ms)
  {
    if i > 0 {
      MemberSize(ms[1..], i - 1);
    }
  }

  lemma ObjectFinish(buf: Bytes, v: Value)
    requires v.Object?
    ensures FinishMembers(buf + [0x7B], Sort(v.members), 0) == if Canon(v).None? then None
              else Some(buf + Canon(v).value)
  {
    hide CanonMembers, Sort;
    var sorted := Sort(v.members);
    assert sorted[0..] == sorted;
    var inner := CanonMembers(sorted);
    if inner.Some? {
      assert buf + [0x7B] + [] + inner.value + [0x7D] == buf + ([0x7B] + inner.value + [0x7D]);
    }
  }

  lemma MemberStep(text: Bytes, ms: seq<Member>, i: nat)
    requires i < |ms|
    ensures var t, c := if i > 0 then text + [0x2C] else text, Canon(ms[i].val);
            FinishMembers(text, ms, i) ==
              if c.None? then None else FinishMembers(t + CanonString(ms[i].key) + [0x3A] + c.value, ms, i + 1)
  {
    hide Canon, CanonString;
    assert ms[i..][1..] == ms[i + 1..];
    var c, rest := Canon(ms[i].val), CanonMembers(ms[i + 1..]);
    if c.Some? && rest.Some? {
      var head := CanonString(ms[i].key) + [0x3A] + c.value;
      FinishStep(text, i == 0, Some(head), rest, i + 1 == |ms|, 0x7D);
      var t := if i > 0 then text + [0x2C] else text;
      assert t + head == t + CanonString(ms[i].key) + [0x3A] + c.value;
    }
  }

  lemma MembersDone(text: Bytes, ms: seq<Member>)
    ensures FinishMembers(text, ms, |ms|) == Some(text + [0x7D])
  {
    assert ms[|ms|..] == [];
    assert text + [] + [] + [0x7D] == text + [0x7D];
  }
}
