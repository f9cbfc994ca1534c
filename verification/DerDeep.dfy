/** internal/tst/der.go: ReencodeDeep, a canonical form of whatever the tolerant reader can read. */
module DerDeep {
  import opened Bytes
  import opened Der

  lemma LengthGrows(m: nat, n: nat)
    requires m <= n < 0x8000_0000_0000_0000
    ensures |LengthHeader(m)| <= |LengthHeader(n)|
  {
    hide MinimalBytes;
    MinimalLength(n, |MinimalBytes(n)|);
    MinimalLength(m, |MinimalBytes(n)|);
  }

  lemma EncodeSize(d: Element, e: Element)
    requires Writable(d) && Writable(e) && |d.content| <= |e.content|
    ensures |Encode(d)| <= |Encode(e)|
  {
    hide LengthHeader;
    LengthGrows(|d.content|, |e.content|);
  }

  /** An element with every length inside it minimal. A constructed element that does not parse stands as it is. */
  ghost function DeepElement(e: Element): (r: Element)
    requires Writable(e)
    ensures r.tagClass == e.tagClass && r.constructed == e.constructed && r.number == e.number && r.total == e.total
    ensures |r.content| <= |e.content|
    decreases |e.content|, 1, 0
  {
    var children := ChildrenOf(e.content);
    if e.constructed && children.Some? then
      ChildrenFit(e.content, 0);
      e.(content := EncodeAll(DeepElements(children.value, |e.content|)))
    else e
  }

  ghost function DeepElements(es: seq<Element>, bound: nat): (r: seq<Element>)
    requires AllReadable(es) && forall i :: 0 <= i < |es| ==> |es[i].content| + 2 <= bound
    ensures |r| == |es| && AllReadable(r) && |EncodeAll(r)| <= |EncodeAll(es)|
    decreases bound, 0, |es|
  {
    if es == [] then []
    else
      assert Readable(es[0]);
      var first, rest := DeepElement(es[0]), DeepElements(es[1..], bound);
      DeepJoined(es, first, rest);
      [first] + rest
  }

  lemma DeepJoined(es: seq<Element>, first: Element, rest: seq<Element>)
    requires es != [] && AllReadable(es) && AllReadable(rest) && |EncodeAll(rest)| <= |EncodeAll(es[1..])|
    requires first.tagClass == es[0].tagClass && first.number == es[0].number && |first.content| <= |es[0].content|
    ensures AllReadable([first] + rest) && |EncodeAll([first] + rest)| <= |EncodeAll(es)|
  {
    hide Encode;
    assert Readable(es[0]);
    EncodeSize(first, es[0]);
    assert ([first] + rest)[1..] == rest;
  }

  ghost predicate Bounded(es: seq<Element>, bound: nat)
  {
    AllReadable(es) && forall i :: 0 <= i < |es| ==> |es[i].content| + 2 <= bound
  }

  /** What is left to write from child i on. */
  ghost function DeepRest(es: seq<Element>, i: nat, bound: nat): Bytes
    requires Bounded(es, bound) && i <= |es|
  {
    EncodeAll(DeepElements(es[i..], bound))
  }

  lemma DeepRestStep(es: seq<Element>, i: nat, bound: nat)
    requires Bounded(es, bound) && i < |es|
    ensures Writable(es[i]) && |es[i].content| < bound
    ensures DeepRest(es, i, bound) == Encode(DeepElement(es[i])) + DeepRest(es, i + 1, bound)
  {
    hide Encode, DeepElement, DeepElements;
    assert es[i..][0] == es[i] && es[i..][1..] == es[i + 1..];
    assert Readable(es[i]);
    DeepElementsStep(es[i..], bound);
  }

  lemma DeepRestEnds(es: seq<Element>, bound: nat)
    requires Bounded(es, bound)
    ensures DeepRest(es, |es|, bound) == [] && DeepRest(es, 0, bound) == EncodeAll(DeepElements(es, bound))
  {
    assert es[0..] == es;
  }

  lemma DeepElementIs(e: Element)
    requires Writable(e)
    ensures ChildrenOf(e.content).Some? ==> Bounded(ChildrenOf(e.content).value, |e.content|)
    ensures DeepElement(e) ==
              if e.constructed && ChildrenOf(e.content).Some?
              then e.(content := EncodeAll(DeepElements(ChildrenOf(e.content).value, |e.content|))) else e
  {
    hide ChildrenFrom, EncodeAll, DeepElements;
    if ChildrenOf(e.content).Some? {
      ChildrenFit(e.content, 0);
    }
  }

  method ReencodeDeep(e: Element) returns (out: Bytes)
    requires Writable(e)
    ensures out == Encode(DeepElement(e))
    decreases |e.content|
  {
    hide *;
    DeepElementIs(e);
    DeepWritable(e);
    if e.constructed {
      var children, _ := Children(e.content);
      if children.Some? {
        var es, content: Bytes, i := children.value, [], 0;
        DeepRestEnds(es, |e.content|);
        while i < |es|
          invariant 0 <= i <= |es|
          invariant content + DeepRest(es, i, |e.content|) == DeepRest(es, 0, |e.content|)
        {
          DeepRestStep(es, i, |e.content|);
          var child := ReencodeDeep(es[i]);
          assert content + (child + DeepRest(es, i + 1, |e.content|)) == content + child +
              DeepRest(es, i + 1, |e.content|);
          content := content + child;
          i := i + 1;
        }
        assert content + [] == content;
        assert e.(content := content) == DeepElement(e);
        out := Reencode(e.(content := content));
        return;
      }
    }
    out := Reencode(e);
  }

  lemma DeepWritable(e: Element)
    requires Writable(e)
    ensures Writable(DeepElement(e)) && (Readable(e) ==> Readable(DeepElement(e)))
  {
    hide DeepElement;
    assert |DeepElement(e).content| <= |e.content|;
  }

  lemma DeepElementsStep(es: seq<Element>, bound: nat)
    requires es != [] && AllReadable(es) && forall i :: 0 <= i < |es| ==> |es[i].content| + 2 <= bound
    ensures Readable(es[0]) && AllReadable(es[1..])
    ensures DeepElements(es, bound) == [DeepElement(es[0])] + DeepElements(es[1..], bound)
    ensures EncodeAll(DeepElements(es, bound)) == Encode(DeepElement(es[0])) + EncodeAll(DeepElements(es[1..], bound))
  {
    hide Encode, DeepElement;
    assert Readable(es[0]);
    assert ([DeepElement(es[0])] + DeepElements(es[1..], bound))[1..] == DeepElements(es[1..], bound);
  }

  // ---- idempotence

  lemma EncodeIgnoresTotal(e: Element, total: nat)
    requires Writable(e)
    ensures Encode(e.(total := total)) == Encode(e)
  {
    hide LengthHeader;
  }

  lemma DeepIgnoresTotal(e: Element, total: nat)
    requires Writable(e)
    ensures DeepElement(e.(total := total)) == DeepElement(e).(total := total)
  {
    hide ChildrenFrom, EncodeAll, DeepElements, DeepElement;
    DeepElementIs(e);
    DeepElementIs(e.(total := total));
  }

  lemma SizedStep(es: seq<Element>)
    requires es != [] && AllReadable(es)
    ensures Readable(es[0]) && AllReadable(es[1..])
    ensures Sized(es) != [] && Sized(es)[0] == es[0].(total := |Encode(es[0])|) && Sized(es)[1..] == Sized(es[1..])
  {
    hide Encode, Readable;
    ReadableEach(es);
  }

  lemma ReadableEach(es: seq<Element>)
    requires AllReadable(es)
    ensures forall i :: 0 <= i < |es| ==> Readable(es[i])
    ensures forall i, j :: 0 <= i <= j <= |es| ==> AllReadable(es[i..j])
  {
    hide Readable;
  }

  lemma SizedReadable(es: seq<Element>, bound: nat)
    requires AllReadable(es) && |EncodeAll(es)| <= bound
    ensures AllReadable(Sized(es)) && Bounded(Sized(es), bound)
    decreases |es|
  {
    hide Encode;
    if es != [] {
      SizedStep(es);
      EncodeCovers(es[0]);
      SizedReadable(es[1..], bound - |Encode(es[0])|);
      var r, rest := Sized(es), Sized(es[1..]);
      forall i | 0 <= i < |r|
        ensures Readable(r[i]) && |r[i].content| + 2 <= bound
      {
        if i > 0 {
          assert r[i] == rest[i - 1];
        }
      }
    }
  }

  lemma EncodeCovers(e: Element)
    requires Writable(e)
    ensures |Encode(e)| >= |e.content| + 2
  {
  }

  /** Re-encoding again what was re-encoded and read back changes nothing, for each child and for them all. */
  lemma {:induction false} DeepAgain(e: Element)
    requires Writable(e)
    ensures Writable(DeepElement(e)) && DeepElement(DeepElement(e)) == DeepElement(e)
    decreases |e.content|, 1, 0
  {
    hide *;
    DeepWritable(e);
    DeepElementIs(e);
    var d := DeepElement(e);
    DeepElementIs(d);
    if e.constructed && ChildrenOf(e.content).Some? {
      var es := ChildrenOf(e.content).value;
      BoundedIs(es, |e.content|);
      var ds := DeepElements(es, |e.content|);
      ChildrenOfEncodeAll(ds);
      SizedReadable(ds, |d.content|);
      AllAgain(es, |e.content|, |d.content|);
    }
  }

  lemma BoundedIs(es: seq<Element>, bound: nat)
    ensures Bounded(es, bound) <==> AllReadable(es) && forall i :: 0 <= i < |es| ==> |es[i].content| + 2 <= bound
  {
    hide AllReadable;
  }

  lemma {:induction false} AllAgain(es: seq<Element>, bound: nat, bound': nat)
    requires Bounded(es, bound) && Bounded(Sized(DeepElements(es, bound)), bound')
    ensures EncodeAll(DeepElements(Sized(DeepElements(es, bound)), bound')) == EncodeAll(DeepElements(es, bound))
    decreases bound, 0, |es|
  {
    hide *;
    BoundedIs(es, bound);
    var ds := DeepElements(es, bound);
    var ss := Sized(ds);
    BoundedIs(ss, bound');
    if es == [] {
      NothingAgain(es, bound, bound');
    } else {
      DeepElementsStep(es, bound);
      ReadableWrites(es[0]);
      assert ds[0] == DeepElement(es[0]) && ds[1..] == DeepElements(es[1..], bound);
      SizedStep(ds);
      ReadableEach(es);
      ReadableEach(ss);
      DeepElementsStep(ss, bound');
      ReadableWrites(es[0]);
      ReadableWrites(ds[0]);
      DeepAgain(es[0]);
      DeepIgnoresTotal(ds[0], |Encode(ds[0])|);
      EncodeIgnoresTotal(ds[0], |Encode(ds[0])|);
      BoundedIs(es[1..], bound);
      BoundedIs(ss[1..], bound');
      AllAgain(es[1..], bound, bound');
    }
  }

  lemma ReadableWrites(e: Element)
    requires Readable(e)
    ensures Writable(e)
  {
  }

  lemma NothingAgain(es: seq<Element>, bound: nat, bound': nat)
    requires es == [] && Bounded(es, bound) && Bounded(Sized(DeepElements(es, bound)), bound')
    ensures EncodeAll(DeepElements(Sized(DeepElements(es, bound)), bound')) == EncodeAll(DeepElements(es, bound))
  {
  }

  /**
   * From bytes to bytes: what is read re-encodes to no more bytes, reads back whole, and re-encodes to the same bytes.
   */
  lemma ReencodeDeepOfRead(der: Bytes, offset: nat, after: Bytes)
    requires offset <= |der| && ReadAt(der, offset).Read?
    ensures var e := ReadAt(der, offset).element;
            var out := Encode(DeepElement(e));
            && |out| <= e.total
            && ReadAt(out + after, 0).Read? && ReadAt(out + after, 0).element.total == |out|
            && Encode(DeepElement(ReadAt(out + after, 0).element)) == out
  {
    hide *;
    EncodeOfRead(der, offset);
    var e := ReadAt(der, offset).element;
    ReadableWrites(e);
    var d := DeepElement(e);
    DeepWritable(e);
    EncodeSize(d, e);
    ReadOfEncode([], d, after);
    assert [] + Encode(d) + after == Encode(d) + after;
    DeepAgain(e);
    DeepIgnoresTotal(d, |Encode(d)|);
    EncodeIgnoresTotal(d, |Encode(d)|);
  }

  // ---- what an element says, lengths apart

  datatype Tree =
    | Leaf(tagClass: nat, constructed: bool, number: nat, content: Bytes)
    | Branch(tagClass: nat, number: nat, children: seq<Tree>)

  ghost function TreeOf(e: Element): Tree
    requires Writable(e)
    decreases |e.content|, 1, 0
  {
    if e.constructed && ChildrenOf(e.content).Some? then
      ChildrenFit(e.content, 0);
      Branch(e.tagClass, e.number, TreesOf(ChildrenOf(e.content).value, |e.content|))
    else Leaf(e.tagClass, e.constructed, e.number, e.content)
  }

  ghost function TreesOf(es: seq<Element>, bound: nat): (r: seq<Tree>)
    requires Bounded(es, bound)
    ensures |r| == |es|
    decreases bound, 0, |es|
  {
    if es == [] then []
    else
      assert Readable(es[0]);
      [TreeOf(es[0])] + TreesOf(es[1..], bound)
  }

  lemma TreeOfIs(e: Element)
    requires Writable(e)
    ensures ChildrenOf(e.content).Some? ==> Bounded(ChildrenOf(e.content).value, |e.content|)
    ensures TreeOf(e) ==
              if e.constructed && ChildrenOf(e.content).Some?
              then Branch(e.tagClass, e.number, TreesOf(ChildrenOf(e.content).value, |e.content|))
              else Leaf(e.tagClass, e.constructed, e.number, e.content)
  {
    hide ChildrenFrom, TreesOf;
    if ChildrenOf(e.content).Some? {
      ChildrenFit(e.content, 0);
    }
  }

  lemma TreesOfStep(es: seq<Element>, bound: nat)
    requires es != [] && Bounded(es, bound)
    ensures Writable(es[0]) && Readable(es[0]) && Bounded(es[1..], bound)
    ensures TreesOf(es, bound) == [TreeOf(es[0])] + TreesOf(es[1..], bound)
  {
    hide TreeOf;
    assert Readable(es[0]);
  }

  lemma TreeIgnoresTotal(e: Element, total: nat)
    requires Writable(e)
    ensures TreeOf(e.(total := total)) == TreeOf(e)
  {
    hide ChildrenFrom, TreesOf, TreeOf;
    TreeOfIs(e);
    TreeOfIs(e.(total := total));
  }

  /** Re-encoding keeps the tree: tags, nesting and the content of whatever does not parse further. */
  lemma {:induction false} TreeOfDeep(e: Element)
    requires Writable(e)
    ensures Writable(DeepElement(e)) && TreeOf(DeepElement(e)) == TreeOf(e)
    decreases |e.content|, 1, 0
  {
    hide *;
    DeepWritable(e);
    DeepElementIs(e);
    var d := DeepElement(e);
    TreeOfIs(e);
    TreeOfIs(d);
    if e.constructed && ChildrenOf(e.content).Some? {
      var es := ChildrenOf(e.content).value;
      BoundedIs(es, |e.content|);
      var ds := DeepElements(es, |e.content|);
      ChildrenOfEncodeAll(ds);
      SizedReadable(ds, |d.content|);
      TreesOfDeep(es, |e.content|, |d.content|);
    }
  }

  lemma {:induction false} TreesOfDeep(es: seq<Element>, bound: nat, bound': nat)
    requires Bounded(es, bound) && Bounded(Sized(DeepElements(es, bound)), bound')
    ensures TreesOf(Sized(DeepElements(es, bound)), bound') == TreesOf(es, bound)
    decreases bound, 0, |es|
  {
    hide *;
    BoundedIs(es, bound);
    var ds := DeepElements(es, bound);
    var ss := Sized(ds);
    if es == [] {
      NoTrees(es, bound);
      NoTrees(ss, bound');
    } else {
      DeepElementsStep(es, bound);
      ReadableWrites(es[0]);
      assert ds[0] == DeepElement(es[0]) && ds[1..] == DeepElements(es[1..], bound);
      SizedStep(ds);
      TreesOfStep(es, bound);
      TreesOfStep(ss, bound');
      TreeOfDeep(es[0]);
      TreeIgnoresTotal(ds[0], |Encode(ds[0])|);
      TreesOfDeep(es[1..], bound, bound');
    }
  }

  lemma NoTrees(es: seq<Element>, bound: nat)
    requires es == [] && Bounded(es, bound)
    ensures TreesOf(es, bound) == []
  {
  }

  lemma {:induction false} SameTree(a: Element, b: Element)
    requires Writable(a) && Writable(b) && TreeOf(a) == TreeOf(b)
    ensures DeepElement(a) == DeepElement(b).(total := a.total)
    decreases |a.content|, 1, 0
  {
    hide *;
    DeepElementIs(a);
    DeepElementIs(b);
    TreeOfIs(a);
    TreeOfIs(b);
    if a.constructed && ChildrenOf(a.content).Some? {
      var es, fs := ChildrenOf(a.content).value, ChildrenOf(b.content).value;
      BoundedIs(es, |a.content|);
      BoundedIs(fs, |b.content|);
      SameTrees(es, |a.content|, fs, |b.content|);
    }
  }

  lemma {:induction false} SameTrees(es: seq<Element>, bound: nat, fs: seq<Element>, bound': nat)
    requires Bounded(es, bound) && Bounded(fs, bound') && TreesOf(es, bound) == TreesOf(fs, bound')
    ensures EncodeAll(DeepElements(es, bound)) == EncodeAll(DeepElements(fs, bound'))
    decreases bound, 0, |es|
  {
    hide *;
    BoundedIs(es, bound);
    BoundedIs(fs, bound');
    if es == [] {
      NoElements(es, bound);
      NoElements(fs, bound');
    } else {
      TreesOfStep(es, bound);
      TreesOfStep(fs, bound');
      DeepElementsStep(es, bound);
      DeepElementsStep(fs, bound');
      assert TreesOf(es, bound)[1..] == TreesOf(es[1..], bound) && TreesOf(fs, bound')[1..] == TreesOf(fs[1..], bound');
      assert TreesOf(es, bound)[0] == TreesOf(fs, bound')[0];
      SameTree(es[0], fs[0]);
      DeepWritable(fs[0]);
      EncodeIgnoresTotal(DeepElement(fs[0]), es[0].total);
      SameTrees(es[1..], bound, fs[1..], bound');
    }
  }

  lemma NoElements(es: seq<Element>, bound: nat)
    requires es == [] && Bounded(es, bound)
    ensures EncodeAll(DeepElements(es, bound)) == []
  {
  }

  /**
   * ReencodeDeep is a canonical form: two elements re-encode alike exactly when only their lengths were written
   * differently.
   */
  lemma CanonicalForm(a: Element, b: Element)
    requires Readable(a) && Readable(b)
    ensures Writable(a) && Writable(b) && Writable(DeepElement(a)) && Writable(DeepElement(b))
    ensures Encode(DeepElement(a)) == Encode(DeepElement(b)) <==> TreeOf(a) == TreeOf(b)
  {
    hide *;
    ReadableWrites(a);
    ReadableWrites(b);
    DeepWritable(a);
    DeepWritable(b);
    var d, f := DeepElement(a), DeepElement(b);
    if TreeOf(a) == TreeOf(b) {
      SameTree(a, b);
      EncodeIgnoresTotal(f, a.total);
    }
    if Encode(d) == Encode(f) {
      ReadOfEncode([], d, []);
      ReadOfEncode([], f, []);
      TreeOfDeep(a);
      TreeOfDeep(b);
      TreeIgnoresTotal(d, |Encode(d)|);
      TreeIgnoresTotal(f, |Encode(f)|);
    }
  }
}
