/** What decoding guarantees, and what equal canonical bytes mean. */
module JsonEquality {
  import opened Bytes
  import opened KeyOrder
  import opened JsonValue
  import opened Canonical
  import opened JsonRoundTrip

  // ---- equality up to member order

  ghost predicate Matches(m: Member, n: Member)
    decreases m, 0
  {
    m.key == n.key && Same(m.val, n.val)
  }

  /** m, or for the second form n, has a counterpart. */
  ghost predicate MatchedBy(m: Member, ns: seq<Member>)
    decreases m, 1
  {
    exists j :: 0 <= j < |ns| && Matches(m, ns[j])
  }

  ghost predicate MatchedIn(ms: seq<Member>, n: Member)
    decreases ms
  {
    exists i :: 0 <= i < |ms| && Matches(ms[i], n)
  }

  /** The same JSON value, whatever the order of the members of each object. */
  ghost predicate Same(v: Value, w: Value)
    decreases v
  {
    match v
    case Array(items) =>
      && w.Array? && |items| == |w.items|
      && forall i :: 0 <= i < |items| ==> Same(items[i], w.items[i])
    case Object(ms) =>
      && w.Object?
      && (forall i :: 0 <= i < |ms| ==> MatchedBy(ms[i], w.members))
      && (forall j :: 0 <= j < |w.members| ==> MatchedIn(ms, w.members[j]))
    case _ => v == w
  }

  function NormMember(m: Member): Member
  {
    Member(m.key, Norm(m.val))
  }

  lemma {:induction false} NormMembersAt(ms: seq<Member>, i: nat)
    requires i < |ms|
    ensures NormMembers(ms)[i] == NormMember(ms[i])
  {
    if i > 0 {
      NormMembersAt(ms[1..], i - 1);
    }
  }

  lemma {:induction false} NormItemsAt(items: seq<Value>, i: nat)
    requires i < |items|
    ensures NormItems(items)[i] == Norm(items[i])
  {
    if i > 0 {
      NormItemsAt(items[1..], i - 1);
    }
  }

  lemma NormKeepsOrder(ms: seq<Member>)
    requires SortedByKey(ms) && ValidKeys(ms)
    ensures SortedByKey(NormMembers(ms)) && ValidKeys(NormMembers(ms))
  {
    hide Norm, NormMembers, Less, ValidUtf8;
    forall i | 0 <= i < |ms|
      ensures NormMembers(ms)[i].key == ms[i].key
    {
      NormMembersAt(ms, i);
    }
  }

  ghost predicate HasNorm(ms: seq<Member>, m: Member)
  {
    exists i :: 0 <= i < |ms| && NormMember(ms[i]) == m
  }

  /** The members of a normalised object are the normalised members. */
  lemma NormMembersAre(ms: seq<Member>, m: Member)
    ensures m in NormMembers(ms) <==> HasNorm(ms, m)
  {
    hide Norm, NormMembers, NormMember;
    var r := NormMembers(ms);
    if m in r {
      var i :| 0 <= i < |r| && r[i] == m;
      NormMembersAt(ms, i);
    }
    if i :| 0 <= i < |ms| && NormMember(ms[i]) == m {
      NormMembersAt(ms, i);
      assert r[i] == m;
    }
  }

  lemma NormMembersOfSort(ms: seq<Member>, m: Member)
    ensures m in NormMembers(Sort(ms)) <==> HasNorm(ms, m)
  {
    hide Norm, NormMembers, NormMember, Sort;
    SortSameMembers(ms);
    NormMembersAre(Sort(ms), m);
    if i :| 0 <= i < |ms| && NormMember(ms[i]) == m {
      assert ms[i] in Sort(ms);
    }
    if i :| 0 <= i < |Sort(ms)| && NormMember(Sort(ms)[i]) == m {
      assert Sort(ms)[i] in Sort(ms);
      assert Sort(ms)[i] in ms;
    }
  }

  /** Equal up to member order means equal once the members are in key order. */
  lemma {:induction false} SameNorm(v: Value, w: Value)
    requires WellFormed(v) && WellFormed(w)
    ensures Same(v, w) <==> Norm(v) == Norm(w)
    decreases v
  {
    if v.Array? && w.Array? {
      ArraySameNorm(v, w);
    } else if v.Object? && w.Object? {
      ObjectSameNorm(v, w);
    }
  }

  lemma {:induction false} ArraySameNorm(v: Value, w: Value)
    requires v.Array? && w.Array? && WellFormed(v) && WellFormed(w)
    ensures Same(v, w) <==> Norm(v) == Norm(w)
    decreases v, 0
  {
    hide NormItems;
    if |v.items| == |w.items| {
      forall i | 0 <= i < |v.items|
        ensures Same(v.items[i], w.items[i]) <==> NormItems(v.items)[i] == NormItems(w.items)[i]
      {
        SameNorm(v.items[i], w.items[i]);
        NormItemsAt(v.items, i);
        NormItemsAt(w.items, i);
      }
    }
  }

  lemma {:induction false} ObjectSameNorm(v: Value, w: Value)
    requires v.Object? && w.Object? && WellFormed(v) && WellFormed(w)
    ensures Same(v, w) <==> Norm(v) == Norm(w)
    decreases v, 0
  {
    hide Norm, NormMembers, NormMember, Sort, Same, Matches, ValidUtf8, HasNorm, MatchedBy, MatchedIn;
    var ms, ns := v.members, w.members;
    assert ValidKeys(ms) && ValidKeys(ns);
    forall i, j | 0 <= i < |ms| && 0 <= j < |ns|
      ensures Matches(ms[i], ns[j]) <==> NormMember(ms[i]) == NormMember(ns[j])
    {
      SameNorm(ms[i].val, ns[j].val);
      MatchIsNorm(ms[i], ns[j]);
    }
    forall i | 0 <= i < |ms|
      ensures MatchedBy(ms[i], ns) <==> HasNorm(ns, NormMember(ms[i]))
    {
      MatchedByNorm(ms[i], ns);
    }
    forall j | 0 <= j < |ns|
      ensures MatchedIn(ms, ns[j]) <==> HasNorm(ms, NormMember(ns[j]))
    {
      MatchedInNorm(ms, ns[j]);
    }
    NormObject(v);
    NormObject(w);
    SameObject(v, w);
    NormEqual(ms, ns);
  }

  lemma MatchIsNorm(m: Member, n: Member)
    requires Same(m.val, n.val) <==> Norm(m.val) == Norm(n.val)
    ensures Matches(m, n) <==> NormMember(m) == NormMember(n)
  {
  }

  lemma MatchedByNorm(m: Member, ns: seq<Member>)
    requires forall j :: 0 <= j < |ns| ==> (Matches(m, ns[j]) <==> NormMember(m) == NormMember(ns[j]))
    ensures MatchedBy(m, ns) <==> HasNorm(ns, NormMember(m))
  {
    hide Matches, NormMember;
  }

  lemma MatchedInNorm(ms: seq<Member>, n: Member)
    requires forall i :: 0 <= i < |ms| ==> (Matches(ms[i], n) <==> NormMember(ms[i]) == NormMember(n))
    ensures MatchedIn(ms, n) <==> HasNorm(ms, NormMember(n))
  {
    hide Matches, NormMember;
  }

  lemma SameObject(v: Value, w: Value)
    requires v.Object? && w.Object?
    ensures Same(v, w) <==>
              && (forall i :: 0 <= i < |v.members| ==> MatchedBy(v.members[i], w.members))
              && (forall j :: 0 <= j < |w.members| ==> MatchedIn(v.members, w.members[j]))
  {
    hide MatchedBy, MatchedIn;
  }

  lemma NormEqual(ms: seq<Member>, ns: seq<Member>)
    requires Distinct(ms) && Distinct(ns) && ValidKeys(ms) && ValidKeys(ns)
    ensures NormMembers(Sort(ms)) == NormMembers(Sort(ns)) <==>
              && (forall i :: 0 <= i < |ms| ==> HasNorm(ns, NormMember(ms[i])))
              && (forall j :: 0 <= j < |ns| ==> HasNorm(ms, NormMember(ns[j])))
  {
    hide *;
    if NormMembers(Sort(ms)) == NormMembers(Sort(ns)) {
      NormEqualCovers(ms, ns);
      NormEqualCovers(ns, ms);
    }
    if (forall i :: 0 <= i < |ms| ==> HasNorm(ns, NormMember(ms[i])))
      && (forall j :: 0 <= j < |ns| ==> HasNorm(ms, NormMember(ns[j]))) {
      NormsSorted(ms);
      NormsSorted(ns);
      forall m
        ensures m in NormMembers(Sort(ms)) <==> m in NormMembers(Sort(ns))
      {
        NormMembersOfSort(ms, m);
        NormMembersOfSort(ns, m);
        NormCarries(ms, ns, m);
        NormCarries(ns, ms, m);
      }
      SortedUnique(NormMembers(Sort(ms)), NormMembers(Sort(ns)));
    }
  }

  lemma NormEqualCovers(ms: seq<Member>, ns: seq<Member>)
    requires NormMembers(Sort(ms)) == NormMembers(Sort(ns))
    ensures forall i :: 0 <= i < |ms| ==> HasNorm(ns, NormMember(ms[i]))
  {
    hide Norm, NormMembers, NormMember, Sort;
    forall i | 0 <= i < |ms|
      ensures HasNorm(ns, NormMember(ms[i]))
    {
      NormMembersOfSort(ms, NormMember(ms[i]));
      NormMembersOfSort(ns, NormMember(ms[i]));
    }
  }

  lemma NormCarries(ms: seq<Member>, ns: seq<Member>, m: Member)
    requires forall i :: 0 <= i < |ms| ==> HasNorm(ns, NormMember(ms[i]))
    ensures HasNorm(ms, m) ==> HasNorm(ns, m)
  {
  }

  lemma NormsSorted(ms: seq<Member>)
    requires Distinct(ms) && ValidKeys(ms)
    ensures SortedByKey(NormMembers(Sort(ms)))
  {
    hide *;
    SortSorted(ms);
    NormKeepsOrder(Sort(ms));
  }

  // ---- printing the normal form

  lemma {:induction false} CanonOfNorm(v: Value)
    requires WellFormed(v)
    ensures Canon(Norm(v)) == Canon(v)
    decreases Size(v), 1
  {
    if v.Array? {
      CanonItemsOfNorm(v.items);
    } else if v.Object? {
      var s := Sort(v.members);
      assert ValidKeys(v.members);
      SortSorted(v.members);
      SortSameMembers(v.members);
      forall i | 0 <= i < |s|
        ensures WellFormed(s[i].val)
      {
        assert s[i] in s;
      }
      NormKeepsOrder(s);
      SortOfSorted(NormMembers(s));
      CanonMembersOfNorm(s);
      hide *;
      CanonObject(v);
      CanonObject(Norm(v));
      NormObject(v);
    }
  }

  lemma CanonObject(v: Value)
    requires v.Object?
    ensures var inner := CanonMembers(Sort(v.members));
            Canon(v) == if inner.None? then None else Some([0x7B] + inner.value + [0x7D])
  {
  }

  lemma {:induction false} CanonItemsOfNorm(items: seq<Value>)
    requires forall i :: 0 <= i < |items| ==> WellFormed(items[i])
    ensures CanonItems(NormItems(items)) == CanonItems(items)
    decreases ItemsSize(items), 0
  {
    if items != [] {
      CanonOfNorm(items[0]);
      CanonItemsOfNorm(items[1..]);
      assert NormItems(items)[1..] == NormItems(items[1..]);
    }
  }

  lemma {:induction false} CanonMembersOfNorm(ms: seq<Member>)
    requires forall i :: 0 <= i < |ms| ==> WellFormed(ms[i].val)
    ensures CanonMembers(NormMembers(ms)) == CanonMembers(ms)
    decreases MembersSize(ms), 0
  {
    if ms != [] {
      CanonOfNorm(ms[0].val);
      CanonMembersOfNorm(ms[1..]);
      assert NormMembers(ms)[1..] == NormMembers(ms[1..]);
    }
  }
}
