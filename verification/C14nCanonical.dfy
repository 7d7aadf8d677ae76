/** Why the canonical form is canonical: the order in which attributes and namespace
    declarations were written does not show in the output. */
module C14nCanonical {

  import opened Optional
  import opened SortedList
  import opened C14nTree
  import opened C14nMeaning

  // -------------------------------------------------------------- total orders

  lemma NsCompareTotal(ps: seq<Ns>)
    requires DistinctPrefixes(ps)
    ensures TotalOn(NsCompare, Elements(ps))
  {
    forall a, b | a in Elements(ps) && b in Elements(ps)
      ensures Consistent(NsCompare, a, b)
    {
      StrCmpOrder(a.prefix, b.prefix, "");
    }
    forall a, b, c | a in Elements(ps) && b in Elements(ps) && c in Elements(ps)
      ensures Transitive(NsCompare, a, b, c)
    {
      StrCmpOrder(a.prefix, b.prefix, c.prefix);
      StrCmpOrder(a.prefix, c.prefix, "");
      StrCmpOrder(b.prefix, a.prefix, "");
    }
  }

  /** A namespaced attribute has a prefixed namespace. */
  predicate Qualified(a: Attribute) {
    a.ns.Some? ==> a.ns.value.prefix != ""
  }

  /** The order of Canonical XML: attributes without a namespace first, then by
      namespace URI, then by local name. */
  function KeyCompare(a: Attribute, b: Attribute): int {
    if a.ns.None? && b.ns.None? then StrCmp(a.name, b.name)
    else if a.ns.None? then -1
    else if b.ns.None? then 1
    else if a.ns.value.href == b.ns.value.href then StrCmp(a.name, b.name)
    else StrCmp(a.ns.value.href, b.ns.value.href)
  }

  lemma AttrCompareIsKeyOrder(a: Attribute, b: Attribute)
    requires Qualified(a) && Qualified(b)
    ensures AttrCompare(a, b) == KeyCompare(a, b)
  {
    StrCmpOrder(a.name, b.name, "");
    if a.ns.Some? && b.ns.Some? {
      StrCmpOrder(a.ns.value.href, b.ns.value.href, "");
    }
  }

  /** The comparator gives opposite answers in the two directions except on exactly
      one family: two attributes in two different default namespaces. */
  lemma AttrCompareSymmetry(a: Attribute, b: Attribute)
    ensures (AttrCompare(a, b) < 0 <==> AttrCompare(b, a) > 0) && (AttrCompare(a, b) > 0 <==> AttrCompare(b, a) < 0)
            <==> !(a.ns.Some? && b.ns.Some? && a.ns != b.ns && a.ns.value.prefix == "" && b.ns.value.prefix == "")
  {
    StrCmpOrder(a.name, b.name, "");
    StrCmpOrder(b.name, a.name, "");
    if a.ns.Some? && b.ns.Some? {
      StrCmpOrder(a.ns.value.href, b.ns.value.href, "");
      StrCmpOrder(b.ns.value.href, a.ns.value.href, "");
    }
  }

  /** No two attributes of an element have the same namespace URI and local name. */
  ghost predicate DistinctNames(attrs: seq<Attribute>) {
    && (forall a | a in attrs :: Qualified(a))
    && (forall i, j | 0 <= i < j < |attrs| :: KeyCompare(attrs[i], attrs[j]) != 0)
  }

  lemma KeyOrder(a: Attribute, b: Attribute, c: Attribute)
    ensures KeyCompare(a, b) < 0 <==> KeyCompare(b, a) > 0
    ensures KeyCompare(a, b) == 0 <==> KeyCompare(b, a) == 0
    ensures KeyCompare(a, b) < 0 && KeyCompare(b, c) < 0 ==> KeyCompare(a, c) < 0
    ensures KeyCompare(a, a) == 0
  {
    StrCmpOrder(a.name, b.name, c.name);
    StrCmpOrder(b.name, a.name, c.name);
    StrCmpOrder(a.name, a.name, "");
    if a.ns.Some? && b.ns.Some? {
      StrCmpOrder(a.ns.value.href, b.ns.value.href, if c.ns.Some? then c.ns.value.href else "");
      StrCmpOrder(b.ns.value.href, a.ns.value.href, "");
      if c.ns.Some? {
        StrCmpOrder(a.ns.value.href, c.ns.value.href, "");
        StrCmpOrder(c.ns.value.href, a.ns.value.href, "");
      }
    }
  }

  lemma AttrCompareTotal(attrs: seq<Attribute>)
    requires DistinctNames(attrs)
    ensures TotalOn(AttrCompare, Elements(attrs)) && Distinct(attrs)
  {
    forall i, j | 0 <= i < j < |attrs|
      ensures attrs[i] != attrs[j]
    {
      KeyOrder(attrs[i], attrs[j], attrs[j]);
    }
    forall a, b | a in Elements(attrs) && b in Elements(attrs)
      ensures Consistent(AttrCompare, a, b)
    {
      AttrCompareIsKeyOrder(a, b);
      AttrCompareIsKeyOrder(b, a);
      KeyOrder(a, b, b);
      var i :| 0 <= i < |attrs| && attrs[i] == a;
      var j :| 0 <= j < |attrs| && attrs[j] == b;
      if i < j {
        assert KeyCompare(attrs[i], attrs[j]) != 0;
      } else if j < i {
        assert KeyCompare(attrs[j], attrs[i]) != 0;
      }
    }
    forall a, b, c | a in Elements(attrs) && b in Elements(attrs) && c in Elements(attrs)
      ensures Transitive(AttrCompare, a, b, c)
    {
      AttrCompareIsKeyOrder(a, b);
      AttrCompareIsKeyOrder(b, c);
      AttrCompareIsKeyOrder(a, c);
      KeyOrder(a, b, c);
    }
  }

  // ------------------------------------------------------- rewritten documents

  ghost predicate WellFormed(n: Node)
    decreases n
  {
    n.Element? ==>
      && DistinctPrefixes(n.nsDef) && DistinctNames(n.attrs)
      && forall k | 0 <= k < |n.children| :: WellFormed(n.children[k])
  }

  /** `b` is `a` with attributes and namespace declarations written in another order. */
  ghost predicate Reordered(a: Node, b: Node)
    decreases a
  {
    if a.Element? then
      && b.Element? && a.id == b.id && a.prefix == b.prefix && a.name == b.name
      && multiset(a.nsDef) == multiset(b.nsDef) && multiset(a.attrs) == multiset(b.attrs)
      && |a.children| == |b.children|
      && forall k | 0 <= k < |a.children| :: Reordered(a.children[k], b.children[k])
    else a == b
  }

  /** Two ancestor chains that differ only in the order of declarations. */
  ghost predicate SameChain(c: seq<Elem>, d: seq<Elem>) {
    |c| == |d| && forall k | 0 <= k < |c| :: SameDecls(c[k], d[k])
  }

  ghost predicate SameDecls(e: Elem, f: Elem) {
    e.id == f.id && multiset(e.nsDef) == multiset(f.nsDef) && DistinctPrefixes(e.nsDef)
  }

  function InForce(l: seq<Ns>, p: string): Option<Ns> {
    match Search(l, p)
    case None => None
    case Some(i) => Some(l[i])
  }

  lemma InForceIn(l: seq<Ns>, m: seq<Ns>, p: string)
    requires multiset(l) == multiset(m) && DistinctPrefixes(l)
    ensures InForce(l, p) == InForce(m, p)
  {
    SameElements(l, m);
    assert forall x :: x in l <==> x in Elements(l);
    assert forall x :: x in m <==> x in Elements(m);
    assert forall k | 0 <= k < |m| :: m[k] in l;
    assert forall k | 0 <= k < |l| :: l[k] in m;
  }

  lemma InForceConcat(a: seq<Ns>, b: seq<Ns>, p: string)
    ensures InForce(a + b, p) == if InForce(a, p).Some? then InForce(a, p) else InForce(b, p)
  {
    SearchConcat(a, b, p);
  }

  lemma {:induction false} InForceSame(c: seq<Elem>, d: seq<Elem>, p: string)
    requires SameChain(c, d)
    ensures InForce(Decls(c), p) == InForce(Decls(d), p)
  {
    if c != [] {
      InForceSame(c[1..], d[1..], p);
      InForceIn(c[0].nsDef, d[0].nsDef, p);
      InForceConcat(c[0].nsDef, Decls(c[1..]), p);
      InForceConcat(d[0].nsDef, Decls(d[1..]), p);
    }
  }

  lemma BindingIsInForce(l: seq<Ns>, p: string)
    ensures Binding(l, p) == if InForce(l, p).Some? then Declares(InForce(l, p).value) else None
  {
  }

  /** Two lists of declarations with distinct prefixes and the same members are
      permutations of each other. */
  lemma SameMembers(a: seq<Ns>, b: seq<Ns>)
    requires DistinctPrefixes(a) && DistinctPrefixes(b) && forall x :: x in a <==> x in b
    ensures multiset(a) == multiset(b) && Distinct(a)
  {
    assert Distinct(a) && Distinct(b);
    DistinctMultiset(a);
    DistinctMultiset(b);
    forall x
      ensures multiset(a)[x] == multiset(b)[x]
    {
      assert x in a <==> x in multiset(a);
      assert x in b <==> x in multiset(b);
    }
  }

  lemma PrintedDistinct(o: Options, e: Elem, anc: seq<Elem>)
    ensures DistinctPrefixes(Unrendered(StackAt(o, anc), Pushes(o, e, anc)))
  {
    PushesDistinct(o, e.id, Decls([e] + anc), 0);
    UnrenderedDistinct(StackAt(o, anc), Pushes(o, e, anc));
  }

  lemma UnrenderedMembers(o: Options, e: Elem, anc: seq<Elem>, x: Ns)
    requires AllVisible(o)
    ensures x in Unrendered(StackAt(o, anc), Pushes(o, e, anc)) <==>
            InForce(Decls([e] + anc), x.prefix) == Some(x) && Binding(Decls(anc), x.prefix) != Declares(x)
  {
    var l, s, ps := Decls([e] + anc), StackAt(o, anc), Pushes(o, e, anc);
    PrintedAre(o, e, anc);
    NoSyntheticDefault(o, e, anc);
    InsertAllKeeps([], Unrendered(s, ps), NsCompare);
    SameElements(InsertAll([], Unrendered(s, ps), NsCompare), Unrendered(s, ps));
    assert x in PrintedDecls(o, e, anc) <==> x in Elements(Unrendered(s, ps));
  }

  lemma SameTail(e: Elem, c: seq<Elem>, f: Elem, d: seq<Elem>)
    requires SameChain([e] + c, [f] + d)
    ensures SameChain(c, d)
  {
    assert |[e] + c| == |c| + 1 && |[f] + d| == |d| + 1;
    forall k | 0 <= k < |c|
      ensures SameDecls(c[k], d[k])
    {
      assert SameDecls(([e] + c)[k + 1], ([f] + d)[k + 1]);
    }
  }

  lemma UnrenderedSame(o: Options, e: Elem, c: seq<Elem>, f: Elem, d: seq<Elem>, x: Ns)
    requires AllVisible(o) && SameChain([e] + c, [f] + d)
    ensures x in Unrendered(StackAt(o, c), Pushes(o, e, c)) <==> x in Unrendered(StackAt(o, d), Pushes(o, f, d))
  {
    UnrenderedMembers(o, e, c, x);
    UnrenderedMembers(o, f, d, x);
    InForceSame([e] + c, [f] + d, x.prefix);
    SameTail(e, c, f, d);
    InForceSame(c, d, x.prefix);
    BindingIsInForce(Decls(c), x.prefix);
    BindingIsInForce(Decls(d), x.prefix);
  }

  lemma PrintedDeclsSame(o: Options, e: Elem, c: seq<Elem>, f: Elem, d: seq<Elem>)
    requires AllVisible(o) && SameChain([e] + c, [f] + d)
    ensures PrintedDecls(o, e, c) == PrintedDecls(o, f, d)
  {
    var a := Unrendered(StackAt(o, c), Pushes(o, e, c));
    var b := Unrendered(StackAt(o, d), Pushes(o, f, d));
    assert InsertAll([], a, NsCompare) == InsertAll([], b, NsCompare) by {
      PrintedDistinct(o, e, c);
      PrintedDistinct(o, f, d);
      forall x
        ensures x in a <==> x in b
      {
        UnrenderedSame(o, e, c, f, d, x);
      }
      SameMembers(a, b);
      NsCompareTotal(a);
      InsertAllCanonical(a, b, NsCompare);
    }
    NoSyntheticDefault(o, e, c);
    NoSyntheticDefault(o, f, d);
  }

  lemma PrintedAttrsSame(o: Options, e: Elem, c: seq<Elem>, f: Elem, d: seq<Elem>)
    requires AllVisible(o) && multiset(e.attrs) == multiset(f.attrs) && DistinctNames(e.attrs)
    ensures PrintedAttrs(o, e, c) == PrintedAttrs(o, f, d)
  {
    PrintedAttrsAre(o, e, c);
    PrintedAttrsAre(o, f, d);
    AttrCompareTotal(e.attrs);
    InsertAllCanonical(e.attrs, f.attrs, AttrCompare);
  }

  lemma RelativeSame(o: Options, l: seq<Ns>, m: seq<Ns>)
    requires multiset(l) == multiset(m)
    ensures RelativeDecl(o, l) == RelativeDecl(o, m)
  {
    SameElements(l, m);
    if RelativeDecl(o, l) {
      var i :| 0 <= i < |l| && l[i].href != "" && o.relative(l[i].href);
      assert l[i] in Elements(m);
    }
    if RelativeDecl(o, m) {
      var i :| 0 <= i < |m| && m[i].href != "" && o.relative(m[i].href);
      assert m[i] in Elements(l);
    }
  }

  /** The canonical form does not depend on the order of attributes and declarations. */
  lemma {:induction false} RenderCanonical(o: Options, a: Node, b: Node, c: seq<Elem>, d: seq<Elem>, place: Place)
    requires AllVisible(o) && WellFormed(a) && Reordered(a, b) && SameChain(c, d)
    ensures Render(o, a, c, place) == Render(o, b, d, place)
    decreases a, 1
  {
    if a.Element? {
      RelativeSame(o, a.nsDef, b.nsDef);
      assert SameChain([a] + c, [b] + d);
      PrintedDeclsSame(o, a, c, b, d);
      PrintedAttrsSame(o, a, c, b, d);
      RenderListCanonical(o, a.children, b.children, [a] + c, [b] + d,
                          if place.parentIsDoc then Place(Inside, false) else place);
    }
  }

  lemma {:induction false} RenderListCanonical(o: Options, a: seq<Node>, b: seq<Node>, c: seq<Elem>, d: seq<Elem>, place: Place)
    requires AllVisible(o) && SameChain(c, d) && |a| == |b|
    requires forall k | 0 <= k < |a| :: WellFormed(a[k]) && Reordered(a[k], b[k])
    ensures RenderList(o, a, c, place) == RenderList(o, b, d, place)
    decreases a, 0
  {
    if a != [] {
      RenderCanonical(o, a[0], b[0], c, d, place);
      var first := Render(o, a[0], c, place);
      if first.Done? {
        assert forall k | 0 <= k < |a| - 1 :: a[1..][k] == a[k + 1] && b[1..][k] == b[k + 1];
        RenderListCanonical(o, a[1..], b[1..], c, d, first.place);
      }
    }
  }

  /** Documents that differ only in those orders have the same canonical text. */
  lemma CanonicalText(o: Options, a: seq<Node>, b: seq<Node>)
    requires AllVisible(o) && |a| == |b|
    requires forall k | 0 <= k < |a| :: WellFormed(a[k]) && Reordered(a[k], b[k])
    ensures Canonical(o, a) == Canonical(o, b)
  {
    RenderListCanonical(o, a, b, [], [], Place(Before, true));
  }
}
