/** The order of what a start tag prints, and which xml: attributes an element inherits
    from hidden parents, for every visibility predicate. */
module C14nOrder {

  import opened Optional
  import opened SortedList
  import opened C14nTree
  import opened C14nMeaning
  import opened C14nCanonical

  // ----------------------------------------------------------- lexicographic order

  /** The strings part at `k`: `a` ends there, or has the smaller character. */
  predicate PartAt(a: string, b: string, k: nat) {
    k <= |a| && k < |b| && a[..k] == b[..k] && (k == |a| || a[k] < b[k])
  }

  ghost predicate Before(a: string, b: string) {
    exists k: nat :: PartAt(a, b, k)
  }

  lemma {:induction false} StrCmpIsLexicographic(a: string, b: string)
    ensures StrCmp(a, b) < 0 <==> Before(a, b)
    decreases |a|
  {
    if b == "" {
    } else if a == "" {
      assert PartAt(a, b, 0);
    } else if a[0] != b[0] {
      PartsFirst(a, b);
    } else {
      StrCmpIsLexicographic(a[1..], b[1..]);
      PartsLater(a, b);
    }
  }

  lemma PartsFirst(a: string, b: string)
    requires a != "" && b != "" && a[0] != b[0]
    ensures Before(a, b) <==> a[0] < b[0]
  {
    if a[0] < b[0] {
      assert PartAt(a, b, 0);
    }
    if Before(a, b) {
      var k: nat :| PartAt(a, b, k);
      SameFirst(a, b, k);
    }
  }

  lemma SameFirst(a: string, b: string, k: nat)
    requires a != "" && b != ""
    ensures PartAt(a, b, k) && k > 0 ==> a[0] == b[0]
  {
    if PartAt(a, b, k) && k > 0 {
      assert a[0] == a[..k][0] && b[0] == b[..k][0];
    }
  }

  lemma PartsLater(a: string, b: string)
    requires a != "" && b != "" && a[0] == b[0]
    ensures Before(a, b) <==> Before(a[1..], b[1..])
  {
    if Before(a, b) {
      var k: nat :| PartAt(a, b, k);
      assert k > 0 && a[1..][..k - 1] == a[..k][1..] && b[1..][..k - 1] == b[..k][1..];
      assert PartAt(a[1..], b[1..], k - 1);
    }
    if Before(a[1..], b[1..]) {
      var k: nat :| PartAt(a[1..], b[1..], k);
      assert a[..k + 1] == [a[0]] + a[1..][..k] && b[..k + 1] == [b[0]] + b[1..][..k];
      assert PartAt(a, b, k + 1);
    }
  }

  lemma {:induction false} AscendingPairs<T>(l: seq<T>, cmp: (T, T) -> int)
    requires Ascending(l, cmp)
    ensures forall i, j | 0 <= i < j < |l| :: cmp(l[i], l[j]) < 0
  {
    if l != [] {
      AscendingPairs(l[1..], cmp);
      forall i, j | 0 <= i < j < |l|
        ensures cmp(l[i], l[j]) < 0
      {
        if i == 0 {
          assert l[j] in l[1..];
        } else {
          assert l[i] == l[1..][i - 1] && l[j] == l[1..][j - 1];
        }
      }
    }
  }

  // ------------------------------------------------------------------ declarations

  lemma SortedDecls(ps: seq<Ns>)
    requires DistinctPrefixes(ps)
    ensures Ascending(InsertAll([], ps, NsCompare), NsCompare)
    ensures forall x :: x in InsertAll([], ps, NsCompare) <==> x in ps
  {
    NsCompareTotal(ps);
    InsertAllAscends([], ps, NsCompare, Elements(ps));
    InsertAllKeeps([], ps, NsCompare);
    SameElements(InsertAll([], ps, NsCompare), ps);
    var r := InsertAll([], ps, NsCompare);
    assert forall x :: x in r <==> x in Elements(r);
  }

  /** The declarations of a start tag are printed in ascending order of their prefixes,
      the default namespace first. */
  lemma DeclsInOrder(o: Options, e: Elem, anc: seq<Elem>, i: nat, j: nat)
    requires i < j < |PrintedDecls(o, e, anc)|
    ensures Before(PrintedDecls(o, e, anc)[i].prefix, PrintedDecls(o, e, anc)[j].prefix)
  {
    var s, ps, d := StackAt(o, anc), Pushes(o, e, anc), PrintedDecls(o, e, anc);
    var us := Unrendered(s, ps);
    PushesDistinct(o, e.id, Decls([e] + anc), 0);
    UnrenderedDistinct(s, ps);
    UnrenderedAre(s, ps);
    SortedDecls(us);
    if d[0] == NO_DEFAULT && !HasDefault(ps) && !Find(s, NO_DEFAULT) && Visible(o, e, anc) {
      NoDefaultIn(us, ps);
      DefaultFirst(d, InsertAll([], us, NsCompare), i, j);
    } else {
      assert [] + InsertAll([], us, NsCompare) == InsertAll([], us, NsCompare);
      PlainInOrder(d, i, j);
    }
  }

  lemma NoDefaultIn(us: seq<Ns>, ps: seq<Ns>)
    requires !HasDefault(ps) && forall x | x in us :: x in ps
    ensures forall x | x in us :: x.prefix != ""
  {
    forall x | x in us
      ensures x.prefix != ""
    {
      var k :| 0 <= k < |ps| && ps[k] == x;
    }
  }

  lemma PlainInOrder(l: seq<Ns>, i: nat, j: nat)
    requires Ascending(l, NsCompare) && i < j < |l|
    ensures Before(l[i].prefix, l[j].prefix)
  {
    AscendingPairs(l, NsCompare);
    DeclsPart(l[i], l[j]);
  }

  lemma DefaultFirst(d: seq<Ns>, l: seq<Ns>, i: nat, j: nat)
    requires d == [NO_DEFAULT] + l && Ascending(l, NsCompare) && i < j < |d|
    requires forall x | x in l :: x.prefix != ""
    ensures Before(d[i].prefix, d[j].prefix)
  {
    assert d[j] == l[j - 1];
    if i == 0 {
      assert PartAt("", d[j].prefix, 0);
    } else {
      assert d[i] == l[i - 1];
      PlainInOrder(l, i - 1, j - 1);
    }
  }

  lemma DeclsPart(a: Ns, b: Ns)
    requires NsCompare(a, b) < 0
    ensures Before(a.prefix, b.prefix)
  {
    StrCmpIsLexicographic(a.prefix, b.prefix);
  }

  // ---------------------------------------------------------------------- attributes

  /** The same namespace and the same local name. */
  predicate SameName(a: Attribute, b: Attribute) {
    && a.name == b.name
    && (a.ns.None? || b.ns.None? ==> a.ns == b.ns)
    && (a.ns.Some? && b.ns.Some? ==> a.ns.value.href == b.ns.value.href)
  }

  /** No namespace before any, then by URI, then by local name. */
  ghost predicate NameBefore(a: Attribute, b: Attribute) {
    match (a.ns, b.ns)
    case (None, None) => Before(a.name, b.name)
    case (None, Some(_)) => true
    case (Some(_), None) => false
    case (Some(p), Some(q)) => if p.href == q.href then Before(a.name, b.name) else Before(p.href, q.href)
  }

  lemma KeyMeans(a: Attribute, b: Attribute)
    requires Qualified(a) && Qualified(b)
    ensures AttrCompare(a, b) == 0 <==> SameName(a, b)
    ensures AttrCompare(a, b) < 0 <==> NameBefore(a, b)
  {
    AttrCompareIsKeyOrder(a, b);
    StrCmpOrder(a.name, b.name, "");
    StrCmpIsLexicographic(a.name, b.name);
    if a.ns.Some? && b.ns.Some? {
      StrCmpOrder(a.ns.value.href, b.ns.value.href, "");
      StrCmpIsLexicographic(a.ns.value.href, b.ns.value.href);
    }
  }

  ghost predicate AllQualified(attrs: seq<Attribute>) {
    forall a | a in attrs :: Qualified(a)
  }

  /** Searching the sorted list finds the name if it is there. */
  lemma {:induction false} ContainsName(l: seq<Attribute>, x: Attribute)
    requires AllQualified(l) && Qualified(x) && Ascending(l, AttrCompare)
    ensures Contains(l, x, AttrCompare) <==> exists y :: y in l && SameName(y, x)
  {
    if l != [] {
      assert l == [l[0]] + l[1..] && l[0] in l;
      assert AllQualified(l[1..]) by {
        assert forall a | a in l[1..] :: a in l;
      }
      ContainsName(l[1..], x);
      KeyMeans(l[0], x);
      if AttrCompare(l[0], x) > 0 {
        forall y | y in l
          ensures !SameName(y, x)
        {
          LaterNames(l, x, y);
        }
      }
    }
  }

  lemma LaterNames(l: seq<Attribute>, x: Attribute, y: Attribute)
    requires l != [] && AllQualified(l) && Qualified(x) && Ascending(l, AttrCompare) && AttrCompare(l[0], x) > 0 && y in l
    ensures !SameName(y, x)
  {
    assert l == [l[0]] + l[1..] && l[0] in l;
    KeyMeans(y, x);
    KeyMeans(l[0], x);
    AttrCompareIsKeyOrder(l[0], x);
    AttrCompareIsKeyOrder(y, x);
    AttrCompareIsKeyOrder(l[0], y);
    KeyOrder(l[0], y, x);
    KeyOrder(l[0], x, x);
    KeyOrder(y, x, x);
    if y in l[1..] && KeyCompare(y, x) == 0 {
      SameKeyBelow(l[0], y, x);
    }
  }

  lemma SameKeyBelow(a: Attribute, y: Attribute, x: Attribute)
    requires KeyCompare(y, x) == 0 && KeyCompare(a, y) < 0
    ensures KeyCompare(a, x) < 0
  {
    StrCmpOrder(y.name, x.name, "");
    if y.ns.Some? && x.ns.Some? {
      StrCmpOrder(y.ns.value.href, x.ns.value.href, "");
    }
  }

  /** Strictly ascending, and so without two of the same name. */
  ghost predicate InOrder(l: seq<Attribute>) {
    AllQualified(l) && Ascending(l, AttrCompare)
  }

  lemma InOrderDistinct(l: seq<Attribute>, x: Attribute)
    requires InOrder(l) && Qualified(x) && !Contains(l, x, AttrCompare)
    ensures DistinctNames(l + [x]) && x !in l
  {
    AscendingPairs(l, AttrCompare);
    ContainsName(l, x);
    var r := l + [x];
    forall i, j | 0 <= i < j < |r|
      ensures KeyCompare(r[i], r[j]) != 0
    {
      assert r[i] == l[i];
      AttrCompareIsKeyOrder(r[i], r[j]);
      KeyMeans(r[i], r[j]);
    }
    KeyMeans(x, x);
    assert SameName(x, x);
  }

  lemma InsertInOrder(l: seq<Attribute>, x: Attribute)
    requires InOrder(l) && Qualified(x) && !Contains(l, x, AttrCompare)
    ensures InOrder(Insert(l, x, AttrCompare))
    ensures forall y :: y in Insert(l, x, AttrCompare) <==> y in l || y == x
  {
    InOrderDistinct(l, x);
    AttrCompareTotal(l + [x]);
    assert Elements(l + [x]) == Elements(l) + {x};
    InsertAscends(l, x, AttrCompare);
    InsertElements(l, x, AttrCompare);
    var r := Insert(l, x, AttrCompare);
    assert forall y :: y in r <==> y in Elements(r);
  }

  // ------------------------------------------------------------- inherited attributes

  /** The attributes of a chain of elements, nearest first. */
  function ChainAttrs(anc: seq<Elem>): seq<Attribute> {
    if anc == [] then [] else anc[0].attrs + ChainAttrs(anc[1..])
  }

  lemma {:induction false} ImportConcat(list: seq<Attribute>, a: seq<Attribute>, b: seq<Attribute>)
    ensures ImportFrom(list, a + b) == ImportFrom(ImportFrom(list, a), b)
    decreases |a|
  {
    if a == [] {
      assert a + b == b;
    } else {
      assert (a + b)[1..] == a[1..] + b;
      ImportConcat(if IsXmlAttr(a[0]) && !Contains(list, a[0], AttrCompare) then Insert(list, a[0], AttrCompare) else list,
                   a[1..], b);
    }
  }

  lemma {:induction false} ImportsChain(list: seq<Attribute>, anc: seq<Elem>)
    ensures ImportXml(list, anc) == ImportFrom(list, ChainAttrs(anc))
    decreases |anc|
  {
    if anc != [] {
      ImportsChain(ImportFrom(list, anc[0].attrs), anc[1..]);
      ImportConcat(list, anc[0].attrs, ChainAttrs(anc[1..]));
    }
  }

  /** An attribute of the namespace that is bound to "xml" in every document. */
  predicate InXml(a: Attribute) {
    a.ns.Some? && a.ns.value.prefix == "xml" && a.ns.value.href == "http://www.w3.org/XML/1998/namespace"
  }

  /** The attribute at `i` is the nearest xml: attribute of its name. */
  ghost predicate Nearest(attrs: seq<Attribute>, i: nat) {
    && i < |attrs| && InXml(attrs[i])
    && forall j | 0 <= j < i :: !(InXml(attrs[j]) && SameName(attrs[j], attrs[i]))
  }

  ghost predicate NearestOf(attrs: seq<Attribute>, x: Attribute) {
    exists i: nat :: Nearest(attrs, i) && attrs[i] == x
  }

  ghost predicate Named(l: seq<Attribute>, x: Attribute) {
    exists y :: y in l && SameName(y, x)
  }

  /** What is imported into a sorted list: the nearest xml: attributes with names it does
      not have. */
  lemma {:induction false} ImportedAre(list: seq<Attribute>, attrs: seq<Attribute>, x: Attribute)
    requires InOrder(list) && AllQualified(attrs)
    ensures InOrder(ImportFrom(list, attrs))
    ensures x in ImportFrom(list, attrs) <==> x in list || (NearestOf(attrs, x) && !Named(list, x))
    decreases |attrs|
  {
    if attrs != [] {
      var a, rest := attrs[0], attrs[1..];
      assert a in attrs && forall y | y in rest :: y in attrs;
      ContainsName(list, a);
      if IsXmlAttr(a) && !Contains(list, a, AttrCompare) {
        InsertInOrder(list, a);
        ImportedAre(Insert(list, a, AttrCompare), rest, x);
        NearestTaken(list, attrs, x);
      } else {
        ImportedAre(list, rest, x);
        NearestSkipped(list, attrs, x);
      }
    }
  }

  lemma NearestMoves(attrs: seq<Attribute>, x: Attribute)
    requires attrs != []
    ensures NearestOf(attrs, x) <==>
            (InXml(attrs[0]) && x == attrs[0])
            || (NearestOf(attrs[1..], x) && !(InXml(attrs[0]) && SameName(attrs[0], x)))
  {
    var rest := attrs[1..];
    assert forall j | 0 <= j < |rest| :: rest[j] == attrs[j + 1];
    if NearestOf(attrs, x) {
      var i: nat :| Nearest(attrs, i) && attrs[i] == x;
      if i > 0 {
        assert Nearest(rest, i - 1) && rest[i - 1] == x;
      }
    }
    if InXml(attrs[0]) && x == attrs[0] {
      assert Nearest(attrs, 0);
    }
    if NearestOf(rest, x) && !(InXml(attrs[0]) && SameName(attrs[0], x)) {
      var i: nat :| Nearest(rest, i) && rest[i] == x;
      assert Nearest(attrs, i + 1);
    }
  }

  lemma SameNameOrder(a: Attribute, b: Attribute, c: Attribute)
    ensures SameName(a, b) ==> SameName(b, a)
    ensures SameName(a, b) && SameName(b, c) ==> SameName(a, c)
    ensures SameName(a, a)
  {
  }

  lemma NearestTaken(list: seq<Attribute>, attrs: seq<Attribute>, x: Attribute)
    requires attrs != [] && InXml(attrs[0]) && !Named(list, attrs[0])
    ensures var a := attrs[0];
      (x in list || x == a || (NearestOf(attrs[1..], x) && !Named(list, x) && !SameName(a, x)))
      <==> x in list || (NearestOf(attrs, x) && !Named(list, x))
  {
    NearestMoves(attrs, x);
    SameNameOrder(attrs[0], attrs[0], x);
  }

  lemma NearestSkipped(list: seq<Attribute>, attrs: seq<Attribute>, x: Attribute)
    requires attrs != [] && (InXml(attrs[0]) ==> Named(list, attrs[0]))
    ensures NearestOf(attrs[1..], x) && !Named(list, x) <==> NearestOf(attrs, x) && !Named(list, x)
  {
    NearestMoves(attrs, x);
    if InXml(attrs[0]) {
      var y :| y in list && SameName(y, attrs[0]);
      SameNameOrder(y, attrs[0], x);
    }
  }

  lemma {:induction false} VisibleAre(o: Options, e: nat, attrs: seq<Attribute>)
    ensures forall x :: x in VisibleAttrs(o, e, attrs) <==> x in attrs && o.visible(x.id, e)
  {
    if attrs != [] {
      VisibleAre(o, e, attrs[1..]);
    }
  }

  lemma {:induction false} VisibleDistinct(o: Options, e: nat, attrs: seq<Attribute>)
    requires DistinctNames(attrs)
    ensures DistinctNames(VisibleAttrs(o, e, attrs))
  {
    if attrs != [] {
      var rest, vs := attrs[1..], VisibleAttrs(o, e, attrs[1..]);
      assert forall i | 0 <= i < |rest| :: rest[i] == attrs[i + 1];
      VisibleDistinct(o, e, rest);
      VisibleAre(o, e, rest);
      forall j | 0 <= j < |vs|
        ensures KeyCompare(attrs[0], vs[j]) != 0
      {
        assert vs[j] in rest;
      }
    }
  }

  /** The element's own visible attributes, sorted. */
  function Own(o: Options, e: Elem): seq<Attribute> {
    InsertAll([], VisibleAttrs(o, e.id, e.attrs), AttrCompare)
  }

  lemma OwnInOrder(o: Options, e: Elem)
    requires DistinctNames(e.attrs)
    ensures InOrder(Own(o, e))
    ensures forall x :: x in Own(o, e) <==> x in e.attrs && o.visible(x.id, e.id)
  {
    var vs, r := VisibleAttrs(o, e.id, e.attrs), Own(o, e);
    VisibleAre(o, e.id, e.attrs);
    VisibleDistinct(o, e.id, e.attrs);
    AttrCompareTotal(vs);
    InsertAllAscends([], vs, AttrCompare, Elements(vs));
    InsertAllKeeps([], vs, AttrCompare);
    SameElements(r, vs);
    assert forall x :: x in r <==> x in Elements(r);
    assert forall x :: x in vs <==> x in Elements(vs);
  }

  predicate Inherits(o: Options, e: Elem, anc: seq<Elem>) {
    Visible(o, e, anc) && ParentHidden(o, anc)
  }

  /** The attributes printed, for every visibility predicate: the visible ones, and for
      a visible element with a hidden parent the nearest xml: attributes above of which
      it has no visible one of its own. */
  lemma PrintedAttrsHold(o: Options, e: Elem, anc: seq<Elem>, x: Attribute)
    requires DistinctNames(e.attrs) && AllQualified(ChainAttrs(anc))
    ensures InOrder(PrintedAttrs(o, e, anc))
    ensures x in PrintedAttrs(o, e, anc) <==>
      || (x in e.attrs && o.visible(x.id, e.id))
      || (&& Inherits(o, e, anc) && NearestOf(ChainAttrs(anc), x)
          && forall y | y in e.attrs && SameName(y, x) :: !o.visible(y.id, e.id))
  {
    OwnInOrder(o, e);
    if Inherits(o, e, anc) {
      ImportsChain(Own(o, e), anc);
      ImportedAre(Own(o, e), ChainAttrs(anc), x);
    }
  }

  /** They are printed in the order of Canonical XML. */
  lemma AttrsInOrder(o: Options, e: Elem, anc: seq<Elem>, i: nat, j: nat)
    requires DistinctNames(e.attrs) && AllQualified(ChainAttrs(anc)) && i < j < |PrintedAttrs(o, e, anc)|
    ensures NameBefore(PrintedAttrs(o, e, anc)[i], PrintedAttrs(o, e, anc)[j])
  {
    var l := PrintedAttrs(o, e, anc);
    PrintedAttrsHold(o, e, anc, l[i]);
    AscendingPairs(l, AttrCompare);
    assert l[i] in l && l[j] in l;
    KeyMeans(l[i], l[j]);
  }

  // --------------------------------------------------- attributes that are hidden

  /** Section 2.4 of Canonical XML 1.0: an own attribute of the name, visible or not,
      keeps an inherited one out. */
  ghost predicate Prescribed(o: Options, e: Elem, anc: seq<Elem>, x: Attribute) {
    || (x in e.attrs && o.visible(x.id, e.id))
    || (&& Inherits(o, e, anc) && NearestOf(ChainAttrs(anc), x)
        && forall y | y in e.attrs :: !SameName(y, x))
  }

  /** A hidden attribute of the element repeats the name of an xml: attribute above. */
  ghost predicate Overlaid(o: Options, e: Elem, anc: seq<Elem>) {
    exists h, a :: h in e.attrs && !o.visible(h.id, e.id) && a in ChainAttrs(anc) && InXml(a) && SameName(h, a)
  }

  lemma {:induction false} NearestExists(attrs: seq<Attribute>, a: Attribute) returns (x: Attribute)
    requires a in attrs && InXml(a)
    ensures NearestOf(attrs, x) && SameName(x, a)
  {
    SameNameOrder(a, a, a);
    if InXml(attrs[0]) && SameName(attrs[0], a) {
      x := attrs[0];
      assert Nearest(attrs, 0);
    } else {
      x := NearestExists(attrs[1..], a);
      NearestMoves(attrs, x);
      SameNameOrder(attrs[0], x, a);
    }
  }

  lemma OwnNamesDiffer(attrs: seq<Attribute>, a: Attribute, b: Attribute)
    requires DistinctNames(attrs) && a in attrs && b in attrs && SameName(a, b)
    ensures a == b
  {
    var i :| 0 <= i < |attrs| && attrs[i] == a;
    var j :| 0 <= j < |attrs| && attrs[j] == b;
    KeyMeans(a, b);
    KeyMeans(b, a);
    SameNameOrder(a, b, a);
    AttrCompareIsKeyOrder(a, b);
    AttrCompareIsKeyOrder(b, a);
    assert !(i < j) && !(j < i);
  }

  /** The source asks for visible attributes only: what it prints is what section 2.4
      prescribes exactly when the element does not inherit or has no hidden attribute
      of the name of an xml: attribute above. */
  lemma InheritanceAgrees(o: Options, e: Elem, anc: seq<Elem>)
    requires DistinctNames(e.attrs) && AllQualified(ChainAttrs(anc))
    ensures (forall x :: x in PrintedAttrs(o, e, anc) <==> Prescribed(o, e, anc, x))
            <==> !(Inherits(o, e, anc) && Overlaid(o, e, anc))
  {
    if Inherits(o, e, anc) && Overlaid(o, e, anc) {
      var h, a :| h in e.attrs && !o.visible(h.id, e.id) && a in ChainAttrs(anc) && InXml(a) && SameName(h, a);
      var x := NearestExists(ChainAttrs(anc), a);
      HiddenLetsIn(o, e, anc, h, a, x);
    } else {
      forall x
        ensures x in PrintedAttrs(o, e, anc) <==> Prescribed(o, e, anc, x)
      {
        PrintedAttrsHold(o, e, anc, x);
        if Inherits(o, e, anc) && NearestOf(ChainAttrs(anc), x) {
          assert forall y | y in e.attrs && SameName(y, x) :: o.visible(y.id, e.id);
        }
      }
    }
  }

  lemma HiddenLetsIn(o: Options, e: Elem, anc: seq<Elem>, h: Attribute, a: Attribute, x: Attribute)
    requires DistinctNames(e.attrs) && AllQualified(ChainAttrs(anc)) && Inherits(o, e, anc)
    requires h in e.attrs && !o.visible(h.id, e.id) && SameName(h, a) && SameName(x, a) && NearestOf(ChainAttrs(anc), x)
    ensures x in PrintedAttrs(o, e, anc) && !Prescribed(o, e, anc, x)
  {
    SameNameOrder(x, a, h);
    SameNameOrder(a, x, x);
    SameNameOrder(h, a, x);
    assert SameName(h, x);
    PrintedAttrsHold(o, e, anc, x);
    forall y | y in e.attrs && SameName(y, x)
      ensures y == h
    {
      SameNameOrder(x, h, y);
      SameNameOrder(h, x, x);
      SameNameOrder(y, x, h);
      OwnNamesDiffer(e.attrs, y, h);
    }
  }

  // ------------------------------------------------------------------- a witness

  const XML := Ns(9, "xml", "http://www.w3.org/XML/1998/namespace")

  /** Only the inner element is visible: neither its parent nor any attribute. */
  const ONLY_INNER := Options((x, p) => x == 2, false, _ => false, 0)

  function Lang(id: nat, value: string): Attribute {
    Attribute(id, Some(XML), "lang", value)
  }

  /** Its own hidden xml:lang is replaced by that of the parent. */
  lemma HiddenLangInherited(v: string, w: string)
    ensures var outer := Element(1, "", "a", [], [Lang(10, v)], []);
            var inner: Elem := Element(2, "", "b", [], [Lang(11, w)], []);
            Lang(10, v) in PrintedAttrs(ONLY_INNER, inner, [outer]) && !Prescribed(ONLY_INNER, inner, [outer], Lang(10, v))
  {
    var outer: Elem := Element(1, "", "a", [], [Lang(10, v)], []);
    var inner: Elem := Element(2, "", "b", [], [Lang(11, w)], []);
    assert ChainAttrs([outer]) == [Lang(10, v)] + ChainAttrs([outer][1..]) == [Lang(10, v)];
    assert Nearest([Lang(10, v)], 0);
    HiddenLetsIn(ONLY_INNER, inner, [outer], Lang(11, w), Lang(10, v), Lang(10, v));
  }
}
