/** What the canonical form preserves: the namespaces in scope at every element. */
module C14nMeaning {

  import opened Optional
  import opened SortedList
  import opened C14nEscape
  import opened C14nTree

  // --------------------------------------------------- what an element pushes

  /** Every pushed declaration is the one in force for its prefix and is visible,
      and every such declaration is pushed. */
  lemma {:induction false} PushesAre(o: Options, e: nat, l: seq<Ns>, i: nat)
    requires i <= |l|
    ensures forall x | x in PushesFrom(o, e, l, i) ::
              Search(l, x.prefix).Some? && Search(l, x.prefix).value >= i
              && l[Search(l, x.prefix).value] == x && o.visible(x.id, e)
    ensures forall j | i <= j < |l| && Renders(o, e, l, j) :: l[j] in PushesFrom(o, e, l, i)
    decreases |l| - i
  {
    if i < |l| {
      PushesAre(o, e, l, i + 1);
    }
  }

  ghost predicate DistinctPrefixes(ps: seq<Ns>) {
    forall i, j | 0 <= i < j < |ps| :: ps[i].prefix != ps[j].prefix
  }

  lemma {:induction false} PushesDistinct(o: Options, e: nat, l: seq<Ns>, i: nat)
    requires i <= |l|
    ensures DistinctPrefixes(PushesFrom(o, e, l, i))
    decreases |l| - i
  {
    if i < |l| {
      PushesDistinct(o, e, l, i + 1);
      if Renders(o, e, l, i) {
        var rest := PushesFrom(o, e, l, i + 1);
        PushesAre(o, e, l, i + 1);
        forall j | 0 <= j < |rest|
          ensures rest[j].prefix != l[i].prefix
        {
          assert rest[j] in rest;
        }
      }
    }
  }

  // --------------------------------------------------------- the searched window

  /** What the nearest visible ancestor-or-self on the chain pushed. */
  function NearestPushes(o: Options, anc: seq<Elem>): seq<Ns> {
    if anc == [] then []
    else if Visible(o, anc[0], anc[1..]) then Pushes(o, anc[0], anc[1..])
    else NearestPushes(o, anc[1..])
  }

  /** For every visibility predicate: the part of the stack that is searched for a
      non-empty binding is exactly what the nearest visible ancestor pushed. */
  lemma {:induction false} WindowIsNearest(o: Options, anc: seq<Elem>)
    ensures var s := StackAt(o, anc);
            && s.prevEnd == |s.tab| && s.prevStart <= |s.tab|
            && s.tab[s.prevStart..] == NearestPushes(o, anc)
  {
    if anc != [] {
      WindowIsNearest(o, anc[1..]);
    }
  }

  lemma {:induction false} NearestDistinct(o: Options, anc: seq<Elem>)
    ensures DistinctPrefixes(NearestPushes(o, anc))
  {
    if anc != [] {
      if Visible(o, anc[0], anc[1..]) {
        PushesDistinct(o, anc[0].id, Decls([anc[0]] + anc[1..]), 0);
      } else {
        NearestDistinct(o, anc[1..]);
      }
    }
  }

  /** The scan stops at the topmost entry with the prefix, or runs through. */
  lemma {:induction false} FindStops(tab: seq<Ns>, start: nat, i: nat, ns: Ns, k: nat)
    requires start <= k < i <= |tab| && tab[k].prefix == ns.prefix
    requires forall j | k < j < i :: tab[j].prefix != ns.prefix
    ensures FindFrom(tab, start, i, ns) == (tab[k].href == ns.href)
    decreases i
  {
    if k < i - 1 {
      FindStops(tab, start, i - 1, ns, k);
    }
  }

  lemma {:induction false} FindPasses(tab: seq<Ns>, start: nat, i: nat, m: nat, ns: Ns)
    requires m <= i <= |tab|
    requires forall j | m <= j < i :: tab[j].prefix != ns.prefix
    ensures FindFrom(tab, start, i, ns) == FindFrom(tab, start, m, ns)
    decreases i
  {
    if m < i {
      FindPasses(tab, start, i - 1, m, ns);
    }
  }

  lemma {:induction false} FindPrefix(tab: seq<Ns>, more: seq<Ns>, start: nat, i: nat, ns: Ns)
    requires i <= |tab|
    ensures FindFrom(tab + more, start, i, ns) == FindFrom(tab, start, i, ns)
    decreases i
  {
    if i > start {
      FindPrefix(tab, more, start, i - 1, ns);
    }
  }

  /** The rule of Canonical XML for a namespace node, for every visibility
      predicate: it is already rendered exactly when the nearest visible ancestor
      rendered the same prefix with the same value. */
  lemma RenderedMeansNearest(o: Options, anc: seq<Elem>, ns: Ns)
    requires !EmptyDefault(ns)
    ensures Find(StackAt(o, anc), ns) <==>
            exists x :: x in NearestPushes(o, anc) && x.prefix == ns.prefix && x.href == ns.href
  {
    var s, w := StackAt(o, anc), NearestPushes(o, anc);
    WindowIsNearest(o, anc);
    NearestDistinct(o, anc);
    FindInWindow(s, w, ns);
  }

  lemma FindInWindow(s: NsStack, w: seq<Ns>, ns: Ns)
    requires !EmptyDefault(ns) && DistinctPrefixes(w)
    requires s.prevStart <= |s.tab| && s.tab[s.prevStart..] == w
    ensures Find(s, ns) <==> exists x :: x in w && x.prefix == ns.prefix && x.href == ns.href
  {
    var n := s.prevStart;
    assert forall j | n <= j < |s.tab| :: s.tab[j] == w[j - n];
    match SearchFrom(w, ns.prefix)
    case Some(k) =>
      FindStops(s.tab, n, |s.tab|, ns, n + k);
      assert w[k] in w;
      assert forall x | x in w && x.prefix == ns.prefix :: x == w[k];
    case None =>
      FindPasses(s.tab, n, |s.tab|, n, ns);
  }

  /** The default namespace pushed by the nearest visible ancestor that pushed one. */
  function LastDefault(o: Options, anc: seq<Elem>): Option<Ns> {
    if anc == [] then None
    else
      var ps := Pushes(o, anc[0], anc[1..]);
      var i := SearchFrom(ps, "");
      if Visible(o, anc[0], anc[1..]) && i.Some? then Some(ps[i.value])
      else LastDefault(o, anc[1..])
  }

  /** xmlns="" is searched for on the whole stack, not in the window. */
  lemma {:induction false} EmptyDefaultRule(o: Options, anc: seq<Elem>)
    ensures Find(StackAt(o, anc), NO_DEFAULT) <==>
            LastDefault(o, anc).None? || LastDefault(o, anc).value.href == ""
  {
    if anc != [] {
      EmptyDefaultRule(o, anc[1..]);
      var s, s' := StackAt(o, anc[1..]), StackAt(o, anc);
      if Visible(o, anc[0], anc[1..]) {
        var ps := Pushes(o, anc[0], anc[1..]);
        if SearchFrom(ps, "").Some? {
          PushesDistinct(o, anc[0].id, Decls([anc[0]] + anc[1..]), 0);
          FindStops(s'.tab, 0, |s'.tab|, NO_DEFAULT, |s.tab| + SearchFrom(ps, "").value);
        } else {
          FindPasses(s'.tab, 0, |s'.tab|, |s.tab|, NO_DEFAULT);
          FindPrefix(s.tab, ps, 0, |s.tab|, NO_DEFAULT);
        }
      }
    }
  }

  // --------------------------------------------- everything visible: scoping

  ghost predicate AllVisible(o: Options) {
    forall a, b :: o.visible(a, b)
  }

  /** What a prefix is bound to by a chain of declarations read nearest first; an
      empty default counts as no default. */
  function Binding(l: seq<Ns>, p: string): Option<string> {
    match Search(l, p)
    case None => None
    case Some(i) => Declares(l[i])
  }

  function Declares(ns: Ns): Option<string> {
    if EmptyDefault(ns) then None else Some(ns.href)
  }

  lemma {:induction false} SearchConcat(a: seq<Ns>, b: seq<Ns>, p: string)
    ensures SearchFrom(a + b, p) ==
            if SearchFrom(a, p).Some? then SearchFrom(a, p)
            else if SearchFrom(b, p).Some? then Some(|a| + SearchFrom(b, p).value)
            else None
  {
    if a == [] {
      assert a + b == b;
    } else {
      assert (a + b)[1..] == a[1..] + b;
      SearchConcat(a[1..], b, p);
    }
  }

  lemma BindingConcat(a: seq<Ns>, b: seq<Ns>, p: string)
    ensures Binding(a + b, p) == if Search(a, p).Some? then Binding(a, p) else Binding(b, p)
  {
    SearchConcat(a, b, p);
  }

  lemma PushedWhenBound(o: Options, e: Elem, anc: seq<Elem>, p: string)
    requires AllVisible(o)
    ensures var l := Decls([e] + anc); var ps := Pushes(o, e, anc);
            && (Search(l, p).Some? ==> l[Search(l, p).value] in ps)
            && (Search(l, p).None? ==> forall x | x in ps :: x.prefix != p)
  {
    PushesAre(o, e.id, Decls([e] + anc), 0);
  }

  lemma ScanBound(s: NsStack, ps: seq<Ns>, ns: Ns, x: Ns, start: nat)
    requires x in ps && x.prefix == ns.prefix && DistinctPrefixes(ps) && start <= |s.tab|
    ensures FindFrom(s.tab + ps, start, |s.tab + ps|, ns) == (x.href == ns.href)
  {
    var k :| 0 <= k < |ps| && ps[k] == x;
    FindStops(s.tab + ps, start, |s.tab + ps|, ns, |s.tab| + k);
  }

  lemma ScanUnbound(s: NsStack, ps: seq<Ns>, ns: Ns, start: nat)
    requires start <= |s.tab| && forall x | x in ps :: x.prefix != ns.prefix
    ensures FindFrom(s.tab + ps, start, |s.tab + ps|, ns) == FindFrom(s.tab, start, |s.tab|, ns)
  {
    forall j | |s.tab| <= j < |s.tab + ps|
      ensures (s.tab + ps)[j].prefix != ns.prefix
    {
      assert (s.tab + ps)[j] in ps;
    }
    FindPasses(s.tab + ps, start, |s.tab + ps|, |s.tab|, ns);
    FindPrefix(s.tab, ps, start, |s.tab|, ns);
  }

  /** With everything visible, a declaration is found on the stack exactly when it
      repeats the binding of the parent element. */
  lemma {:induction false} FoundMeansInherited(o: Options, anc: seq<Elem>, ns: Ns)
    requires AllVisible(o) && ns.prefix != "xml"
    ensures Find(StackAt(o, anc), ns) <==> Binding(Decls(anc), ns.prefix) == Declares(ns)
  {
    if anc != [] {
      var e, rest := anc[0], anc[1..];
      assert anc == [e] + rest;
      var l, ps, s := Decls(anc), Pushes(o, e, rest), StackAt(o, rest);
      WindowIsNearest(o, rest);
      PushedWhenBound(o, e, rest, ns.prefix);
      var start := if EmptyDefault(ns) then 0 else |s.tab|;
      assert Find(StackAt(o, anc), ns) == FindFrom(s.tab + ps, start, |s.tab + ps|, ns);
      if Search(l, ns.prefix).Some? {
        PushesDistinct(o, e.id, l, 0);
        ScanBound(s, ps, ns, l[Search(l, ns.prefix).value], start);
      } else {
        ScanUnbound(s, ps, ns, start);
        SearchConcat(e.nsDef, Decls(rest), ns.prefix);
        FoundMeansInherited(o, rest, ns);
      }
    }
  }

  lemma {:induction false} UnrenderedAre(s: NsStack, ps: seq<Ns>)
    ensures forall x :: x in Unrendered(s, ps) <==> x in ps && !Find(s, x)
  {
    if ps != [] {
      UnrenderedAre(s, ps[1..]);
    }
  }

  lemma {:induction false} UnrenderedDistinct(s: NsStack, ps: seq<Ns>)
    requires DistinctPrefixes(ps)
    ensures DistinctPrefixes(Unrendered(s, ps))
  {
    if ps != [] {
      UnrenderedDistinct(s, ps[1..]);
      UnrenderedAre(s, ps[1..]);
      var rest := Unrendered(s, ps[1..]);
      forall j | 0 <= j < |rest|
        ensures rest[j].prefix != ps[0].prefix
      {
        assert rest[j] in rest && rest[j] in ps[1..];
      }
    }
  }

  /** With everything visible, xmlns="" is never made up: it is printed only where
      the source declares it. */
  lemma NoSyntheticDefault(o: Options, e: Elem, anc: seq<Elem>)
    requires AllVisible(o)
    ensures HasDefault(Pushes(o, e, anc)) || Find(StackAt(o, anc), NO_DEFAULT)
  {
    var l, ps := Decls([e] + anc), Pushes(o, e, anc);
    PushedWhenBound(o, e, anc, "");
    if Search(l, "").Some? {
      var k :| 0 <= k < |ps| && ps[k] == l[Search(l, "").value];
      assert ps[k].prefix == "";
    } else {
      assert ([e] + anc)[1..] == anc;
      SearchConcat(e.nsDef, Decls(anc), "");
      FoundMeansInherited(o, anc, NO_DEFAULT);
    }
  }

  /** The declarations printed for an element: those in force that differ from what
      is bound at the parent. */
  lemma PrintedAre(o: Options, e: Elem, anc: seq<Elem>)
    requires AllVisible(o)
    ensures var l := Decls([e] + anc);
            forall x :: x in PrintedDecls(o, e, anc) <==>
              Search(l, x.prefix).Some? && l[Search(l, x.prefix).value] == x
              && Binding(Decls(anc), x.prefix) != Declares(x)
  {
    var l, s, ps := Decls([e] + anc), StackAt(o, anc), Pushes(o, e, anc);
    assert ([e] + anc)[1..] == anc;
    PushesAre(o, e.id, l, 0);
    UnrenderedAre(s, ps);
    InsertAllKeeps([], Unrendered(s, ps), NsCompare);
    SameElements(InsertAll([], Unrendered(s, ps), NsCompare), Unrendered(s, ps));
    NoSyntheticDefault(o, e, anc);
    assert PrintedDecls(o, e, anc) == InsertAll([], Unrendered(s, ps), NsCompare);
    forall x
      ensures x in PrintedDecls(o, e, anc) <==>
              Search(l, x.prefix).Some? && l[Search(l, x.prefix).value] == x
              && Binding(Decls(anc), x.prefix) != Declares(x)
    {
      assert x in PrintedDecls(o, e, anc) <==> x in Elements(Unrendered(s, ps));
      if Search(l, x.prefix).Some? && l[Search(l, x.prefix).value] == x {
        assert Renders(o, e.id, l, Search(l, x.prefix).value);
        FoundMeansInherited(o, anc, x);
      }
    }
  }

  /** The declarations a reader of the output has seen above and at an element. */
  function PrintedChain(o: Options, anc: seq<Elem>): seq<Ns> {
    if anc == [] then [] else PrintedDecls(o, anc[0], anc[1..]) + PrintedChain(o, anc[1..])
  }

  lemma SearchPrinted(o: Options, e: Elem, anc: seq<Elem>, p: string)
    requires AllVisible(o)
    ensures var l := Decls([e] + anc); var d := PrintedDecls(o, e, anc);
            match Search(d, p)
            case Some(i) => Search(l, p).Some? && d[i] == l[Search(l, p).value]
            case None => Binding(Decls(anc), p) == Binding(l, p)
  {
    var l, d := Decls([e] + anc), PrintedDecls(o, e, anc);
    PrintedAre(o, e, anc);
    assert ([e] + anc)[1..] == anc;
    match Search(d, p)
    case Some(i) =>
      assert d[i] in d;
    case None =>
      SearchConcat(e.nsDef, Decls(anc), p);
      if Search(l, p).Some? {
        var x := l[Search(l, p).value];
        assert x !in d;
      }
  }

  /** Re-reading the printed declarations with ordinary scoping gives every element
      exactly the bindings it had in the source. */
  lemma {:induction false} ScopesPreserved(o: Options, anc: seq<Elem>, p: string)
    requires AllVisible(o)
    ensures Binding(PrintedChain(o, anc), p) == Binding(Decls(anc), p)
  {
    if anc != [] {
      assert anc == [anc[0]] + anc[1..];
      ScopesPreserved(o, anc[1..], p);
      SearchPrinted(o, anc[0], anc[1..], p);
      BindingConcat(PrintedDecls(o, anc[0], anc[1..]), PrintedChain(o, anc[1..]), p);
    }
  }

  /** `text` stands for `content`: without raw angle brackets or carriage returns, and
      decoding to it. */
  ghost predicate StandsFor(text: string, content: string) {
    && (forall i | 0 <= i < |text| :: text[i] != '<' && text[i] != '>' && text[i] != '\r')
    && Unescape(text) == Some(content)
  }

  /** Text nodes and CDATA sections print escaped text when visible and nothing when
      hidden, for every visibility predicate and in every place. */
  lemma TextPrints(o: Options, n: Node, anc: seq<Elem>, place: Place)
    requires n.Text? || n.CData?
    ensures var r := Render(o, n, anc, place);
      && r.Done? && r.place == place && r.value.Raw?
      && (Visible(o, n, anc) ==> StandsFor(r.value.text, n.content))
      && (!Visible(o, n, anc) ==> r.value.text == "")
  {
    UnescapeEscape(n.content, ForText);
    NoRawDelimiter(n.content, ForText);
  }

  /** Hidden comments and instructions, comments that were not asked for and declarations
      print nothing. */
  lemma SilentNodes(o: Options, n: Node, anc: seq<Elem>, place: Place)
    requires n.Declaration? || (n.Comment? && !o.comments) || ((n.Comment? || n.Instruction?) && !Visible(o, n, anc))
    ensures Render(o, n, anc, place) == Done(Raw(""), place)
  {
  }

  /** A hidden element of which no namespace or attribute is visible either leaves nothing
      but its content, and what is in it stays in its place. */
  lemma HiddenElement(o: Options, e: Elem, anc: seq<Elem>, place: Place)
    requires !Visible(o, e, anc) && !RelativeDecl(o, e.nsDef)
    requires forall d | d in Decls([e] + anc) :: !o.visible(d.id, e.id)
    requires forall a | a in e.attrs :: !o.visible(a.id, e.id)
    ensures var r, inner := Render(o, e, anc, place), RenderList(o, e.children, [e] + anc, place);
      && (r.Done? <==> inner.Done?)
      && (r.Done? ==> r.place == inner.place && Show(r.value) == ShowAll(inner.value))
  {
    NonePushed(o, e.id, Decls([e] + anc), 0);
    NoneVisible(o, e.id, e.attrs);
    var inner := RenderList(o, e.children, [e] + anc, place);
    if inner.Done? {
      assert PrintedDecls(o, e, anc) == [] && PrintedAttrs(o, e, anc) == [];
      assert StartText(false, QName(e.prefix, e.name), [], []) == "";
      assert "" + ShowAll(inner.value) + "" == ShowAll(inner.value);
    }
  }

  lemma {:induction false} NonePushed(o: Options, e: nat, l: seq<Ns>, i: nat)
    requires i <= |l| && forall d | d in l :: !o.visible(d.id, e)
    ensures PushesFrom(o, e, l, i) == []
    decreases |l| - i
  {
    if i < |l| {
      assert l[i] in l;
      NonePushed(o, e, l, i + 1);
    }
  }

  lemma {:induction false} NoneVisible(o: Options, e: nat, attrs: seq<Attribute>)
    requires forall a | a in attrs :: !o.visible(a.id, e)
    ensures VisibleAttrs(o, e, attrs) == []
  {
    if attrs != [] {
      assert attrs[0] in attrs && forall a | a in attrs[1..] :: a in attrs;
      NoneVisible(o, e, attrs[1..]);
    }
  }

  // ------------------------------------------------------------------ when it fails

  /** A relative namespace URI or an entity reference somewhere in the tree. */
  ghost predicate Refused(o: Options, n: Node)
    decreases n
  {
    match n
    case Element(_, _, _, nsDef, _, children) =>
      || (exists d :: d in nsDef && d.href != "" && o.relative(d.href))
      || exists k | 0 <= k < |children| :: Refused(o, children[k])
    case EntityRef(_) => true
    case _ => false
  }

  lemma {:induction false} FailsIff(o: Options, n: Node, anc: seq<Elem>, place: Place)
    ensures Render(o, n, anc, place).Failed? <==> Refused(o, n)
    decreases n, 1
  {
    if n.Element? {
      RelativeMeans(o, n.nsDef);
      if !RelativeDecl(o, n.nsDef) {
        ListFailsIff(o, n.children, [n] + anc, if Visible(o, n, anc) && place.parentIsDoc then Place(Inside, false) else place);
      }
    }
  }

  lemma RelativeMeans(o: Options, ds: seq<Ns>)
    ensures RelativeDecl(o, ds) <==> exists d :: d in ds && d.href != "" && o.relative(d.href)
  {
    if d :| d in ds && d.href != "" && o.relative(d.href) {
      var i :| 0 <= i < |ds| && ds[i] == d;
    }
  }

  lemma {:induction false} ListFailsIff(o: Options, ns: seq<Node>, anc: seq<Elem>, place: Place)
    ensures RenderList(o, ns, anc, place).Failed? <==> exists k | 0 <= k < |ns| :: Refused(o, ns[k])
    decreases ns, 0
  {
    if ns != [] {
      FailsIff(o, ns[0], anc, place);
      var first := Render(o, ns[0], anc, place);
      if first.Done? {
        ListFailsIff(o, ns[1..], anc, first.place);
        assert forall k | 1 <= k < |ns| :: ns[k] == ns[1..][k - 1];
      }
    }
  }

  /** A document has no canonical text exactly when it has such a node, visible or not. */
  lemma CanonicalFailsIff(o: Options, children: seq<Node>)
    ensures Canonical(o, children).None? <==> exists k | 0 <= k < |children| :: Refused(o, children[k])
  {
    ListFailsIff(o, children, [], Place(C14nTree.Before, true));
  }

  /** `r` says about elements, their namespaces and attributes, and text what `n` says,
      with no superfluous declaration. */
  ghost predicate Faithful(r: Rendered, n: Node, printed: seq<Ns>, source: seq<Ns>)
    decreases n
  {
    if n.Element? then
      && r.Tag? && r.shown && r.qname == (if n.prefix == "" then n.name else n.prefix + ":" + n.name)
      && multiset(r.attrs) == multiset(n.attrs)
      && (forall p :: Binding(r.decls + printed, p) == Binding(n.nsDef + source, p))
      && (forall d | d in r.decls :: Binding(printed, d.prefix) != Declares(d))
      && |r.content| == |n.children|
      && (forall k | 0 <= k < |n.children| ::
            Faithful(r.content[k], n.children[k], r.decls + printed, n.nsDef + source))
    else
      r.Raw? && (n.Text? || n.CData? ==> StandsFor(r.text, n.content))
  }

  lemma {:induction false} AllAttrsVisible(o: Options, e: nat, attrs: seq<Attribute>)
    requires AllVisible(o)
    ensures VisibleAttrs(o, e, attrs) == attrs
  {
    if attrs != [] {
      AllAttrsVisible(o, e, attrs[1..]);
    }
  }

  lemma PrintedAttrsAre(o: Options, e: Elem, anc: seq<Elem>)
    requires AllVisible(o)
    ensures PrintedAttrs(o, e, anc) == InsertAll([], e.attrs, AttrCompare)
    ensures multiset(PrintedAttrs(o, e, anc)) == multiset(e.attrs)
  {
    AllAttrsVisible(o, e.id, e.attrs);
    InsertAllKeeps([], e.attrs, AttrCompare);
  }

  lemma ElementFaithful(o: Options, e: Elem, anc: seq<Elem>)
    requires AllVisible(o)
    ensures var d := PrintedDecls(o, e, anc); var printed := PrintedChain(o, anc);
            && (forall p :: Binding(d + printed, p) == Binding(e.nsDef + Decls(anc), p))
            && (forall x | x in d :: Binding(printed, x.prefix) != Declares(x))
  {
    var d, printed := PrintedDecls(o, e, anc), PrintedChain(o, anc);
    assert ([e] + anc)[1..] == anc;
    forall p
      ensures Binding(d + printed, p) == Binding(e.nsDef + Decls(anc), p)
    {
      ScopesPreserved(o, [e] + anc, p);
    }
    PrintedAre(o, e, anc);
    forall x | x in d
      ensures Binding(printed, x.prefix) != Declares(x)
    {
      ScopesPreserved(o, anc, x.prefix);
    }
  }

  /** The canonical form of a fully visible tree is faithful at every element. */
  lemma {:induction false} RenderFaithful(o: Options, n: Node, anc: seq<Elem>, place: Place)
    requires AllVisible(o) && Render(o, n, anc, place).Done?
    ensures Faithful(Render(o, n, anc, place).value, n, PrintedChain(o, anc), Decls(anc))
    decreases n, 1
  {
    if n.Element? {
      ElementFaithful(o, n, anc);
      PrintedAttrsAre(o, n, anc);
      var root := place.parentIsDoc;
      assert ([n] + anc)[0] == n && ([n] + anc)[1..] == anc;
      assert Decls([n] + anc) == n.nsDef + Decls(anc);
      RenderListFaithful(o, n.children, [n] + anc, if root then Place(Inside, false) else place);
    } else if n.Text? || n.CData? {
      TextPrints(o, n, anc, place);
    }
  }

  lemma {:induction false} RenderListFaithful(o: Options, ns: seq<Node>, anc: seq<Elem>, place: Place)
    requires AllVisible(o) && RenderList(o, ns, anc, place).Done?
    ensures var rs := RenderList(o, ns, anc, place).value;
            && |rs| == |ns|
            && forall k | 0 <= k < |ns| :: Faithful(rs[k], ns[k], PrintedChain(o, anc), Decls(anc))
    decreases ns, 0
  {
    if ns != [] {
      var first := Render(o, ns[0], anc, place);
      RenderFaithful(o, ns[0], anc, place);
      RenderListFaithful(o, ns[1..], anc, first.place);
      var rs := RenderList(o, ns, anc, place).value;
      forall k | 0 <= k < |ns|
        ensures Faithful(rs[k], ns[k], PrintedChain(o, anc), Decls(anc))
      {
        if k > 0 {
          assert ns[k] == ns[1..][k - 1];
        }
      }
    }
  }
}
