/** The rule for xmlns="" of section 2.3 of Canonical XML 1.0, and exactly when the
    search of the stack follows it. */
module C14nDefault {

  import opened Optional
  import opened SortedList
  import opened C14nTree
  import opened C14nMeaning

  /** Section 2.3: the nearest visible ancestor rendered a default namespace that is
      not empty. */
  ghost predicate NearestHasDefault(o: Options, anc: seq<Elem>) {
    exists x :: x in NearestPushes(o, anc) && x.prefix == "" && x.href != ""
  }

  /** What the source tests in its place: xmlns="" is not on the stack. */
  predicate CallsForEmpty(o: Options, anc: seq<Elem>) {
    !Find(StackAt(o, anc), NO_DEFAULT)
  }

  /** The nearest visible ancestor rendered a default namespace, empty or not. */
  predicate NearestDeclares(o: Options, anc: seq<Elem>) {
    SearchFrom(NearestPushes(o, anc), "").Some?
  }

  /** The default the nearest visible ancestor rendered is the last one rendered. */
  lemma {:induction false} NearestIsLast(o: Options, anc: seq<Elem>)
    ensures NearestDeclares(o, anc) ==>
      LastDefault(o, anc) == Some(NearestPushes(o, anc)[SearchFrom(NearestPushes(o, anc), "").value])
  {
    if anc != [] && !Visible(o, anc[0], anc[1..]) {
      NearestIsLast(o, anc[1..]);
    }
  }

  lemma OneDefault(ps: seq<Ns>)
    requires DistinctPrefixes(ps)
    ensures (exists x :: x in ps && x.prefix == "" && x.href != "")
            <==> SearchFrom(ps, "").Some? && ps[SearchFrom(ps, "").value].href != ""
  {
    if SearchFrom(ps, "").Some? {
      var k := SearchFrom(ps, "").value;
      assert ps[k] in ps;
      assert forall x | x in ps && x.prefix == "" :: x == ps[k];
    } else {
      assert forall x | x in ps :: x.prefix != "";
    }
  }

  /** For every visibility predicate: the source's test agrees with section 2.3 exactly
      when no default is left over from above the nearest visible ancestor, that is
      when none was rendered, the last one rendered was empty, or the nearest visible
      ancestor rendered one itself. */
  lemma EmptyDefaultAgrees(o: Options, anc: seq<Elem>)
    ensures (CallsForEmpty(o, anc) <==> NearestHasDefault(o, anc))
            <==> LastDefault(o, anc).None? || LastDefault(o, anc).value.href == "" || NearestDeclares(o, anc)
  {
    EmptyDefaultRule(o, anc);
    NearestIsLast(o, anc);
    NearestDistinct(o, anc);
    OneDefault(NearestPushes(o, anc));
  }

  /** Where they part, the source prints one xmlns="" too many: an element without a
      default of its own, below a visible one that has none either. */
  lemma ExtraDefault(o: Options, e: Elem, anc: seq<Elem>)
    requires Visible(o, e, anc) && !HasDefault(Pushes(o, e, anc))
    requires !(CallsForEmpty(o, anc) <==> NearestHasDefault(o, anc))
    ensures NO_DEFAULT in PrintedDecls(o, e, anc) && !NearestHasDefault(o, anc)
  {
    EmptyDefaultAgrees(o, anc);
    EmptyDefaultRule(o, anc);
    assert PrintedDecls(o, e, anc)[0] == NO_DEFAULT;
  }

  // ---------------------------------------------------------------- a witness

  const DEFAULT_ID: nat := 10

  /** Everything is visible but the namespace node below the element that declares it. */
  const HIDING := Options((x, p) => x != DEFAULT_ID || p == 1, false, _ => false, 0)

  function Outer(uri: string): Elem {
    Element(1, "", "b", [Ns(DEFAULT_ID, "", uri)], [], [])
  }

  const MIDDLE: Elem := Element(2, "", "a", [], [], [])
  const INNER: Elem := Element(3, "", "e", [], [], [])

  lemma OuterPushes(uri: string)
    requires uri != ""
    ensures Pushes(HIDING, Outer(uri), []) == [Ns(DEFAULT_ID, "", uri)]
    ensures StackAt(HIDING, [Outer(uri)]) == NsStack([Ns(DEFAULT_ID, "", uri)], 0, 1)
  {
    var b, ns := Outer(uri), Ns(DEFAULT_ID, "", uri);
    assert [b] + [] == [b] && [b][1..] == [];
    assert Decls([b]) == [ns] + [] == [ns];
    assert Renders(HIDING, 1, [ns], 0);
    assert PushesFrom(HIDING, 1, [ns], 0) == [ns] + PushesFrom(HIDING, 1, [ns], 1);
    assert [] + [ns] == [ns];
  }

  /** Below it the declaration is in force and hidden: nothing is pushed. */
  lemma NothingPushed(uri: string, e: Elem, anc: seq<Elem>)
    requires e.nsDef == [] && e.id != 1 && Decls(anc) == [Ns(DEFAULT_ID, "", uri)]
    ensures Decls([e] + anc) == [Ns(DEFAULT_ID, "", uri)]
    ensures Pushes(HIDING, e, anc) == []
  {
    var l := [Ns(DEFAULT_ID, "", uri)];
    assert ([e] + anc)[1..] == anc && [] + l == l;
    assert !Renders(HIDING, e.id, l, 0);
    assert PushesFrom(HIDING, e.id, l, 0) == PushesFrom(HIDING, e.id, l, 1) == [];
  }

  lemma OnlyEmpty(o: Options, e: Elem, anc: seq<Elem>)
    requires Visible(o, e, anc) && Pushes(o, e, anc) == [] && CallsForEmpty(o, anc)
    ensures PrintedDecls(o, e, anc) == [NO_DEFAULT]
  {
    assert [NO_DEFAULT] + [] == [NO_DEFAULT];
  }

  lemma BelowOuter(uri: string)
    requires uri != ""
    ensures var b := Outer(uri);
      && Pushes(HIDING, MIDDLE, [b]) == [] && Pushes(HIDING, INNER, [MIDDLE, b]) == []
      && StackAt(HIDING, [MIDDLE, b]) == NsStack([Ns(DEFAULT_ID, "", uri)], 1, 1)
  {
    var b, ns := Outer(uri), Ns(DEFAULT_ID, "", uri);
    OuterPushes(uri);
    assert [b][1..] == [] && Decls([b]) == [ns] + [] == [ns];
    NothingPushed(uri, MIDDLE, [b]);
    assert [MIDDLE] + [b] == [MIDDLE, b] && [MIDDLE, b][1..] == [b];
    NothingPushed(uri, INNER, [MIDDLE, b]);
    assert [ns] + [] == [ns];
  }

  lemma OuterIsNearest(uri: string)
    requires uri != ""
    ensures var b := Outer(uri); NearestHasDefault(HIDING, [b]) && !NearestHasDefault(HIDING, [MIDDLE, b])
  {
    var b, ns := Outer(uri), Ns(DEFAULT_ID, "", uri);
    OuterPushes(uri);
    BelowOuter(uri);
    assert [b][1..] == [] && [MIDDLE, b][1..] == [b];
    assert ns in NearestPushes(HIDING, [b]);
  }

  /** With one hidden namespace node the source prints xmlns="" at the child, as section
      2.3 asks, and again at the grandchild, where it changes nothing. */
  lemma SuperfluousDefault(uri: string)
    requires uri != ""
    ensures var b := Outer(uri);
      && PrintedDecls(HIDING, MIDDLE, [b]) == [NO_DEFAULT] && NearestHasDefault(HIDING, [b])
      && PrintedDecls(HIDING, INNER, [MIDDLE, b]) == [NO_DEFAULT] && !NearestHasDefault(HIDING, [MIDDLE, b])
      && Binding(PrintedChain(HIDING, [MIDDLE, b]), "") == Declares(NO_DEFAULT)
  {
    var b := Outer(uri);
    OuterPushes(uri);
    BelowOuter(uri);
    OuterIsNearest(uri);
    OnlyEmpty(HIDING, MIDDLE, [b]);
    OnlyEmpty(HIDING, INNER, [MIDDLE, b]);
    assert [MIDDLE, b][1..] == [b];
    BindingConcat([NO_DEFAULT], PrintedChain(HIDING, [b]), "");
  }
}
