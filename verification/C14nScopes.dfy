/** The namespaces a reader of the output text finds in scope at an element, and exactly
    when they are those of the source. */
module C14nScopes {

  import opened Optional
  import opened SortedList
  import opened C14nEscape
  import opened C14nTree
  import opened C14nMeaning
  import opened C14nText
  import Seqs

  // ---------------------------------------------------------- what a reader finds

  /** The declarations of the start tag at the beginning of a text. */
  function ReadTag(text: string): Option<seq<Ns>> {
    match ReadStart(text)
    case None => None
    case Some((tag, _)) => Some(ReadDecls(tag.pairs))
  }

  /** The declarations in the start tags of an element and its ancestors, each given with
      whatever follows it in the output. */
  function ReadScope(texts: seq<string>): Option<seq<Ns>> {
    if texts == [] then Some([])
    else
      match ReadTag(texts[0])
      case None => None
      case Some(ds) => if ReadScope(texts[1..]).None? then None else Some(ds + ReadScope(texts[1..]).value)
  }

  function TagText(o: Options, e: Elem, anc: seq<Elem>): string {
    StartText(true, QName(e.prefix, e.name), PrintedDecls(o, e, anc), PrintedAttrs(o, e, anc))
  }

  /** Text `i` is the output from the start tag of element `i` of the chain on. */
  predicate From(o: Options, anc: seq<Elem>, texts: seq<string>)
    decreases |anc|
  {
    if anc == [] then texts == []
    else texts != [] && TagText(o, anc[0], anc[1..]) <= texts[0] && From(o, anc[1..], texts[1..])
  }

  /** At the element and at each of its ancestors the text binds every prefix as the source. */
  ghost predicate ScopesRead(anc: seq<Elem>, texts: seq<string>)
    requires |anc| == |texts|
  {
    anc == [] || (&& ScopesRead(anc[1..], texts[1..])
                  && ReadScope(texts).Some?
                  && forall p: string :: Binding(ReadScope(texts).value, p) == Binding(Decls(anc), p))
  }

  /** Every URI some prefix is bound to, at the element or above, is clean. */
  ghost predicate CleanScopes(anc: seq<Elem>) {
    anc == [] || (&& CleanScopes(anc[1..])
                  && forall p: string :: Binding(Decls(anc), p).Some? ==> Clean(Binding(Decls(anc), p).value))
  }

  /** Names in the source are free of the characters that end them. */
  ghost predicate Named(anc: seq<Elem>) {
    forall e | e in anc ::
      && NameOK(QName(e.prefix, e.name))
      && (forall d | d in e.nsDef :: '=' !in d.prefix)
      && (forall a | a in e.attrs :: '=' !in AttrName(a) && !IsDeclName(AttrName(a)))
  }

  // ------------------------------------------------------------- names and cleanness

  lemma {:induction false} DeclsNamed(anc: seq<Elem>)
    requires Named(anc)
    ensures forall d | d in Decls(anc) :: '=' !in d.prefix
  {
    if anc != [] {
      assert anc[0] in anc && forall e | e in anc[1..] :: e in anc;
      DeclsNamed(anc[1..]);
    }
  }

  lemma TagNamed(o: Options, e: Elem, anc: seq<Elem>)
    requires AllVisible(o) && Named([e] + anc)
    ensures NamesOK(QName(e.prefix, e.name), PrintedDecls(o, e, anc), PrintedAttrs(o, e, anc))
    ensures forall a | a in PrintedAttrs(o, e, anc) :: !IsDeclName(AttrName(a))
  {
    var l := Decls([e] + anc);
    assert ([e] + anc)[0] == e;
    DeclsNamed([e] + anc);
    PrintedAre(o, e, anc);
    forall d | d in PrintedDecls(o, e, anc)
      ensures '=' !in d.prefix
    {
      assert l[Search(l, d.prefix).value] in l;
    }
    PrintedAttrsAre(o, e, anc);
    forall a | a in PrintedAttrs(o, e, anc)
      ensures a in e.attrs
    {
      assert multiset(PrintedAttrs(o, e, anc))[a] > 0;
    }
  }

  ghost predicate CleanDecls(ds: seq<Ns>) {
    forall d | d in ds :: Clean(d.href)
  }

  /** The printed declarations are clean as soon as the bindings at the element are. */
  lemma PrintedClean(o: Options, e: Elem, anc: seq<Elem>)
    requires AllVisible(o) && CleanScopes([e] + anc)
    ensures CleanDecls(PrintedDecls(o, e, anc))
  {
    var l := Decls([e] + anc);
    PrintedAre(o, e, anc);
    forall d | d in PrintedDecls(o, e, anc)
      ensures Clean(d.href)
    {
      assert Binding(l, d.prefix) == Declares(d);
    }
  }

  /** And the other way round, the bindings of the parent being clean. */
  lemma BindingsClean(o: Options, e: Elem, anc: seq<Elem>)
    requires AllVisible(o) && CleanScopes(anc) && CleanDecls(PrintedDecls(o, e, anc))
    ensures CleanScopes([e] + anc)
  {
    var l := Decls([e] + anc);
    assert ([e] + anc)[1..] == anc;
    forall p: string | Binding(l, p).Some?
      ensures Clean(Binding(l, p).value)
    {
      SearchPrinted(o, e, anc, p);
      var d := PrintedDecls(o, e, anc);
      match Search(d, p)
      case Some(i) => assert d[i] in d;
      case None => NoBindingsAtRoot(anc, p);
    }
  }

  lemma NoBindingsAtRoot(anc: seq<Elem>, p: string)
    requires CleanScopes(anc)
    ensures Binding(Decls(anc), p).Some? ==> Clean(Binding(Decls(anc), p).value)
  {
  }

  // --------------------------------------------------------------- one tag

  /** A clean tag reads as it was printed. */
  lemma TagReads(o: Options, e: Elem, anc: seq<Elem>, text: string)
    requires AllVisible(o) && Named([e] + anc) && TagText(o, e, anc) <= text
    requires CleanDecls(PrintedDecls(o, e, anc))
    ensures ReadTag(text) == Some(Plain(PrintedDecls(o, e, anc)))
  {
    var ds, as', tag := PrintedDecls(o, e, anc), PrintedAttrs(o, e, anc), TagText(o, e, anc);
    TagNamed(o, e, anc);
    assert text == tag + text[|tag|..];
    StartTagReadsIff(QName(e.prefix, e.name), ds, as', text[|tag|..]);
    DeclsAmongPairs(ds, as');
  }

  lemma CleanTagReads(o: Options, e: Elem, anc: seq<Elem>, text: string)
    requires AllVisible(o) && Named([e] + anc) && TagText(o, e, anc) <= text && CleanScopes([e] + anc)
    ensures ReadTag(text) == Some(Plain(PrintedDecls(o, e, anc)))
  {
    PrintedClean(o, e, anc);
    TagReads(o, e, anc, text);
  }

  /** Pair `k` is the first that is read differently from what was printed. */
  predicate Misread(ds: seq<Ns>, ps: seq<Pair>, k: nat) {
    && k < |ds| && k < |ps|
    && ps[k].name == DeclName(ds[k]) && ps[k].value != ds[k].href && !Clean(ds[k].href)
    && forall j | 0 <= j < k :: ps[j] == Pair(DeclName(ds[j]), ds[j].href) && Clean(ds[j].href)
  }

  /** A tag that declares a URI which is not clean is unreadable, or one of its
      declarations is read as another. */
  lemma {:induction false} DeclsMisread(ds: seq<Ns>, rest: string) returns (k: nat)
    requires (forall d | d in ds :: '=' !in d.prefix) && !CleanDecls(ds)
    ensures var r := ReadPairs(ShowDecls(ds) + rest); r.Some? ==> Misread(ds, r.value.0, k)
  {
    var d, more := ds[0], ShowDecls(ds[1..]) + rest;
    assert d in ds && (forall x | x in ds[1..] :: x in ds) && forall x | x in ds :: x == d || x in ds[1..];
    Seqs.Assoc(ShowDecl(d), ShowDecls(ds[1..]), rest);
    if Clean(d.href) {
      k := DeclsMisread(ds[1..], rest);
      MisreadBehind(ds, more, k);
      k := k + 1;
    } else {
      MisreadFirst(ds, more);
      k := 0;
    }
  }

  lemma MisreadLater(ds: seq<Ns>, ps: seq<Pair>, k: nat)
    requires ds != [] && Clean(ds[0].href) && Misread(ds[1..], ps, k)
    ensures Misread(ds, [Pair(DeclName(ds[0]), ds[0].href)] + ps, k + 1)
  {
  }

  lemma MisreadBehind(ds: seq<Ns>, more: string, k: nat)
    requires ds != [] && Clean(ds[0].href) && '=' !in ds[0].prefix
    requires ReadPairs(more).Some? ==> Misread(ds[1..], ReadPairs(more).value.0, k)
    ensures var r := ReadPairs(ShowDecl(ds[0]) + more); r.Some? ==> Misread(ds, r.value.0, k + 1)
  {
    CleanFirst(ds[0], more);
    if ReadPairs(more).Some? {
      MisreadLater(ds, ReadPairs(more).value.0, k);
    }
  }

  lemma MisreadFirst(ds: seq<Ns>, more: string)
    requires ds != [] && !Clean(ds[0].href) && '=' !in ds[0].prefix
    ensures var r := ReadPairs(ShowDecl(ds[0]) + more); r.Some? ==> Misread(ds, r.value.0, 0)
  {
    UncleanFirstNamed(ds[0], more);
  }

  lemma UncleanFirstNamed(d: Ns, more: string)
    requires '=' !in d.prefix && !Clean(d.href)
    ensures var r := ReadPairs(ShowDecl(d) + more);
      r.Some? ==> r.value.0 != [] && r.value.0[0].name == DeclName(d) && r.value.0[0].value != d.href
  {
    DeclReads(d, more);
    UncleanReadsOther(d.href, more);
  }

  /** The misread declaration is the one found for its prefix. */
  lemma {:induction false} MisreadBinds(ds: seq<Ns>, ps: seq<Pair>, k: nat)
    requires Misread(ds, ps, k) && ds[k].prefix != "xml"
    requires forall j | 0 <= j < k :: ds[j].prefix != ds[k].prefix
    ensures Search(ReadDecls(ps), ds[k].prefix).Some?
    ensures Binding(ReadDecls(ps), ds[k].prefix) != Some(ds[k].href)
  {
    var first := Ns(0, ds[0].prefix, ps[0].value);
    FirstDecl(ds[0], ps);
    BindingConcat([first], ReadDecls(ps[1..]), ds[k].prefix);
    if k > 0 {
      MisreadBinds(ds[1..], ps[1..], k - 1);
      assert Search([first], ds[k].prefix).None?;
    } else {
      assert Search([first], ds[0].prefix) == Some(0);
    }
  }

  lemma FirstDecl(d: Ns, ps: seq<Pair>)
    requires ps != [] && ps[0].name == DeclName(d)
    ensures ReadDecls(ps) == [Ns(0, d.prefix, ps[0].value)] + ReadDecls(ps[1..])
  {
    DeclNamed(d);
  }

  lemma DeclNamed(d: Ns)
    ensures IsDeclName(DeclName(d)) && (DeclName(d) == "xmlns" <==> d.prefix == "")
    ensures d.prefix != "" ==> DeclName(d)[6..] == d.prefix
  {
    if d.prefix != "" {
      assert DeclName(d)[..6] == "xmlns:";
    }
  }

  lemma PairsOfTag(o: Options, e: Elem, anc: seq<Elem>, text: string) returns (rest: string)
    requires AllVisible(o) && Named([e] + anc) && TagText(o, e, anc) <= text
    ensures ReadTag(text).Some? ==>
      var r := ReadPairs(ShowDecls(PrintedDecls(o, e, anc)) + rest);
      r.Some? && ReadTag(text) == Some(ReadDecls(r.value.0))
  {
    var name, ds, as' := QName(e.prefix, e.name), PrintedDecls(o, e, anc), PrintedAttrs(o, e, anc);
    var after := text[|TagText(o, e, anc)|..];
    assert text == TagText(o, e, anc) + after;
    assert ([e] + anc)[0] == e;
    rest := ShowAttrs(as') + (">" + after);
    PairsInTag(name, ds, as', after);
  }

  lemma PairsInTag(name: string, ds: seq<Ns>, as': seq<Attribute>, after: string)
    requires NameOK(name)
    ensures var s := StartText(true, name, ds, as') + after;
      var t := ShowDecls(ds) + (ShowAttrs(as') + (">" + after));
      ReadTag(s).Some? ==> ReadPairs(t).Some? && ReadTag(s).value == ReadDecls(ReadPairs(t).value.0)
  {
    StartTextIs(name, ds, as', after);
    PairsStart(ds, as', after);
    StartPairs(name, ShowDecls(ds) + (ShowAttrs(as') + (">" + after)));
  }

  lemma StartPairs(name: string, t: string)
    requires NameOK(name) && t != "" && (t[0] == ' ' || t[0] == '>')
    ensures ReadStart("<" + (name + t)).Some? ==>
      ReadPairs(t).Some? && ReadStart("<" + (name + t)).value.0.pairs == ReadPairs(t).value.0
  {
    var s := "<" + (name + t);
    assert s[1..] == name + t;
    NameReads(name, t);
    assert s[1 + |name|..] == t;
  }

  /** A tag that is not clean does not bind what the source binds. */
  lemma TagMisbinds(o: Options, e: Elem, anc: seq<Elem>, text: string) returns (p: string)
    requires AllVisible(o) && Named([e] + anc) && TagText(o, e, anc) <= text
    requires !CleanDecls(PrintedDecls(o, e, anc)) && ReadTag(text).Some?
    ensures Search(ReadTag(text).value, p).Some?
    ensures Binding(ReadTag(text).value, p) != Binding(Decls([e] + anc), p)
  {
    var l, ds := Decls([e] + anc), PrintedDecls(o, e, anc);
    var rest := PairsOfTag(o, e, anc, text);
    TagNamed(o, e, anc);
    var k := DeclsMisread(ds, rest);
    var ps := ReadPairs(ShowDecls(ds) + rest).value.0;
    PrintedAre(o, e, anc);
    p := ds[k].prefix;
    assert ds[k] in ds && Binding(l, p) == Declares(ds[k]) && ds[k].href != "";
    forall j | 0 <= j < k
      ensures ds[j].prefix != p
    {
      assert ds[j] in ds;
    }
    MisreadBinds(ds, ps, k);
  }

  // ------------------------------------------------------------- all the way up

  lemma {:induction false} FromLength(o: Options, anc: seq<Elem>, texts: seq<string>)
    requires From(o, anc, texts)
    ensures |texts| == |anc|
    decreases |anc|
  {
    if anc != [] {
      FromLength(o, anc[1..], texts[1..]);
    }
  }

  lemma NamedUp(anc: seq<Elem>)
    requires Named(anc) && anc != []
    ensures Named(anc[1..])
  {
  }

  lemma TagAbove(ds: seq<Ns>, texts: seq<string>, printed: seq<Ns>, p: string)
    requires texts != [] && ReadTag(texts[0]) == Some(Plain(ds)) && ReadScope(texts[1..]).Some?
    requires Binding(ReadScope(texts[1..]).value, p) == Binding(printed, p)
    ensures ReadScope(texts).Some? && Binding(ReadScope(texts).value, p) == Binding(ds + printed, p)
  {
    var read := ReadScope(texts[1..]).value;
    PlainBinds(ds, p);
    BindingConcat(Plain(ds), read, p);
    BindingConcat(ds, printed, p);
  }

  /** Where everything is clean, the tags read as the declarations printed. */
  lemma {:induction false} ScopeIsPrinted(o: Options, anc: seq<Elem>, texts: seq<string>, p: string)
    requires AllVisible(o) && Named(anc) && From(o, anc, texts) && CleanScopes(anc)
    ensures ReadScope(texts).Some? && Binding(ReadScope(texts).value, p) == Binding(PrintedChain(o, anc), p)
    decreases |anc|
  {
    if anc != [] {
      var e, rest, ds := anc[0], anc[1..], PrintedDecls(o, anc[0], anc[1..]);
      assert anc == [e] + rest;
      NamedUp(anc);
      ScopeIsPrinted(o, rest, texts[1..], p);
      CleanTagReads(o, e, rest, texts[0]);
      TagAbove(ds, texts, PrintedChain(o, rest), p);
    }
  }

  lemma ScopeReads(o: Options, anc: seq<Elem>, texts: seq<string>)
    requires AllVisible(o) && Named(anc) && From(o, anc, texts) && CleanScopes(anc)
    ensures ReadScope(texts).Some? && forall p: string :: Binding(ReadScope(texts).value, p) == Binding(Decls(anc), p)
  {
    ScopeIsPrinted(o, anc, texts, "");
    forall p: string
      ensures Binding(ReadScope(texts).value, p) == Binding(Decls(anc), p)
    {
      ScopeIsPrinted(o, anc, texts, p);
      ScopesPreserved(o, anc, p);
    }
  }

  /** Where the parent's bindings are clean and the element's are not, the text misbinds. */
  lemma ScopeMisreads(o: Options, e: Elem, anc: seq<Elem>, texts: seq<string>)
    requires AllVisible(o) && Named([e] + anc) && texts != [] && TagText(o, e, anc) <= texts[0]
    requires CleanScopes(anc) && !CleanScopes([e] + anc) && ReadScope(texts).Some?
    ensures exists p: string :: Binding(ReadScope(texts).value, p) != Binding(Decls([e] + anc), p)
  {
    if CleanDecls(PrintedDecls(o, e, anc)) {
      BindingsClean(o, e, anc);
    } else {
      var p := TagMisbinds(o, e, anc, texts[0]);
      BindingConcat(ReadTag(texts[0]).value, ReadScope(texts[1..]).value, p);
    }
  }

  /** With everything visible, and whatever surrounds the start tags in the output: a
      reader of the text finds every prefix bound as in the source, at an element and all
      its ancestors, if and only if all URIs bound there are clean. */
  lemma {:induction false} TextScopesIff(o: Options, anc: seq<Elem>, texts: seq<string>)
    requires AllVisible(o) && Named(anc) && From(o, anc, texts)
    ensures |texts| == |anc| && (ScopesRead(anc, texts) <==> CleanScopes(anc))
    decreases |anc|
  {
    FromLength(o, anc, texts);
    if anc != [] {
      assert anc == [anc[0]] + anc[1..];
      NamedUp(anc);
      TextScopesIff(o, anc[1..], texts[1..]);
      if CleanScopes(anc) {
        ScopeReads(o, anc, texts);
      } else if CleanScopes(anc[1..]) && ReadScope(texts).Some? {
        ScopeMisreads(o, anc[0], anc[1..], texts);
      }
    }
  }

  // ------------------------------------------------------------------- witnesses

  /** A URI with an ampersand cannot be read back at all, unless a ';' follows. */
  lemma AmpersandUnreadable(prefix: string, u: string, v: string, rest: string)
    requires '=' !in prefix && '"' !in u && '&' !in u && '"' !in v && ';' !in v
    ensures ReadPairs(ShowDecl(Ns(0, prefix, u + "&" + v)) + rest) == None
  {
    var ns := Ns(0, prefix, u + "&" + v);
    DeclReads(ns, rest);
    QuotedReads(ns.href, rest);
    SpacedJoin(u, "&" + v);
    SpacedJoin("&", v);
    assert "&"[1..] == "" && Spaced("&") == "&";
    assert Spaced(ns.href) == Spaced(u) + ("&" + Spaced(v)) by {
      assert ns.href == u + ("&" + v);
    }
    SpacedFree(u, '&');
    SpacedFree(v, ';');
    DanglingReference(Spaced(u), Spaced(v));
  }

  lemma {:induction false} SpacedJoin(a: string, b: string)
    ensures Spaced(a + b) == Spaced(a) + Spaced(b)
  {
    if a == "" {
      assert a + b == b;
    } else {
      assert (a + b)[1..] == a[1..] + b;
      SpacedJoin(a[1..], b);
    }
  }

  lemma {:induction false} SpacedFree(a: string, c: char)
    requires c !in a && c != ' '
    ensures c !in Spaced(a)
  {
    if a != "" {
      SpacedFree(a[1..], c);
    }
  }

  lemma {:induction false} NoName(v: string)
    requires ';' !in v
    ensures RefName(v) == v
  {
    if v != "" {
      NoName(v[1..]);
    }
  }

  lemma {:induction false} DanglingReference(u: string, v: string)
    requires '&' !in u && ';' !in v
    ensures Unescape(u + ("&" + v)) == None
  {
    var s := u + ("&" + v);
    if u == "" {
      assert s == "&" + v && s[1..] == v;
      NoName(v);
    } else {
      assert s[1..] == u[1..] + ("&" + v);
      DanglingReference(u[1..], v);
    }
  }

  /** A quotation mark makes one declaration look like two. */
  lemma QuotesCollide(a: string, b: string, x: string, y: string)
    requires a != "" && b != ""
    ensures var one, two := [Ns(0, a, x + "\" xmlns:" + b + "=\"" + y)], [Ns(0, a, x), Ns(0, b, y)];
            one != two && ShowDecls(one) == ShowDecls(two)
  {
    var one, two := [Ns(0, a, x + "\" xmlns:" + b + "=\"" + y)], [Ns(0, a, x), Ns(0, b, y)];
    assert |one| != |two|;
    ShowOne(one[0]);
    ShowOne(two[1]);
    assert two[1..] == [two[1]];
    assert ShowDecl(one[0]) == ShowDecl(two[0]) + ShowDecl(two[1]);
  }

  lemma ShowOne(d: Ns)
    ensures ShowDecls([d]) == ShowDecl(d)
  {
    assert [d][1..] == [];
    assert ShowDecl(d) + "" == ShowDecl(d);
  }
}
