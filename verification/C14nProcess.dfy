/** The canonicalizer as the source runs it: one context whose namespace stack,
    position and output buffer are updated in place while the tree is walked. */
module C14nProcess {

  import opened Optional
  import opened SortedList
  import opened C14nEscape
  import opened C14nTree
  import opened C14nMeaning
  import Seqs

  lemma {:induction false} InsertAllSnoc<T>(l: seq<T>, xs: seq<T>, x: T, cmp: (T, T) -> int)
    ensures InsertAll(l, xs + [x], cmp) == Insert(InsertAll(l, xs, cmp), x, cmp)
    decreases |xs|
  {
    if xs == [] {
      assert xs + [x] == [x] && [x][1..] == [];
    } else {
      assert (xs + [x])[1..] == xs[1..] + [x];
      InsertAllSnoc(Insert(l, xs[0], cmp), xs[1..], x, cmp);
    }
  }

  lemma {:induction false} UnrenderedSnoc(s: NsStack, ps: seq<Ns>, x: Ns)
    ensures Unrendered(s, ps + [x]) == Unrendered(s, ps) + (if Find(s, x) then [] else [x])
  {
    if ps == [] {
      assert ps + [x] == [x] && [x][1..] == [];
    } else {
      assert (ps + [x])[1..] == ps[1..] + [x];
      UnrenderedSnoc(s, ps[1..], x);
    }
  }

  lemma {:induction false} VisibleAttrsSnoc(o: Options, e: nat, attrs: seq<Attribute>, x: Attribute)
    ensures VisibleAttrs(o, e, attrs + [x]) == VisibleAttrs(o, e, attrs) + (if o.visible(x.id, e) then [x] else [])
  {
    if attrs == [] {
      assert attrs + [x] == [x] && [x][1..] == [];
    } else {
      assert (attrs + [x])[1..] == attrs[1..] + [x];
      VisibleAttrsSnoc(o, e, attrs[1..], x);
    }
  }

  lemma {:induction false} ShowDeclsConcat(a: seq<Ns>, b: seq<Ns>)
    ensures ShowDecls(a + b) == ShowDecls(a) + ShowDecls(b)
  {
    if a == [] {
      assert a + b == b;
    } else {
      assert (a + b)[1..] == a[1..] + b;
      ShowDeclsConcat(a[1..], b);
      Seqs.Assoc(ShowDecl(a[0]), ShowDecls(a[1..]), ShowDecls(b));
    }
  }

  class Context {
    const o: Options
    var nsTab: seq<Ns>
    var nsCurEnd: nat
    var nsPrevStart: nat
    var nsPrevEnd: nat
    var pos: Position
    var parentIsDoc: bool
    var buf: string

    constructor (o: Options)
      ensures Valid() && this.o == o && Stack() == StackAt(o, [])
      ensures buf == "" && Here() == Place(Before, true)
    {
      this.o := o;
      nsTab, nsCurEnd, nsPrevStart, nsPrevEnd := [], 0, 0, 0;
      pos, parentIsDoc, buf := Before, true, "";
    }

    ghost predicate Valid()
      reads this
    {
      nsCurEnd <= |nsTab|
    }

    ghost function Stack(): NsStack
      reads this
      requires Valid()
    {
      NsStack(nsTab[..nsCurEnd], nsPrevStart, nsPrevEnd)
    }

    ghost function Here(): Place
      reads this
    {
      Place(pos, parentIsDoc)
    }

    /** xmlC14NVisibleNsStackAdd: reuses a slot left over by a restore, or grows. */
    method StackAdd(ns: Ns)
      requires Valid()
      modifies this`nsTab, this`nsCurEnd
      ensures Valid() && nsTab[..nsCurEnd] == old(nsTab[..nsCurEnd]) + [ns]
    {
      if nsCurEnd == |nsTab| {
        nsTab := nsTab + [ns];
      } else {
        nsTab := nsTab[nsCurEnd := ns];
      }
      nsCurEnd := nsCurEnd + 1;
    }

    /** xmlC14NVisibleNsStackFind. */
    method StackFind(ns: Ns) returns (found: bool)
      requires Valid()
      ensures found == Find(Stack(), ns)
    {
      var hasEmptyNs := ns.prefix == "" && ns.href == "";
      var start: nat := if hasEmptyNs then 0 else nsPrevStart;
      var i: nat := nsCurEnd;
      ghost var tab := nsTab[..nsCurEnd];
      while i > start
        invariant i <= nsCurEnd
        invariant Find(Stack(), ns) == FindFrom(tab, start, i, ns)
      {
        var ns1 := nsTab[i - 1];
        assert tab[i - 1] == ns1;
        if ns.prefix == ns1.prefix {
          return ns.href == ns1.href;
        }
        i := i - 1;
      }
      found := hasEmptyNs;
    }

    /** xmlC14NVisibleNsStackShift. */
    method StackShift()
      modifies this`nsPrevStart, this`nsPrevEnd
      ensures nsPrevStart == old(nsPrevEnd) && nsPrevEnd == nsCurEnd
    {
      nsPrevStart := nsPrevEnd;
      nsPrevEnd := nsCurEnd;
    }

    /** One declaration of the ancestor chain, number `idx` of all of them. */
    method VisitDecl(e: Elem, anc: seq<Elem>, l: seq<Ns>, idx: nat, visible: bool, list: seq<Ns>, hasEmpty: bool)
      returns (list': seq<Ns>, hasEmpty': bool)
      requires l == Decls([e] + anc) && idx < |l|
      requires Valid() && nsPrevStart == StackAt(o, anc).prevStart
      requires Axis(nsTab[..nsCurEnd], list, hasEmpty) == AxisAt(o, e, anc, idx, visible)
      modifies this`nsTab, this`nsCurEnd
      ensures Valid()
      ensures Axis(nsTab[..nsCurEnd], list', hasEmpty') == AxisAt(o, e, anc, idx + 1, visible)
    {
      var ns := l[idx];
      list', hasEmpty' := list, hasEmpty;
      var tmp := Search(l, ns.prefix);
      if tmp == Some(idx) && !IsXmlNs(ns) && o.visible(ns.id, e.id) {
        AxisStep(o, e, anc, idx, visible);
        var alreadyRendered := StackFind(ns);
        if visible {
          StackAdd(ns);
        }
        if !alreadyRendered {
          list' := Insert(list, ns, NsCompare);
        }
        if |ns.prefix| == 0 {
          hasEmpty' := true;
        }
      } else {
        AxisSkip(o, e, anc, idx, visible);
      }
    }

    /** The inner loop of the axis: the declarations of one element of the chain. */
    method VisitDecls(e: Elem, anc: seq<Elem>, l: seq<Ns>, decls: seq<Ns>, start: nat, visible: bool,
                      list: seq<Ns>, hasEmpty: bool)
      returns (end: nat, list': seq<Ns>, hasEmpty': bool)
      requires l == Decls([e] + anc) && start + |decls| <= |l|
      requires Valid() && nsPrevStart == StackAt(o, anc).prevStart
      requires Axis(nsTab[..nsCurEnd], list, hasEmpty) == AxisAt(o, e, anc, start, visible)
      modifies this`nsTab, this`nsCurEnd
      ensures Valid() && end == start + |decls|
      ensures Axis(nsTab[..nsCurEnd], list', hasEmpty') == AxisAt(o, e, anc, end, visible)
    {
      list', hasEmpty' := list, hasEmpty;
      end := start;
      while end < start + |decls|
        invariant Valid() && start <= end <= start + |decls|
        invariant Axis(nsTab[..nsCurEnd], list', hasEmpty') == AxisAt(o, e, anc, end, visible)
      {
        list', hasEmpty' := VisitDecl(e, anc, l, end, visible, list', hasEmpty');
        end := end + 1;
      }
    }

    /** The outer loop of the axis: from the element itself up to the root. */
    method VisitChain(e: Elem, anc: seq<Elem>, visible: bool) returns (list: seq<Ns>, hasEmpty: bool)
      requires Valid() && Stack() == StackAt(o, anc)
      modifies this`nsTab, this`nsCurEnd
      ensures Valid()
      ensures Axis(nsTab[..nsCurEnd], list, hasEmpty) == AxisAt(o, e, anc, |Decls([e] + anc)|, visible)
    {
      var chain := [e] + anc;
      var l := Decls(chain);
      var idx: nat := 0;
      list, hasEmpty := [], false;
      AxisStart(o, e, anc, visible);
      assert chain[0..] == chain;
      for k := 0 to |chain|
        invariant Valid() && idx + |Decls(chain[k..])| == |l|
        invariant Axis(nsTab[..nsCurEnd], list, hasEmpty) == AxisAt(o, e, anc, idx, visible)
      {
        DeclsFrom(chain, k);
        idx, list, hasEmpty := VisitDecls(e, anc, l, chain[k].nsDef, idx, visible, list, hasEmpty);
      }
      assert chain[|chain|..] == [];
    }

    /** xmlC14NProcessNamespacesAxis: interleaves searching and pushing, yet prints
        what the declarative account says. */
    method ProcessNamespacesAxis(e: Elem, anc: seq<Elem>, visible: bool)
      requires Valid() && Stack() == StackAt(o, anc) && visible == Visible(o, e, anc)
      modifies this`nsTab, this`nsCurEnd, this`buf
      ensures Valid()
      ensures nsTab[..nsCurEnd] == StackAt(o, anc).tab + (if visible then Pushes(o, e, anc) else [])
      ensures buf == old(buf) + ShowDecls(PrintedDecls(o, e, anc))
    {
      var list, hasEmpty := VisitChain(e, anc, visible);
      AxisEnd(o, e, anc, visible);
      FinishAxis(e, anc, visible, list, hasEmpty);
    }

    /** The tail of the axis: xmlns="" where called for, then the sorted list. */
    method FinishAxis(e: Elem, anc: seq<Elem>, visible: bool, list: seq<Ns>, hasEmpty: bool)
      requires Valid() && visible == Visible(o, e, anc)
      requires Stack() == StackAt(o, anc).(tab := StackAt(o, anc).tab + (if visible then Pushes(o, e, anc) else []))
      requires list == InsertAll([], Unrendered(StackAt(o, anc), Pushes(o, e, anc)), NsCompare)
      requires hasEmpty == HasDefault(Pushes(o, e, anc))
      modifies this`buf
      ensures buf == old(buf) + ShowDecls(PrintedDecls(o, e, anc))
    {
      var first: seq<Ns> := [];
      if visible && !hasEmpty {
        var found := StackFind(NO_DEFAULT);
        ghost var ps := Pushes(o, e, anc);
        assert forall x | x in ps :: x.prefix != NO_DEFAULT.prefix;
        ScanUnbound(StackAt(o, anc), ps, NO_DEFAULT, 0);
        if !found {
          first := [NO_DEFAULT];
          WriteDecls(first);
        }
      }
      WriteDecls(list);
      ShowDeclsConcat(first, list);
      Seqs.Assoc(old(buf), ShowDecls(first), ShowDecls(list));
    }

    /** xmlListWalk with xmlC14NPrintNamespaces. */
    method WriteDecls(decls: seq<Ns>)
      modifies this`buf
      ensures buf == old(buf) + ShowDecls(decls)
    {
      for i := 0 to |decls|
        invariant buf == old(buf) + ShowDecls(decls[..i])
      {
        assert decls[..i + 1] == decls[..i] + [decls[i]];
        ShowDeclsConcat(decls[..i], [decls[i]]);
        assert [decls[i]][1..] == [];
        assert ShowDecls([decls[i]]) == ShowDecl(decls[i]) + "";
        Seqs.Assoc(old(buf), ShowDecls(decls[..i]), ShowDecl(decls[i]));
        buf := buf + ShowDecl(decls[i]);
      }
      assert decls[..|decls|] == decls;
    }

    /** The visible attributes of the element itself, sorted. */
    method CollectAttrs(e: Elem) returns (list: seq<Attribute>)
      ensures list == InsertAll([], VisibleAttrs(o, e.id, e.attrs), AttrCompare)
    {
      list := [];
      for i := 0 to |e.attrs|
        invariant list == InsertAll([], VisibleAttrs(o, e.id, e.attrs[..i]), AttrCompare)
      {
        var attr := e.attrs[i];
        ghost var seen := VisibleAttrs(o, e.id, e.attrs[..i]);
        assert e.attrs[..i + 1] == e.attrs[..i] + [attr];
        VisibleAttrsSnoc(o, e.id, e.attrs[..i], attr);
        InsertAllSnoc([], seen, attr, AttrCompare);
        assert seen + [] == seen;
        if o.visible(attr.id, e.id) {
          list := Insert(list, attr, AttrCompare);
        }
      }
      assert e.attrs[..|e.attrs|] == e.attrs;
    }

    /** xmlC14NProcessAttrsAxis in 1.0 mode. */
    method ProcessAttrsAxis(e: Elem, anc: seq<Elem>, visible: bool)
      requires visible == Visible(o, e, anc)
      modifies this`buf
      ensures buf == old(buf) + ShowAttrs(PrintedAttrs(o, e, anc))
    {
      var list := CollectAttrs(e);
      if visible && ParentHidden(o, anc) {
        ghost var own := list;
        assert anc[0..] == anc;
        for k := 0 to |anc|
          invariant ImportXml(list, anc[k..]) == ImportXml(own, anc) && buf == old(buf)
        {
          assert anc[k..][0] == anc[k] && anc[k..][1..] == anc[k + 1..];
          list := ImportAttrs(list, anc[k].attrs);
        }
        assert anc[|anc|..] == [];
      }
      assert list == PrintedAttrs(o, e, anc);
      WriteAttrs(list);
    }

    method ImportAttrs(list: seq<Attribute>, attrs: seq<Attribute>) returns (r: seq<Attribute>)
      ensures r == ImportFrom(list, attrs)
    {
      r := list;
      assert attrs[0..] == attrs;
      for i := 0 to |attrs|
        invariant ImportFrom(r, attrs[i..]) == ImportFrom(list, attrs)
      {
        assert attrs[i..][0] == attrs[i] && attrs[i..][1..] == attrs[i + 1..];
        if IsXmlAttr(attrs[i]) {
          if !Contains(r, attrs[i], AttrCompare) {
            r := Insert(r, attrs[i], AttrCompare);
          }
        }
      }
      assert attrs[|attrs|..] == [];
    }

    /** xmlListWalk with xmlC14NPrintAttrs. */
    method WriteAttrs(attrs: seq<Attribute>)
      modifies this`buf
      ensures buf == old(buf) + ShowAttrs(attrs)
    {
      assert attrs[0..] == attrs;
      ghost var whole := old(buf) + ShowAttrs(attrs);
      for i := 0 to |attrs|
        invariant buf + ShowAttrs(attrs[i..]) == whole
      {
        var a := attrs[i];
        assert attrs[i..][0] == a && attrs[i..][1..] == attrs[i + 1..];
        var value := NormalizeString(a.value, ForAttr);
        ghost var before := buf;
        buf := buf + (" " + (if a.ns.Some? && a.ns.value.prefix != "" then a.ns.value.prefix + ":" else "")
                      + a.name + "=\"" + value + "\"");
        assert buf == before + ShowAttr(a);
        Seqs.Assoc(before, ShowAttr(a), ShowAttrs(attrs[i + 1..]));
      }
      assert attrs[|attrs|..] == [];
      assert buf + "" == buf;
    }

    /** xmlC14NCheckForRelativeNamespaces. */
    method CheckForRelativeNamespaces(decls: seq<Ns>) returns (ok: bool)
      ensures ok == !RelativeDecl(o, decls)
    {
      for i := 0 to |decls|
        invariant forall j | 0 <= j < i :: !(decls[j].href != "" && o.relative(decls[j].href))
      {
        if |decls[i].href| > 0 && o.relative(decls[i].href) {
          return false;
        }
      }
      ok := true;
    }

    method Write(s: string)
      modifies this`buf
      ensures buf == old(buf) + s
    {
      buf := buf + s;
    }

    /** Namespace and attribute axis of one element, with the brackets around them. */
    method StartTag(n: Elem, anc: seq<Elem>, visible: bool)
      requires Valid() && Stack() == StackAt(o, anc) && visible == Visible(o, n, anc)
      modifies this`nsTab, this`nsCurEnd, this`nsPrevStart, this`nsPrevEnd, this`buf
      ensures Valid() && Stack() == StackAt(o, [n] + anc)
      ensures nsCurEnd >= old(nsCurEnd) && nsTab[..old(nsCurEnd)] == old(nsTab[..nsCurEnd])
      ensures buf == old(buf) + StartText(visible, QName(n.prefix, n.name), PrintedDecls(o, n, anc), PrintedAttrs(o, n, anc))
    {
      ghost var s := StackAt(o, anc);
      ghost var open, gt := if visible then "<" + QName(n.prefix, n.name) else "", if visible then ">" else "";
      Write(if visible then "<" + QName(n.prefix, n.name) else "");
      ProcessNamespacesAxis(n, anc, visible);
      assert nsTab[..old(nsCurEnd)] == nsTab[..nsCurEnd][..|s.tab|] == s.tab;
      Seqs.Assoc(old(buf), open, ShowDecls(PrintedDecls(o, n, anc)));
      if visible {
        StackShift();
      }
      assert Stack() == StackAt(o, [n] + anc) by {
        assert ([n] + anc)[1..] == anc;
        assert s.tab + [] == s.tab;
      }
      ghost var out := open + ShowDecls(PrintedDecls(o, n, anc));
      ProcessAttrsAxis(n, anc, visible);
      Seqs.Assoc(old(buf), out, ShowAttrs(PrintedAttrs(o, n, anc)));
      Write(if visible then ">" else "");
      Seqs.Assoc(old(buf), out + ShowAttrs(PrintedAttrs(o, n, anc)), gt);
    }

    /** Tags and content of an element, with the stack left as its children saw it. */
    method ProcessTag(n: Elem, anc: seq<Elem>, visible: bool) returns (ok: bool)
      requires Valid() && Stack() == StackAt(o, anc) && visible == Visible(o, n, anc)
      modifies this
      ensures Valid()
      ensures ok == RenderList(o, n.children, [n] + anc, old(Here())).Done?
      ensures ok ==> nsCurEnd >= old(nsCurEnd) && nsTab[..old(nsCurEnd)] == old(nsTab[..nsCurEnd])
      ensures ok ==> Here() == RenderList(o, n.children, [n] + anc, old(Here())).place
      ensures ok ==> buf == old(buf) + Show(Tag(visible, QName(n.prefix, n.name), PrintedDecls(o, n, anc),
                                                PrintedAttrs(o, n, anc),
                                                RenderList(o, n.children, [n] + anc, old(Here())).value))
      decreases n, 0
    {
      StartTag(n, anc, visible);
      ghost var tag := StartText(visible, QName(n.prefix, n.name), PrintedDecls(o, n, anc), PrintedAttrs(o, n, anc));
      ghost var tab, end := nsTab[..nsCurEnd], old(nsCurEnd);
      ok := ProcessNodeList(n.children, [n] + anc);
      if !ok {
        return;
      }
      ghost var content := ShowAll(RenderList(o, n.children, [n] + anc, old(Here())).value);
      Seqs.Assoc(old(buf), tag, content);
      EndTag(n, visible);
      Seqs.Assoc(old(buf), tag + content, EndText(visible, QName(n.prefix, n.name)));
      assert nsTab[..nsCurEnd] == tab;
      assert nsTab[..end] == tab[..end];
    }

    /** The stack is saved before the element and restored after it. */
    method ProcessSaved(n: Elem, anc: seq<Elem>, visible: bool) returns (ok: bool)
      requires Valid() && Stack() == StackAt(o, anc) && visible == Visible(o, n, anc)
      modifies this
      ensures Valid()
      ensures ok == RenderList(o, n.children, [n] + anc, old(Here())).Done?
      ensures ok ==> Stack() == old(Stack())
      ensures ok ==> Here() == RenderList(o, n.children, [n] + anc, old(Here())).place
      ensures ok ==> buf == old(buf) + Show(Tag(visible, QName(n.prefix, n.name), PrintedDecls(o, n, anc),
                                                PrintedAttrs(o, n, anc),
                                                RenderList(o, n.children, [n] + anc, old(Here())).value))
      decreases n, 1
    {
      var savedEnd, savedStart, savedPrevEnd := nsCurEnd, nsPrevStart, nsPrevEnd;
      ok := ProcessTag(n, anc, visible);
      if ok {
        nsCurEnd, nsPrevStart, nsPrevEnd := savedEnd, savedStart, savedPrevEnd;
      }
    }

    /** xmlC14NProcessElementNode: on success the namespace stack is as it was found. */
    method ProcessElement(n: Elem, anc: seq<Elem>) returns (ok: bool)
      requires Valid() && Stack() == StackAt(o, anc)
      modifies this
      ensures Valid()
      ensures ok == Render(o, n, anc, old(Here())).Done?
      ensures ok ==> Stack() == old(Stack()) && Here() == Render(o, n, anc, old(Here())).place
      ensures ok ==> buf == old(buf) + Show(Render(o, n, anc, old(Here())).value)
      decreases n, 2
    {
      ok := CheckForRelativeNamespaces(n.nsDef);
      if ok {
        var visible := Visible(o, n, anc);
        var wasDoc := visible && parentIsDoc;
        if wasDoc {
          parentIsDoc := false;
          pos := Inside;
        }
        ok := ProcessSaved(n, anc, visible);
        if ok && wasDoc {
          parentIsDoc := true;
          pos := After;
        }
      }
    }

    method EndTag(n: Elem, visible: bool)
      modifies this`buf
      ensures buf == old(buf) + EndText(visible, QName(n.prefix, n.name))
    {
      Write(if visible then "</" + QName(n.prefix, n.name) + ">" else "");
    }

    /** xmlC14NProcessNode. */
    method ProcessNode(n: Node, anc: seq<Elem>) returns (ok: bool)
      requires Valid() && Stack() == StackAt(o, anc)
      modifies this
      ensures Valid()
      ensures ok == Render(o, n, anc, old(Here())).Done?
      ensures ok ==> Stack() == old(Stack()) && Here() == Render(o, n, anc, old(Here())).place
      ensures ok ==> buf == old(buf) + Show(Render(o, n, anc, old(Here())).value)
      decreases n, 3
    {
      ok := true;
      var visible := Visible(o, n, anc);
      match n
      case Element(_, _, _, _, _, _) =>
        ok := ProcessElement(n, anc);
      case Text(_, content) =>
        ProcessText(content, visible);
      case CData(_, content) =>
        ProcessText(content, visible);
      case Instruction(_, target, content) =>
        if visible {
          var text := NormalizeString(content, ForInstruction);
          Write((if pos == After then "\n<?" else "<?") + target
                + (if content != "" then " " + text else "")
                + (if pos == Before then "?>\n" else "?>"));
        } else {
          Write("");
        }
      case Comment(_, content) =>
        if visible && o.comments {
          var text := NormalizeString(content, ForComment);
          Write((if pos == After then "\n<!--" else "<!--") + text
                + (if pos == Before then "-->\n" else "-->"));
        } else {
          Write("");
        }
      case EntityRef(_) =>
        ok := false;
      case Declaration(_) =>
        Write("");
    }

    method ProcessText(content: string, visible: bool)
      modifies this`buf
      ensures buf == old(buf) + (if visible then Escape(content, ForText) else "")
    {
      if visible {
        var text := NormalizeString(content, ForText);
        buf := buf + text;
      } else {
        buf := buf + "";
      }
    }

    /** xmlC14NProcessNodeList. */
    method ProcessNodeList(ns: seq<Node>, anc: seq<Elem>) returns (ok: bool)
      requires Valid() && Stack() == StackAt(o, anc)
      modifies this
      ensures Valid()
      ensures ok == RenderList(o, ns, anc, old(Here())).Done?
      ensures ok ==> Stack() == old(Stack()) && Here() == RenderList(o, ns, anc, old(Here())).place
      ensures ok ==> buf == old(buf) + ShowAll(RenderList(o, ns, anc, old(Here())).value)
      decreases ns, 0
    {
      ghost var whole := RenderList(o, ns, anc, old(Here()));
      ok := true;
      assert ns[0..] == ns;
      var i := 0;
      while i < |ns|
        invariant i <= |ns| && ok && Valid() && Stack() == old(Stack())
        invariant whole.Done? == RenderList(o, ns[i..], anc, Here()).Done?
        invariant whole.Done? ==> whole.place == RenderList(o, ns[i..], anc, Here()).place
        invariant whole.Done? ==> buf + ShowAll(RenderList(o, ns[i..], anc, Here()).value) == old(buf) + ShowAll(whole.value)
      {
        assert ns[i..][0] == ns[i] && ns[i..][1..] == ns[i + 1..];
        ghost var here, before := Here(), buf;
        ok := ProcessNode(ns[i], anc);
        if !ok {
          return;
        }
        ghost var tail := RenderList(o, ns[i + 1..], anc, Here());
        if tail.Done? {
          ghost var r := Render(o, ns[i], anc, here).value;
          assert RenderList(o, ns[i..], anc, here).value == [r] + tail.value;
          assert ([r] + tail.value)[1..] == tail.value;
          Seqs.Assoc(before, Show(r), ShowAll(tail.value));
        }
        i := i + 1;
      }
      assert ns[i..] == [];
      assert buf + "" == buf;
    }

    /** Canonicalizes a document from a fresh context. */
    method Document(children: seq<Node>) returns (ok: bool)
      requires Valid() && Stack() == StackAt(o, []) && Here() == Place(Before, true) && buf == ""
      modifies this
      ensures ok <==> Canonical(o, children).Some?
      ensures ok ==> buf == Canonical(o, children).value
    {
      ok := ProcessNodeList(children, []);
    }
  }

  // ------------------------------------------------- the loop of the namespace axis

  /** What an element has pushed after the first `idx` declarations of its chain. */
  function PushesTo(o: Options, e: nat, l: seq<Ns>, idx: nat): seq<Ns>
    requires idx <= |l|
  {
    if idx == 0 then []
    else PushesTo(o, e, l, idx - 1) + (if Renders(o, e, l, idx - 1) then [l[idx - 1]] else [])
  }

  lemma {:induction false} PushesSplit(o: Options, e: nat, l: seq<Ns>, idx: nat)
    requires idx <= |l|
    ensures PushesTo(o, e, l, idx) + PushesFrom(o, e, l, idx) == PushesFrom(o, e, l, 0)
  {
    if idx > 0 {
      PushesSplit(o, e, l, idx - 1);
      Seqs.Assoc(PushesTo(o, e, l, idx - 1), if Renders(o, e, l, idx - 1) then [l[idx - 1]] else [], PushesFrom(o, e, l, idx));
    }
  }

  lemma DeclsFrom(chain: seq<Elem>, k: nat)
    requires k < |chain|
    ensures |Decls(chain[k..])| == |chain[k].nsDef| + |Decls(chain[k + 1..])|
  {
    assert chain[k..][0] == chain[k] && chain[k..][1..] == chain[k + 1..];
  }

  datatype Axis = Axis(tab: seq<Ns>, list: seq<Ns>, hasEmpty: bool)

  /** Stack, sorted list and flag after the first `idx` declarations of the chain. */
  function AxisAt(o: Options, e: Elem, anc: seq<Elem>, idx: nat, visible: bool): Axis
    requires idx <= |Decls([e] + anc)|
  {
    var s := StackAt(o, anc);
    var ps := PushesTo(o, e.id, Decls([e] + anc), idx);
    Axis(s.tab + (if visible then ps else []), InsertAll([], Unrendered(s, ps), NsCompare), HasDefault(ps))
  }

  lemma AxisStart(o: Options, e: Elem, anc: seq<Elem>, visible: bool)
    ensures AxisAt(o, e, anc, 0, visible) == Axis(StackAt(o, anc).tab, [], false)
  {
    assert StackAt(o, anc).tab + [] == StackAt(o, anc).tab;
  }

  lemma AxisSkip(o: Options, e: Elem, anc: seq<Elem>, idx: nat, visible: bool)
    requires idx < |Decls([e] + anc)| && !Renders(o, e.id, Decls([e] + anc), idx)
    ensures AxisAt(o, e, anc, idx + 1, visible) == AxisAt(o, e, anc, idx, visible)
  {
    var l := Decls([e] + anc);
    assert PushesTo(o, e.id, l, idx) + [] == PushesTo(o, e.id, l, idx);
  }

  /** One rendered declaration: what was pushed before it on the same element does
      not answer for it, and the loop's state advances. */
  lemma AxisStep(o: Options, e: Elem, anc: seq<Elem>, idx: nat, visible: bool)
    requires idx < |Decls([e] + anc)| && Renders(o, e.id, Decls([e] + anc), idx)
    ensures var s := StackAt(o, anc); var ns := Decls([e] + anc)[idx];
            var a := AxisAt(o, e, anc, idx, visible);
            && Find(s.(tab := a.tab), ns) == Find(s, ns)
            && AxisAt(o, e, anc, idx + 1, visible) ==
               Axis(if visible then a.tab + [ns] else a.tab,
                    if Find(s, ns) then a.list else Insert(a.list, ns, NsCompare), a.hasEmpty || ns.prefix == "")
  {
    var l, s := Decls([e] + anc), StackAt(o, anc);
    var ps, ns := PushesTo(o, e.id, l, idx), l[idx];
    assert PushesTo(o, e.id, l, idx + 1) == ps + [ns];
    OwnPushesDontCount(o, e, anc, idx, visible);
    UnrenderedSnoc(s, ps, ns);
    InsertAllSnoc([], Unrendered(s, ps), ns, NsCompare);
    assert Unrendered(s, ps) + [] == Unrendered(s, ps);
    DefaultSnoc(ps, ns);
    Seqs.Assoc(s.tab, ps, [ns]);
  }

  lemma AxisEnd(o: Options, e: Elem, anc: seq<Elem>, visible: bool)
    ensures var s := StackAt(o, anc); var ps := Pushes(o, e, anc);
            AxisAt(o, e, anc, |Decls([e] + anc)|, visible) ==
            Axis(s.tab + (if visible then ps else []), InsertAll([], Unrendered(s, ps), NsCompare), HasDefault(ps))
  {
    var l := Decls([e] + anc);
    PushesSplit(o, e.id, l, |l|);
    assert PushesTo(o, e.id, l, |l|) + [] == PushesTo(o, e.id, l, |l|);
  }

  /** An element's own pushes never answer for another of its prefixes. */
  lemma OwnPushesDontCount(o: Options, e: Elem, anc: seq<Elem>, idx: nat, visible: bool)
    requires var l := Decls([e] + anc); idx < |l| && Renders(o, e.id, l, idx)
    ensures var s := StackAt(o, anc); var l := Decls([e] + anc);
            Find(s.(tab := s.tab + (if visible then PushesTo(o, e.id, l, idx) else [])), l[idx]) == Find(s, l[idx])
  {
    var s, l := StackAt(o, anc), Decls([e] + anc);
    var ps, ns := PushesTo(o, e.id, l, idx), l[idx];
    WindowIsNearest(o, anc);
    if visible {
      PushesDistinct(o, e.id, l, 0);
      PushesSplit(o, e.id, l, idx);
      var all := PushesFrom(o, e.id, l, 0);
      assert all == ps + ([ns] + PushesFrom(o, e.id, l, idx + 1));
      forall x | x in ps
        ensures x.prefix != ns.prefix
      {
        var k :| 0 <= k < |ps| && ps[k] == x;
        assert all[k] == x && all[|ps|] == ns;
      }
      ScanUnbound(s, ps, ns, if EmptyDefault(ns) then 0 else s.prevStart);
    } else {
      assert s.tab + [] == s.tab;
    }
  }

  lemma DefaultSnoc(ps: seq<Ns>, ns: Ns)
    ensures HasDefault(ps + [ns]) == (HasDefault(ps) || ns.prefix == "")
  {
    if HasDefault(ps) {
      var i :| 0 <= i < |ps| && ps[i].prefix == "";
      assert (ps + [ns])[i].prefix == "";
    } else if ns.prefix == "" {
      assert (ps + [ns])[|ps|].prefix == "";
    }
  }
}
