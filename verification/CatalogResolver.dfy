/** The resolver as the source runs it: counters updated in place and entry lists
    walked by loops, proved against the functions of `CatalogResolve`. */
module CatalogResolver {

  import opened Optional
  import opened CatalogUrn
  import opened CatalogLocal
  import opened CatalogResolve

  lemma {:induction false} FirstNamedSplit(a: seq<Entry>, b: seq<Entry>, kind: Kind, name: string)
    ensures FirstNamed(a + b, kind, name) ==
            if FirstNamed(a, kind, name).Some? then FirstNamed(a, kind, name) else FirstNamed(b, kind, name)
  {
    if a == [] {
      assert a + b == b;
    } else {
      assert (a + b)[1..] == a[1..] + b;
      FirstNamedSplit(a[1..], b, kind, name);
    }
  }

  lemma {:induction false} RewriteSnoc(a: seq<Entry>, e: Entry, sys: string, best: Option<Entry>)
    ensures BestRewrite(a + [e], sys, best) == BestRewrite([e], sys, BestRewrite(a, sys, best))
  {
    if a == [] {
      assert a + [e] == [e];
    } else {
      assert (a + [e])[1..] == a[1..] + [e];
      RewriteSnoc(a[1..], e, sys, if Rewrites(a[0], sys) && |a[0].name| > RewriteLength(best) then Some(a[0]) else best);
    }
  }

  lemma {:induction false} TargetsSnoc(a: seq<Entry>, e: Entry, kind: Kind, id: string)
    ensures Delegates(a + [e], kind, id) == Delegates(a, kind, id) + (if DelegatesTo(e, kind, id) then [e.url] else [])
    ensures Nexts(a + [e]) == Nexts(a) + (if e.kind == NextCatalog then [e.url] else [])
  {
    if a == [] {
      assert a + [e] == [e];
      assert [e][1..] == [];
    } else {
      assert (a + [e])[1..] == a[1..] + [e];
      TargetsSnoc(a[1..], e, kind, id);
    }
  }

  class Resolver {
    const store: Store
    var depth: Depths

    constructor (store: Store)
      requires Closed(store)
      ensures this.store == store && Valid()
      ensures forall u | u in store :: depth[u] == 0
    {
      this.store := store;
      depth := map u | u in store :: 0;
    }

    ghost predicate Valid()
      reads this
    {
      Ready(store, depth)
    }

    /** The first pass of steps 2 to 4 over one list. */
    method ScanSystem(es: seq<Entry>, sys: string)
      returns (exact: Option<Entry>, rewrite: Option<Entry>, haveDelegate: nat, haveNext: nat)
      ensures exact == FirstNamed(es, System, sys)
      ensures exact.None? ==> rewrite == BestRewrite(es, sys, None)
      ensures exact.None? ==> haveDelegate == |Delegates(es, DelegateSystem, sys)| && haveNext == |Nexts(es)|
    {
      exact, rewrite, haveDelegate, haveNext := None, None, 0, 0;
      var lenrewrite: nat := 0;
      for i := 0 to |es|
        invariant FirstNamed(es[..i], System, sys) == None
        invariant rewrite == BestRewrite(es[..i], sys, None) && lenrewrite == RewriteLength(rewrite)
        invariant haveDelegate == |Delegates(es[..i], DelegateSystem, sys)| && haveNext == |Nexts(es[..i])|
      {
        var cur := es[i];
        assert es[..i + 1] == es[..i] + [cur];
        FirstNamedSplit(es[..i], [cur], System, sys);
        RewriteSnoc(es[..i], cur, sys, None);
        TargetsSnoc(es[..i], cur, DelegateSystem, sys);
        match cur.kind
        case System =>
          if sys == cur.name {
            assert es == es[..i] + es[i..] && es[i..][0] == cur;
            FirstNamedSplit(es[..i], es[i..], System, sys);
            exact := Some(cur);
            return;
          }
        case RewriteSystem =>
          if |cur.name| > lenrewrite && HasPrefix(sys, cur.name) {
            lenrewrite := |cur.name|;
            rewrite := Some(cur);
          }
        case DelegateSystem =>
          if HasPrefix(sys, cur.name) {
            haveDelegate := haveDelegate + 1;
          }
        case NextCatalog =>
          haveNext := haveNext + 1;
        case _ =>
      }
      assert es[..|es|] == es;
    }

    /** The first pass of steps 5 and 6 over one list. */
    method ScanPublic(es: seq<Entry>, pub: string)
      returns (exact: Option<Entry>, haveDelegate: nat, haveNext: nat)
      ensures exact == FirstNamed(es, Public, pub)
      ensures exact.None? ==> haveDelegate == |Delegates(es, DelegatePublic, pub)| && haveNext == |Nexts(es)|
    {
      exact, haveDelegate, haveNext := None, 0, 0;
      for i := 0 to |es|
        invariant FirstNamed(es[..i], Public, pub) == None
        invariant haveDelegate == |Delegates(es[..i], DelegatePublic, pub)| && haveNext == |Nexts(es[..i])|
      {
        var cur := es[i];
        assert es[..i + 1] == es[..i] + [cur];
        FirstNamedSplit(es[..i], [cur], Public, pub);
        TargetsSnoc(es[..i], cur, DelegatePublic, pub);
        match cur.kind
        case Public =>
          if pub == cur.name {
            assert es == es[..i] + es[i..] && es[i..][0] == cur;
            FirstNamedSplit(es[..i], es[i..], Public, pub);
            exact := Some(cur);
            return;
          }
        case DelegatePublic =>
          if HasPrefix(pub, cur.name) && cur.preferPublic {
            haveDelegate := haveDelegate + 1;
          }
        case NextCatalog =>
          haveNext := haveNext + 1;
        case _ =>
      }
      assert es[..|es|] == es;
    }

    /** Steps 2 to 4 as far as one list decides them. */
    method DecideSystem(es: seq<Entry>, sys: string) returns (step: Option<Step>, haveNext: nat)
      ensures step == SystemStep(es, sys)
      ensures step.None? ==> haveNext == |Nexts(es)|
    {
      var exact, rewrite, haveDelegate, next := ScanSystem(es, sys);
      haveNext := next;
      if exact.Some? {
        step := Some(Answered(Found(exact.value.url)));
      } else if rewrite.Some? {
        BestRewriteIsLongest(es, sys, None);
        step := Some(Answered(Found(rewrite.value.url + sys[|rewrite.value.name|..])));
      } else if haveDelegate > 0 {
        step := Some(Delegate(Delegates(es, DelegateSystem, sys), None, Some(sys)));
      } else {
        step := None;
      }
    }

    /** Steps 5 and 6 as far as one list decides them. */
    method DecidePublic(es: seq<Entry>, pub: string) returns (step: Option<Step>, haveNext: nat)
      ensures step == PublicStep(es, pub)
      ensures step.None? ==> haveNext == |Nexts(es)|
    {
      var exact, haveDelegate, next := ScanPublic(es, pub);
      haveNext := next;
      if exact.Some? {
        step := Some(Answered(Found(exact.value.url)));
      } else if haveDelegate > 0 {
        step := Some(Delegate(Delegates(es, DelegatePublic, pub), Some(pub), None));
      } else {
        step := None;
      }
    }

    /** Steps 2 to 6 as far as one list decides them; `kind` and `id` say which
        delegates to try, `haveNext` whether there are next catalogs. */
    method Decide(es: seq<Entry>, pub: Option<string>, sys: Option<string>)
      returns (step: Option<Step>, kind: Kind, id: string, haveNext: nat)
      ensures kind == DelegateSystem || kind == DelegatePublic
      ensures step.Some? ==> step.value == Local(es, pub, sys) && !step.value.Continue?
      ensures step.Some? && step.value.Delegate? ==> step.value.urls == Delegates(es, kind, id)
      ensures step.None? && haveNext > 0 ==> Local(es, pub, sys) == Continue(Nexts(es))
      ensures step.None? && haveNext == 0 ==> Local(es, pub, sys) == Continue([]) || Local(es, pub, sys) == Answered(NotFound)
    {
      step, kind, id, haveNext := None, DelegateSystem, "", 0;
      if sys.Some? {
        step, haveNext := DecideSystem(es, sys.value);
        id := sys.value;
      }
      if step.None? && pub.Some? {
        step, haveNext := DecidePublic(es, pub.value);
        kind, id := DelegatePublic, pub.value;
      }
    }

    /** xmlCatalogXMLResolve. */
    method ResolveCatalog(u: Url, pub: Option<string>, sys: Option<string>) returns (ret: Answer)
      requires Valid() && u in store
      modifies this
      ensures Valid()
      ensures (ret, depth) == XmlResolve(store, old(depth), u, pub, sys)
      decreases Budget(depth), 0, 0, 0
    {
      if depth[u] > MAX_CATAL_DEPTH {
        return NotFound;
      }
      EnterSpends(depth, u);
      LocalTargets(store, u, pub, sys);
      depth := Enter(depth, u);
      assert Leave(depth, u) == old(depth);
      var step, kind, id, haveNext := Decide(store[u], pub, sys);
      if step.Some? {
        if step.value.Answered? {
          ret := step.value.a;
        } else {
          ret := TryDelegates(u, kind, id, step.value.pub, step.value.sys);
        }
        depth := Leave(depth, u);
      } else if haveNext > 0 {
        ret := TryNexts(u, pub, sys);
      } else {
        depth := Leave(depth, u);
        ret := NotFound;
      }
    }

    /** The delegate loop, with the bounded array of URLs already tried. */
    method TryDelegates(u: Url, kind: Kind, id: string, pub: Option<string>, sys: Option<string>)
      returns (ret: Answer)
      requires Valid() && u in store && (kind == DelegatePublic || kind == DelegateSystem)
      requires Within(store, Delegates(store[u], kind, id))
      modifies this
      ensures Valid()
      ensures (ret, depth) == DelegateLoop(store, old(depth), Delegates(store[u], kind, id), [], pub, sys)
      decreases Budget(depth), 3, 0, 0
    {
      var es := store[u];
      var delegates: seq<Url> := [];
      var i := 0;
      assert es[0..] == es;
      while i < |es|
        invariant i <= |es| && Valid() && |delegates| <= MAX_DELEGATE
        invariant Grown(old(depth), depth)
        invariant Within(store, Delegates(es[i..], kind, id))
        invariant DelegateLoop(store, depth, Delegates(es[i..], kind, id), delegates, pub, sys) ==
                  DelegateLoop(store, old(depth), Delegates(es, kind, id), [], pub, sys)
      {
        var cur := es[i];
        assert es[i..][0] == cur && es[i..][1..] == es[i + 1..];
        if DelegatesTo(cur, kind, id) {
          ghost var urls := Delegates(es[i..], kind, id);
          assert urls[0] == cur.url && urls[1..] == Delegates(es[i + 1..], kind, id);
          assert cur.url in urls;
          if cur.url !in delegates {
            if |delegates| < MAX_DELEGATE {
              delegates := delegates + [cur.url];
            }
            BudgetMono(old(depth), depth);
            ret := ResolveList([cur.url], pub, sys);
            if ret != NotFound {
              return;
            }
          }
        }
        i := i + 1;
      }
      assert es[i..] == [];
      ret := Break;
    }

    /** The next-catalog loop. */
    method TryNexts(u: Url, pub: Option<string>, sys: Option<string>) returns (ret: Answer)
      requires Valid() && u in store && depth[u] > 0
      requires Within(store, Nexts(store[u]))
      modifies this
      ensures Valid()
      ensures (ret, depth) == NextLoop(store, old(depth), u, Nexts(store[u]), pub, sys)
      decreases Budget(depth), 3, 0, 0
    {
      var es := store[u];
      var i := 0;
      assert es[0..] == es;
      while i < |es|
        invariant i <= |es| && Valid()
        invariant Grown(old(depth), depth)
        invariant Within(store, Nexts(es[i..]))
        invariant NextLoop(store, depth, u, Nexts(es[i..]), pub, sys) ==
                  NextLoop(store, old(depth), u, Nexts(es), pub, sys)
      {
        var cur := es[i];
        assert es[i..][0] == cur && es[i..][1..] == es[i + 1..];
        if cur.kind == NextCatalog {
          ghost var urls := Nexts(es[i..]);
          assert urls[0] == cur.url && urls[1..] == Nexts(es[i + 1..]);
          assert cur.url in urls;
          BudgetMono(old(depth), depth);
          ret := ResolveList([cur.url], pub, sys);
          if ret != NotFound {
            depth := Leave(depth, u);
            return;
          } else if depth[u] > MAX_CATAL_DEPTH {
            return;
          }
        }
        i := i + 1;
      }
      assert es[i..] == [];
      depth := Leave(depth, u);
      ret := NotFound;
    }

    /** xmlCatalogListXMLResolve. */
    method ResolveList(cats: seq<Url>, pub: Option<string>, sys: Option<string>) returns (ret: Answer)
      requires Valid() && Within(store, cats)
      modifies this
      ensures Valid()
      ensures (ret, depth) == ListResolve(store, old(depth), cats, pub, sys)
      decreases Budget(depth), 2, IdWeight(pub) + IdWeight(sys), 1
    {
      if cats == [] || (pub.None? && sys.None?) {
        return NotFound;
      }
      var norm := pub;
      if pub.Some? {
        var normid := NormalizePublic(pub.value);
        if normid.Some? {
          norm := if normid.value != "" then normid else None;
        } else {
          ScanMeansNormal(pub.value);
        }
      }
      assert norm == NormalId(pub);
      if norm.Some? && HasPrefix(norm.value, URN_PUBID) {
        var urn := UnwrapURN(norm.value);
        UnwrapLosesWeight(norm.value);
        ret := ResolveList(cats, urn, sys);
        return;
      }
      if sys.Some? && HasPrefix(sys.value, URN_PUBID) {
        var urn := UnwrapURN(sys.value);
        UnwrapLosesWeight(sys.value);
        if norm.None? {
          ret := ResolveList(cats, urn, None);
        } else if norm == urn {
          ret := ResolveList(cats, norm, None);
        } else {
          ret := ResolveList(cats, norm, urn);
        }
        return;
      }
      ret := TryCatalogs(cats, norm, sys);
    }

    /** The loop over a list of catalogs. */
    method TryCatalogs(cats: seq<Url>, pub: Option<string>, sys: Option<string>) returns (ret: Answer)
      requires Valid() && Within(store, cats)
      modifies this
      ensures Valid()
      ensures (ret, depth) == ListLoop(store, old(depth), cats, pub, sys)
      decreases Budget(depth), 1, 0, 0
    {
      var i := 0;
      ret := NotFound;
      assert cats[0..] == cats;
      while i < |cats|
        invariant i <= |cats| && Valid() && ret == NotFound
        invariant Grown(old(depth), depth)
        invariant ListLoop(store, depth, cats[i..], pub, sys) == ListLoop(store, old(depth), cats, pub, sys)
      {
        assert cats[i..][0] == cats[i] && cats[i..][1..] == cats[i + 1..];
        if store[cats[i]] != [] {
          BudgetMono(old(depth), depth);
          ret := ResolveCatalog(cats[i], pub, sys);
          if ret != NotFound {
            return;
          } else if depth[cats[i]] > MAX_CATAL_DEPTH {
            return;
          }
        }
        i := i + 1;
      }
      assert cats[i..] == [];
    }
  }
}
