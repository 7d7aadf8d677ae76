/** What resolution answers on acyclic catalog graphs, with no counters, and why the
    counters never show there. */
module CatalogSpec {

  import opened Optional
  import opened CatalogUrn
  import opened CatalogLocal
  import opened CatalogOrder
  import opened CatalogResolve

  /** `rank` witnesses that no catalog can reach itself. */
  ghost predicate Ranked(store: Store, rank: map<Url, nat>) {
    && Closed(store) && rank.Keys == store.Keys
    && forall u, e | u in store && e in store[u] && Refers(e) :: rank[e.url] < rank[u]
  }

  ghost predicate Below(rank: map<Url, nat>, n: nat, urls: seq<Url>) {
    forall u | u in urls :: u in rank && rank[u] < n
  }

  /** The intended answer for a list of catalogs, with no counters.  A URN stands for a
      public identifier: on its own, or when it repeats the public identifier given, it
      is that one; beside another one it is the system identifier. */
  ghost function SpecList(order: Order, store: Store, rank: map<Url, nat>, n: nat, cats: seq<Url>,
                          pub: Option<string>, sys: Option<string>): Answer
    requires Ranked(store, rank) && Below(rank, n, cats)
    decreases n, 2, IdWeight(pub) + IdWeight(sys)
  {
    var norm := NormalId(pub);
    if IsUrn(norm) then
      UnwrapLosesWeight(norm.value);
      SpecList(order, store, rank, n, cats, Some(Unwrap(norm.value)), sys)
    else if IsUrn(sys) then
      var id := Unwrap(sys.value);
      UnwrapLosesWeight(sys.value);
      if norm.None? || norm.value == id then SpecList(order, store, rank, n, cats, Some(id), None)
      else SpecList(order, store, rank, n, cats, norm, Some(id))
    else SpecCats(order, store, rank, n, cats, norm, sys)
  }

  ghost function SpecCats(order: Order, store: Store, rank: map<Url, nat>, n: nat, cats: seq<Url>,
                          pub: Option<string>, sys: Option<string>): Answer
    requires Ranked(store, rank) && Below(rank, n, cats)
    decreases n, 1, |cats|
  {
    if cats == [] then NotFound
    else
      var a := SpecCatalog(order, store, rank, cats[0], pub, sys);
      if a != NotFound then a else SpecCats(order, store, rank, n, cats[1..], pub, sys)
  }

  /** One catalog: its own decision, then the delegates with the cut, or the next
      catalogs.  Section 7.1 is this with delegates by length. */
  ghost function SpecCatalog(order: Order, store: Store, rank: map<Url, nat>, u: Url,
                             pub: Option<string>, sys: Option<string>): Answer
    requires Ranked(store, rank) && u in store
    decreases rank[u], 4, 0
  {
    RankedTargets(order, store, rank, u, pub, sys);
    match StepIn(order, store[u], pub, sys)
    case Answered(a) => a
    case Delegate(urls, pub', sys') =>
      var a := SpecFirst(order, store, rank, rank[u], urls, pub', sys');
      if a == NotFound then Break else a
    case Continue(urls) => SpecFirst(order, store, rank, rank[u], urls, pub, sys)
  }

  /** The first catalog of `urls` that has an answer; no URL is skipped. */
  ghost function SpecFirst(order: Order, store: Store, rank: map<Url, nat>, n: nat, urls: seq<Url>,
                           pub: Option<string>, sys: Option<string>): Answer
    requires Ranked(store, rank) && Below(rank, n, urls)
    decreases n, 3, |urls|
  {
    if urls == [] then NotFound
    else
      var a := SpecList(order, store, rank, n, [urls[0]], pub, sys);
      if a != NotFound then a else SpecFirst(order, store, rank, n, urls[1..], pub, sys)
  }

  lemma {:induction false} TargetsBelow(es: seq<Entry>, kind: Kind, id: string, rank: map<Url, nat>, n: nat)
    requires kind == DelegatePublic || kind == DelegateSystem
    requires forall e | e in es && Refers(e) :: e.url in rank && rank[e.url] < n
    ensures Below(rank, n, Delegates(es, kind, id)) && Below(rank, n, Nexts(es))
  {
    if es != [] {
      assert es[0] in es;
      assert forall e | e in es[1..] :: e in es;
      TargetsBelow(es[1..], kind, id, rank, n);
    }
  }

  lemma RankedTargets(order: Order, store: Store, rank: map<Url, nat>, u: Url, pub: Option<string>, sys: Option<string>)
    requires Ranked(store, rank) && u in store
    ensures Below(rank, rank[u], Targets(StepIn(order, store[u], pub, sys)))
  {
    StepTargets(order, store[u], pub, sys);
    TargetsBelow(store[u], DelegateSystem, if sys.Some? then sys.value else "", rank, rank[u]);
    TargetsBelow(store[u], DelegatePublic, if pub.Some? then pub.value else "", rank, rank[u]);
  }

  /** The lists are in the given order: any list as listed, and by length those that put
      the longer of two comparable start strings first. */
  ghost predicate Follows(order: Order, store: Store) {
    order.ByLength? ==> forall u | u in store :: InOrder(store[u])
  }

  /** Counters of all catalogs below rank `n` are far enough from the limit. */
  ghost predicate Fresh(depth: Depths, rank: map<Url, nat>, n: nat) {
    forall u | u in depth && u in rank && rank[u] < n :: depth[u] < MAX_CATAL_DEPTH
  }

  /** Main result on acyclic graphs: the limit never fires, every counter is given
      back, and the answer is the intended one: with delegates as listed in any case,
      and that of section 7.1 where the lists are ordered. */
  lemma {:induction false} ListAgrees(order: Order, store: Store, rank: map<Url, nat>, n: nat, depth: Depths, cats: seq<Url>,
                                      pub: Option<string>, sys: Option<string>)
    requires Follows(order, store) && Ranked(store, rank) && Ready(store, depth) && Within(store, cats)
    requires Below(rank, n, cats) && Fresh(depth, rank, n)
    ensures ListResolve(store, depth, cats, pub, sys) == (SpecList(order, store, rank, n, cats, pub, sys), depth)
    decreases n, 2, IdWeight(pub) + IdWeight(sys)
  {
    var norm := NormalId(pub);
    var urn := UnwrapIds(norm, sys);
    if pub.None? && sys.None? {
      NoIdNoAnswer(order, store, rank, n, cats);
    } else if urn.Some? {
      ListAgrees(order, store, rank, n, depth, cats, urn.value.0, urn.value.1);
      if cats == [] {
        EmptyList(order, store, rank, n, urn.value.0, urn.value.1);
      }
    } else {
      CatsAgree(order, store, rank, n, depth, cats, norm, sys);
    }
  }

  lemma {:induction false} EmptyList(order: Order, store: Store, rank: map<Url, nat>, n: nat, pub: Option<string>, sys: Option<string>)
    requires Ranked(store, rank)
    ensures SpecList(order, store, rank, n, [], pub, sys) == NotFound
    decreases IdWeight(pub) + IdWeight(sys)
  {
    var urn := UnwrapIds(NormalId(pub), sys);
    if urn.Some? {
      EmptyList(order, store, rank, n, urn.value.0, urn.value.1);
    }
  }

  lemma {:induction false} NoIdNoAnswer(order: Order, store: Store, rank: map<Url, nat>, n: nat, cats: seq<Url>)
    requires Ranked(store, rank) && Below(rank, n, cats)
    ensures SpecCats(order, store, rank, n, cats, None, None) == NotFound
  {
    if cats != [] {
      NoIdNoAnswer(order, store, rank, n, cats[1..]);
    }
  }

  lemma EmptyCatalog(order: Order, store: Store, rank: map<Url, nat>, u: Url, pub: Option<string>, sys: Option<string>)
    requires Ranked(store, rank) && u in store && store[u] == []
    ensures SpecCatalog(order, store, rank, u, pub, sys) == NotFound
  {
    var step := StepIn(order, store[u], pub, sys);
    assert step == Answered(NotFound) || step == Continue([]);
  }

  lemma {:induction false} CatsAgree(order: Order, store: Store, rank: map<Url, nat>, n: nat, depth: Depths, cats: seq<Url>,
                                     pub: Option<string>, sys: Option<string>)
    requires Follows(order, store) && Ranked(store, rank) && Ready(store, depth) && Within(store, cats)
    requires Below(rank, n, cats) && Fresh(depth, rank, n)
    ensures ListLoop(store, depth, cats, pub, sys) == (SpecCats(order, store, rank, n, cats, pub, sys), depth)
    decreases n, 1, |cats|
  {
    if cats != [] {
      assert cats[0] in cats;
      CatsAgree(order, store, rank, n, depth, cats[1..], pub, sys);
      if store[cats[0]] == [] {
        EmptyCatalog(order, store, rank, cats[0], pub, sys);
      } else {
        CatalogAgrees(order, store, rank, depth, cats[0], pub, sys);
      }
    }
  }

  lemma {:induction false} CatalogAgrees(order: Order, store: Store, rank: map<Url, nat>, depth: Depths, u: Url,
                                         pub: Option<string>, sys: Option<string>)
    requires Follows(order, store) && Ranked(store, rank) && Ready(store, depth) && u in store
    requires Fresh(depth, rank, rank[u]) && depth[u] < MAX_CATAL_DEPTH
    ensures XmlResolve(store, depth, u, pub, sys) == (SpecCatalog(order, store, rank, u, pub, sys), depth)
    decreases rank[u], 4, 0
  {
    var d := Enter(depth, u);
    assert Leave(d, u) == depth;
    RankedTargets(order, store, rank, u, pub, sys);
    LocalTargets(store, u, pub, sys);
    StepInOrder(store[u], pub, sys);
    match Local(store[u], pub, sys)
    case Answered(_) =>
    case Delegate(urls, pub', sys') =>
      DelegatesAgree(order, store, rank, rank[u], d, urls, [], pub', sys');
    case Continue(urls) =>
      NextsAgree(order, store, rank, d, u, urls, pub, sys);
  }

  /** Skipping a URL that was already tried never changes the answer. */
  lemma {:induction false} DelegatesAgree(order: Order, store: Store, rank: map<Url, nat>, n: nat, depth: Depths, urls: seq<Url>,
                                          tried: seq<Url>, pub: Option<string>, sys: Option<string>)
    requires Follows(order, store) && Ranked(store, rank) && Ready(store, depth) && Within(store, urls)
    requires Below(rank, n, urls) && Fresh(depth, rank, n)
    requires Below(rank, n, tried)
    requires forall t | t in tried :: SpecList(order, store, rank, n, [t], pub, sys) == NotFound
    ensures var a := SpecFirst(order, store, rank, n, urls, pub, sys);
            DelegateLoop(store, depth, urls, tried, pub, sys) == (if a == NotFound then Break else a, depth)
    decreases n, 3, |urls|
  {
    if urls != [] {
      assert urls[0] in urls;
      ListAgrees(order, store, rank, n, depth, [urls[0]], pub, sys);
      if urls[0] in tried {
        DelegatesAgree(order, store, rank, n, depth, urls[1..], tried, pub, sys);
      } else if SpecList(order, store, rank, n, [urls[0]], pub, sys) == NotFound {
        var tried' := if |tried| < MAX_DELEGATE then tried + [urls[0]] else tried;
        DelegatesAgree(order, store, rank, n, depth, urls[1..], tried', pub, sys);
      }
    }
  }

  lemma {:induction false} NextsAgree(order: Order, store: Store, rank: map<Url, nat>, depth: Depths, u: Url, urls: seq<Url>,
                                      pub: Option<string>, sys: Option<string>)
    requires Follows(order, store) && Ranked(store, rank) && Ready(store, depth) && u in store && Within(store, urls)
    requires Below(rank, rank[u], urls) && Fresh(depth, rank, rank[u])
    requires 0 < depth[u] <= MAX_CATAL_DEPTH
    ensures NextLoop(store, depth, u, urls, pub, sys) ==
            (SpecFirst(order, store, rank, rank[u], urls, pub, sys), Leave(depth, u))
    decreases rank[u], 3, |urls|
  {
    if urls != [] {
      assert urls[0] in urls;
      ListAgrees(order, store, rank, rank[u], depth, [urls[0]], pub, sys);
      NextsAgree(order, store, rank, depth, u, urls[1..], pub, sys);
    }
  }

  // -------------------------------------------------- an order that is not kept

  /** A list that delegates a start string and, after it, a longer one. */
  function Shadowing(a: Url, b: Url, c: Url, p: string, q: string, x: Url, y: Url): Store {
    map[a := [Entry(DelegateSystem, p, b, true), Entry(DelegateSystem, q, c, true)],
        b := [Entry(System, q, x, true)], c := [Entry(System, q, y, true)]]
  }

  lemma NamesOnly(u: Url, q: string, es: seq<Entry>)
    requires es == [Entry(System, q, u, true)]
    ensures Local(es, None, Some(q)) == Answered(Found(u))
  {
  }

  lemma DelegatesBoth(b: Url, c: Url, p: string, q: string, es: seq<Entry>)
    requires es == [Entry(DelegateSystem, p, b, true), Entry(DelegateSystem, q, c, true)]
    requires HasPrefix(q, p) && |p| < |q|
    ensures Local(es, None, Some(q)) == Delegate([b, c], None, Some(q))
    ensures StepIn(ByLength, es, None, Some(q)) == Delegate([c, b], None, Some(q))
  {
    var e, f := es[0], es[1];
    assert es[1..] == [f] && [f][1..] == [];
    assert q[..|q|] == q;
    assert FirstNamed([f], System, q) == FirstNamed([f][1..], System, q) == None;
    assert BestRewrite([f], q, None) == BestRewrite([f][1..], q, None) == None;
    assert Delegates([f], DelegateSystem, q) == [c] + Delegates([f][1..], DelegateSystem, q) == [c];
    assert Matching([f], DelegateSystem, q) == [f] + Matching([f][1..], DelegateSystem, q) == [f];
    assert LongestFirst([f]) == InsertLonger(f, LongestFirst([f][1..])) == [f];
    assert LongestFirst(es) == InsertLonger(e, [f]) == [f] + InsertLonger(e, [f][1..]) == [f, e];
    assert [f, e][1..] == [e] && [e][1..] == [];
    assert Urls([e]) == [b] + Urls([e][1..]) == [b];
    assert Urls([f, e]) == [c] + Urls([e]) == [c, b];
  }

  lemma ShadowingAnswers(a: Url, b: Url, c: Url, p: string, q: string, x: Url, y: Url, store: Store, rank: map<Url, nat>)
    requires a != b && a != c && b != c && HasPrefix(q, p) && |p| < |q| && !HasPrefix(q, URN_PUBID)
    requires store == Shadowing(a, b, c, p, q, x, y) && rank == map[a := 1, b := 0, c := 0]
    ensures Ranked(store, rank) && Below(rank, 2, [a]) && Within(store, [a])
    ensures SpecList(AsListed, store, rank, 2, [a], None, Some(q)) == Found(x)
    ensures SpecList(ByLength, store, rank, 2, [a], None, Some(q)) == Found(y)
  {
    assert Ranked(store, rank);
    DelegatesBoth(b, c, p, q, store[a]);
    NamesOnly(x, q, store[b]);
    NamesOnly(y, q, store[c]);
    AnswersDirectly(AsListed, store, rank, b, q, x);
    AnswersDirectly(ByLength, store, rank, c, q, y);
    DelegatesFirst(AsListed, store, rank, a, b, [b, c], q, x);
    DelegatesFirst(ByLength, store, rank, a, c, [c, b], q, y);
  }

  /** Section 7.1 answers from the delegate with the longer start string, the source from
      the one listed first. */
  lemma DelegateOrderMatters(a: Url, b: Url, c: Url, p: string, q: string, x: Url, y: Url)
    requires a != b && a != c && b != c && HasPrefix(q, p) && |p| < |q| && !HasPrefix(q, URN_PUBID)
    ensures var store := Shadowing(a, b, c, p, q, x, y);
            var rank := map[a := 1, b := 0, c := 0]; var depth: Depths := map[a := 0, b := 0, c := 0];
      && Ranked(store, rank) && Ready(store, depth) && Below(rank, 2, [a]) && Within(store, [a])
      && ListResolve(store, depth, [a], None, Some(q)).0 == Found(x)
      && SpecList(ByLength, store, rank, 2, [a], None, Some(q)) == Found(y)
  {
    var store, rank := Shadowing(a, b, c, p, q, x, y), map[a := 1, b := 0, c := 0];
    ShadowingAnswers(a, b, c, p, q, x, y, store, rank);
    ListAgrees(AsListed, store, rank, 2, map[a := 0, b := 0, c := 0], [a], None, Some(q));
  }

  lemma AnswersDirectly(order: Order, store: Store, rank: map<Url, nat>, u: Url, q: string, x: Url)
    requires Ranked(store, rank) && u in store && !HasPrefix(q, URN_PUBID)
    requires Local(store[u], None, Some(q)) == Answered(Found(x))
    ensures Below(rank, rank[u] + 1, [u])
    ensures SpecCatalog(order, store, rank, u, None, Some(q)) == Found(x)
  {
  }

  lemma DelegatesFirst(order: Order, store: Store, rank: map<Url, nat>, a: Url, u: Url, urls: seq<Url>, q: string, x: Url)
    requires Ranked(store, rank) && a in store && u in store && rank[a] < 2 && !HasPrefix(q, URN_PUBID)
    requires StepIn(order, store[a], None, Some(q)) == Delegate(urls, None, Some(q)) && urls != [] && urls[0] == u
    requires SpecCatalog(order, store, rank, u, None, Some(q)) == Found(x)
    ensures Below(rank, 2, [a]) && SpecList(order, store, rank, 2, [a], None, Some(q)) == Found(x)
  {
    RankedTargets(order, store, rank, a, None, Some(q));
    assert urls[0] in urls;
    assert SpecCats(order, store, rank, rank[a], [u], None, Some(q)) == Found(x);
    assert SpecList(order, store, rank, rank[a], [u], None, Some(q)) == Found(x);
    assert SpecFirst(order, store, rank, rank[a], urls, None, Some(q)) == Found(x);
    assert SpecCatalog(order, store, rank, a, None, Some(q)) == Found(x);
    assert SpecCats(order, store, rank, 2, [a], None, Some(q)) == Found(x);
  }
}
