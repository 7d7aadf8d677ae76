/** What resolution leaves behind on a cyclic catalog graph. */
module CatalogCycle {

  import opened Optional
  import opened CatalogUrn
  import opened CatalogLocal
  import opened CatalogResolve

  /** Identifiers that neither normalization nor unwrapping changes. */
  predicate Settled(pub: Option<string>, sys: Option<string>) {
    NormalId(pub) == pub && !IsUrn(pub) && !IsUrn(sys)
  }

  // -------------------------------------------------- cycles of next catalogs

  /** The list of `u` does not decide the identifiers, and its first next catalog is `v`. */
  predicate LeadsTo(store: Store, u: Url, v: Url, pub: Option<string>, sys: Option<string>) {
    u in store && Local(store[u], pub, sys).Continue?
    && Local(store[u], pub, sys).nexts != [] && Local(store[u], pub, sys).nexts[0] == v
  }

  function After(c: seq<Url>, i: nat): Url
    requires i < |c|
  {
    if i + 1 == |c| then c[0] else c[i + 1]
  }

  /** Different catalogs of which each leads to the next and the last to the first. */
  ghost predicate Ring(store: Store, c: seq<Url>, pub: Option<string>, sys: Option<string>) {
    && c != [] && (forall i, j | 0 <= i < j < |c| :: c[i] != c[j])
    && (pub.Some? || sys.Some?) && Settled(pub, sys)
    && forall i | 0 <= i < |c| :: LeadsTo(store, c[i], After(c, i), pub, sys)
  }

  /** The counters when the walk around the ring has come to `i` for another time. */
  ghost predicate Counts(depth: Depths, c: seq<Url>, i: nat, r: nat) {
    forall j | 0 <= j < |c| :: c[j] in depth && depth[c[j]] == if j < i then r + 1 else r
  }

  /** Every list of the ring has used up its counter, the others are as they were. */
  function Stuck(depth: Depths, c: seq<Url>): Depths {
    map u | u in depth :: if u in c then MAX_CATAL_DEPTH + 1 else depth[u]
  }

  /** One step of the walk: the limit hit underneath, `u` keeps its counter. */
  lemma RingStep(store: Store, depth: Depths, u: Url, v: Url, stuck: Depths, pub: Option<string>, sys: Option<string>)
    requires Ready(store, depth) && LeadsTo(store, u, v, pub, sys) && v in store && store[v] != []
    requires (pub.Some? || sys.Some?) && Settled(pub, sys)
    requires depth[u] <= MAX_CATAL_DEPTH && Ready(store, stuck)
    requires XmlResolve(store, Enter(depth, u), v, pub, sys) == (NotFound, stuck)
    requires stuck[u] > MAX_CATAL_DEPTH && stuck[v] > MAX_CATAL_DEPTH
    ensures XmlResolve(store, depth, u, pub, sys) == (NotFound, stuck)
  {
    var d := Enter(depth, u);
    LocalTargets(store, u, pub, sys);
    assert ListLoop(store, d, [v], pub, sys) == (NotFound, stuck);
    assert ListResolve(store, d, [v], pub, sys) == (NotFound, stuck);
    assert NextLoop(store, d, u, Local(store[u], pub, sys).nexts, pub, sys) == (NotFound, stuck);
  }

  lemma RingAt(store: Store, c: seq<Url>, i: nat, pub: Option<string>, sys: Option<string>)
    requires Ring(store, c, pub, sys) && i < |c|
    ensures LeadsTo(store, c[i], After(c, i), pub, sys) && store[c[i]] != []
    ensures (pub.Some? || sys.Some?) && Settled(pub, sys)
  {
  }

  /** Entering the list at `i` brings the walk to the next one. */
  lemma NextCounts(depth: Depths, c: seq<Url>, i: nat, r: nat)
    requires i < |c| && Counts(depth, c, i, r) && forall j, k | 0 <= j < k < |c| :: c[j] != c[k]
    ensures Counts(Enter(depth, c[i]), c, if i + 1 == |c| then 0 else i + 1, if i + 1 == |c| then r + 1 else r)
    ensures Stuck(Enter(depth, c[i]), c) == Stuck(depth, c)
  {
    forall j | 0 <= j < |c|
      ensures c[j] in depth && Enter(depth, c[i])[c[j]] == if j <= i then r + 1 else r
    {
      assert j < i ==> c[j] != c[i];
      assert i < j ==> c[i] != c[j];
    }
    assert c[i] in c;
  }

  /** One fruitless lookup walks the ring until every counter is used up, never tries
      another next catalog, and gives no counter back. */
  lemma {:induction false} RingSticks(store: Store, c: seq<Url>, depth: Depths, i: nat, r: nat,
                                      pub: Option<string>, sys: Option<string>)
    requires Ready(store, depth) && Ring(store, c, pub, sys)
    requires i < |c| && Counts(depth, c, i, r) && r <= if i == 0 then MAX_CATAL_DEPTH + 1 else MAX_CATAL_DEPTH
    ensures c[i] in store && XmlResolve(store, depth, c[i], pub, sys) == (NotFound, Stuck(depth, c))
    decreases MAX_CATAL_DEPTH + 1 - r, |c| - i
  {
    RingAt(store, c, i, pub, sys);
    if r > MAX_CATAL_DEPTH {
      UsedUp(depth, c);
    } else {
      var next := if i + 1 == |c| then 0 else i + 1;
      NextCounts(depth, c, i, r);
      RingAt(store, c, next, pub, sys);
      RingSticks(store, c, Enter(depth, c[i]), next, if i + 1 == |c| then r + 1 else r, pub, sys);
      StuckIs(depth, c, i);
      StuckIs(depth, c, next);
      RingStep(store, depth, c[i], c[next], Stuck(depth, c), pub, sys);
    }
  }

  lemma UsedUp(depth: Depths, c: seq<Url>)
    requires Counts(depth, c, 0, MAX_CATAL_DEPTH + 1)
    ensures Stuck(depth, c) == depth
  {
  }

  lemma StuckIs(depth: Depths, c: seq<Url>, i: nat)
    requires i < |c| && c[i] in depth
    ensures Stuck(depth, c).Keys == depth.Keys && Stuck(depth, c)[c[i]] == MAX_CATAL_DEPTH + 1
  {
    assert c[i] in c;
  }

  /** From there no list of the ring answers anything, whatever the identifiers. */
  lemma {:induction false} StuckAnswersNothing(store: Store, c: seq<Url>, depth: Depths, u: Url,
                                               pub: Option<string>, sys: Option<string>)
    requires Ready(store, depth) && u in c && u in store && depth[u] > MAX_CATAL_DEPTH
    ensures ListResolve(store, depth, [u], pub, sys) == (NotFound, depth)
    decreases IdWeight(pub) + IdWeight(sys)
  {
    var norm := NormalId(pub);
    var urn := UnwrapIds(norm, sys);
    if (pub.Some? || sys.Some?) && urn.Some? {
      StuckAnswersNothing(store, c, depth, u, urn.value.0, urn.value.1);
    } else if pub.Some? || sys.Some? {
      assert ListLoop(store, depth, [u], norm, sys) == (NotFound, depth);
    }
  }

  /** In one: from unused counters, a fruitless lookup on a list of the ring leaves all of
      them at the limit, and no later lookup on any of them finds anything. */
  lemma RingDisablesCatalogs(store: Store, c: seq<Url>, depth: Depths, i: nat, j: nat, pub: Option<string>, sys: Option<string>,
                             pub': Option<string>, sys': Option<string>)
    requires Ready(store, depth) && Ring(store, c, pub, sys) && Counts(depth, c, 0, 0) && i < |c| && j < |c|
    ensures c[i] in store && c[j] in store
    ensures ListResolve(store, depth, [c[i]], pub, sys) == (NotFound, Stuck(depth, c))
    ensures ListResolve(store, Stuck(depth, c), [c[j]], pub', sys') == (NotFound, Stuck(depth, c))
  {
    RingAt(store, c, i, pub, sys);
    RingAt(store, c, j, pub, sys);
    EnteredAnywhere(store, c, depth, i, pub, sys);
    StuckIs(depth, c, i);
    OneList(store, depth, c[i], Stuck(depth, c), pub, sys);
    StuckIs(depth, c, j);
    StuckAnswersNothing(store, c, Stuck(depth, c), c[j], pub', sys');
  }

  lemma OneList(store: Store, depth: Depths, u: Url, d: Depths, pub: Option<string>, sys: Option<string>)
    requires Ready(store, depth) && u in store && store[u] != []
    requires (pub.Some? || sys.Some?) && Settled(pub, sys)
    requires XmlResolve(store, depth, u, pub, sys) == (NotFound, d) && u in d && d[u] > MAX_CATAL_DEPTH
    ensures ListResolve(store, depth, [u], pub, sys) == (NotFound, d)
  {
    assert ListLoop(store, depth, [u], pub, sys) == (NotFound, d);
  }

  /** Place `j` of the ring turned by `i`. */
  function Place(n: nat, i: nat, j: nat): nat
    requires i < n && j < n
  {
    if j < n - i then i + j else j - (n - i)
  }

  function Turn(c: seq<Url>, i: nat): (t: seq<Url>)
    requires i < |c|
    ensures |t| == |c| && forall j | 0 <= j < |t| :: t[j] == c[Place(|c|, i, j)]
  {
    c[i..] + c[..i]
  }

  lemma TurnMembers(c: seq<Url>, i: nat)
    requires i < |c|
    ensures forall u :: u in Turn(c, i) <==> u in c
  {
    assert c == c[..i] + c[i..];
  }

  lemma TurnedAfter(c: seq<Url>, i: nat, j: nat)
    requires i < |c| && j < |c|
    ensures After(Turn(c, i), j) == After(c, Place(|c|, i, j))
  {
  }

  lemma TurnedDistinct(c: seq<Url>, i: nat)
    requires i < |c| && forall j, k | 0 <= j < k < |c| :: c[j] != c[k]
    ensures var t := Turn(c, i); forall j, k | 0 <= j < k < |t| :: t[j] != t[k]
  {
    forall j, k | 0 <= j < k < |c|
      ensures Turn(c, i)[j] != Turn(c, i)[k]
    {
      var p, q := Place(|c|, i, j), Place(|c|, i, k);
      assert p < q ==> c[p] != c[q];
      assert q < p ==> c[q] != c[p];
    }
  }

  lemma TurnedLeads(store: Store, c: seq<Url>, i: nat, j: nat, pub: Option<string>, sys: Option<string>)
    requires Ring(store, c, pub, sys) && i < |c| && j < |c|
    ensures LeadsTo(store, Turn(c, i)[j], After(Turn(c, i), j), pub, sys)
  {
    RingAt(store, c, Place(|c|, i, j), pub, sys);
    TurnedAfter(c, i, j);
  }

  lemma TurnedRing(store: Store, c: seq<Url>, i: nat, pub: Option<string>, sys: Option<string>)
    requires Ring(store, c, pub, sys) && i < |c|
    ensures Ring(store, Turn(c, i), pub, sys)
  {
    var t := Turn(c, i);
    TurnedDistinct(c, i);
    forall j | 0 <= j < |t|
      ensures LeadsTo(store, t[j], After(t, j), pub, sys)
    {
      TurnedLeads(store, c, i, j, pub, sys);
    }
  }

  lemma EnteredAnywhere(store: Store, c: seq<Url>, depth: Depths, i: nat, pub: Option<string>, sys: Option<string>)
    requires Ready(store, depth) && Ring(store, c, pub, sys) && Counts(depth, c, 0, 0) && i < |c|
    ensures c[i] in store && XmlResolve(store, depth, c[i], pub, sys) == (NotFound, Stuck(depth, c))
  {
    var t := Turn(c, i);
    TurnedRing(store, c, i, pub, sys);
    TurnMembers(c, i);
    assert Stuck(depth, t) == Stuck(depth, c);
    assert Counts(depth, t, 0, 0);
    RingSticks(store, t, depth, 0, 0, pub, sys);
    assert t[0] == c[i];
  }

  // --------------------------------------------------- delegates only: nothing sticks

  /** The identifiers are answered, delegated, or there is no next catalog to try. */
  predicate Settles(es: seq<Entry>, pub: Option<string>, sys: Option<string>) {
    Local(es, pub, sys).Continue? ==> Local(es, pub, sys).nexts == []
  }

  /** The same for what is left of the identifiers after delegation. */
  predicate OnlyDelegates(es: seq<Entry>, pub: Option<string>, sys: Option<string>) {
    Settles(es, pub, sys) && Settles(es, pub, None) && Settles(es, None, sys)
  }

  ghost predicate NoNext(store: Store, pub: Option<string>, sys: Option<string>) {
    Settled(pub, sys) && forall u | u in store :: OnlyDelegates(store[u], pub, sys)
  }

  /** Where no list needs a next catalog every counter is given back, on every graph,
      cycles of delegates included. */
  lemma {:induction false} DelegatesRestore(store: Store, depth: Depths, cats: seq<Url>, pub: Option<string>, sys: Option<string>)
    requires Ready(store, depth) && Within(store, cats) && NoNext(store, pub, sys)
    ensures ListResolve(store, depth, cats, pub, sys).1 == depth
    decreases Budget(depth), 2, 0
  {
    ListRestores(store, depth, cats, pub, sys);
  }

  lemma {:induction false} ListRestores(store: Store, depth: Depths, cats: seq<Url>, pub: Option<string>, sys: Option<string>)
    requires Ready(store, depth) && Within(store, cats) && NoNext(store, pub, sys)
    ensures ListLoop(store, depth, cats, pub, sys).1 == depth
    decreases Budget(depth), 1, |cats|
  {
    if cats != [] {
      ListRestores(store, depth, cats[1..], pub, sys);
      if store[cats[0]] != [] {
        CatalogRestores(store, depth, cats[0], pub, sys);
      }
    }
  }

  lemma DelegatedIds(es: seq<Entry>, pub: Option<string>, sys: Option<string>)
    ensures var step := Local(es, pub, sys);
      step.Delegate? ==> (step.pub, step.sys) == (pub, None) || (step.pub, step.sys) == (None, sys)
  {
  }

  lemma NoNextPart(store: Store, pub: Option<string>, sys: Option<string>)
    requires NoNext(store, pub, sys)
    ensures NoNext(store, pub, None) && NoNext(store, None, sys)
  {
    forall u | u in store
      ensures OnlyDelegates(store[u], pub, None) && OnlyDelegates(store[u], None, sys)
    {
      assert OnlyDelegates(store[u], pub, sys);
      assert Local(store[u], None, None) == Answered(NotFound);
    }
  }

  lemma {:induction false} CatalogRestores(store: Store, depth: Depths, u: Url, pub: Option<string>, sys: Option<string>)
    requires Ready(store, depth) && u in store && NoNext(store, pub, sys)
    ensures XmlResolve(store, depth, u, pub, sys).1 == depth
    decreases Budget(depth), 0, 0
  {
    if depth[u] <= MAX_CATAL_DEPTH {
      var d := Enter(depth, u);
      EnterSpends(depth, u);
      assert Leave(d, u) == depth;
      assert OnlyDelegates(store[u], pub, sys);
      LocalTargets(store, u, pub, sys);
      match Local(store[u], pub, sys)
      case Answered(_) =>
      case Delegate(urls, pub', sys') =>
        DelegatedIds(store[u], pub, sys);
        NoNextPart(store, pub, sys);
        LoopRestores(store, d, urls, [], pub', sys');
      case Continue(urls) =>
    }
  }

  lemma {:induction false} LoopRestores(store: Store, depth: Depths, urls: seq<Url>, tried: seq<Url>,
                                        pub: Option<string>, sys: Option<string>)
    requires Ready(store, depth) && Within(store, urls) && NoNext(store, pub, sys)
    ensures DelegateLoop(store, depth, urls, tried, pub, sys).1 == depth
    decreases Budget(depth), 3, |urls|
  {
    if urls != [] {
      assert urls[0] in urls;
      DelegatesRestore(store, depth, [urls[0]], pub, sys);
      var tried' := if |tried| < MAX_DELEGATE then tried + [urls[0]] else tried;
      LoopRestores(store, depth, urls[1..], if urls[0] in tried then tried else tried', pub, sys);
    }
  }

  // ------------------------------------------------------------------ a smallest ring

  /** A catalog that names itself as its next catalog and lists one public identifier. */
  function Loop(u: Url, id: string, uri: string): Store {
    map[u := [Entry(Public, id, uri, true), Entry(NextCatalog, "", u, true)]]
  }

  lemma LoopLocal(u: Url, id: string, uri: string, q: string)
    ensures Closed(Loop(u, id, uri))
    ensures Local(Loop(u, id, uri)[u], Some(q), None) == if q == id then Answered(Found(uri)) else Continue([u])
  {
    var es := Loop(u, id, uri)[u];
    assert es[1..] == [es[1]] && es[1..][1..] == [];
    assert Nexts(es[1..]) == [u] + Nexts(es[1..][1..]);
    assert FirstNamed(es[1..], Public, q) == FirstNamed(es[1..][1..], Public, q);
    assert Delegates(es[1..], DelegatePublic, q) == Delegates(es[1..][1..], DelegatePublic, q);
  }

  lemma NormalPlain(q: string)
    requires ScanNormal(q, true) && !HasPrefix(q, URN_PUBID)
    ensures NormalId(Some(q)) == Some(q) && UnwrapIds(Some(q), None) == None
  {
    ScanMeansNormal(q);
  }

  /** On a catalog that names itself, one lookup of an identifier it does not list makes
      it lose the one it lists, although that was found before. */
  lemma CycleDisablesCatalog(u: Url, id: string, uri: string, q: string)
    requires q != id && ScanNormal(q, true) && !HasPrefix(q, URN_PUBID)
    requires ScanNormal(id, true) && !HasPrefix(id, URN_PUBID)
    ensures var store := Loop(u, id, uri); var zero: Depths := map[u := 0];
            && Ready(store, zero)
            && ListResolve(store, zero, [u], Some(id), None) == (Found(uri), zero)
            && var (a, d) := ListResolve(store, zero, [u], Some(q), None);
            && a == NotFound && d == map[u := 51]
            && ListResolve(store, d, [u], Some(id), None).0 == NotFound
  {
    var store := Loop(u, id, uri);
    var zero: Depths := map[u := 0];
    LoopLocal(u, id, uri, id);
    LoopLocal(u, id, uri, q);
    NormalPlain(id);
    NormalPlain(q);
    assert Stuck(zero, [u]) == map[u := MAX_CATAL_DEPTH + 1];
    RingDisablesCatalogs(store, [u], zero, 0, 0, Some(q), None, Some(id), None);
    assert ListLoop(store, zero, [u], Some(id), None) == (Found(uri), zero) by {
      assert XmlResolve(store, zero, u, Some(id), None) == (Found(uri), zero);
    }
  }
}
