/** When resolution gives every recursion counter back: exactly when the plain depth-first
    search through the next catalogs comes to an end. */
module CatalogWalk {

  import opened Optional
  import opened CatalogUrn
  import opened CatalogLocal
  import opened CatalogResolve
  import opened CatalogCycle

  // ------------------------------------------------- the search without counters

  /** Searches the lists in order, at most `n` next catalogs deep; `None` when that
      is not deep enough. */
  function Walk(store: Store, n: nat, cats: seq<Url>, pub: Option<string>, sys: Option<string>): (r: Option<Answer>)
    requires Closed(store) && Within(store, cats)
    decreases n, 1, |cats|
  {
    if cats == [] then Some(NotFound)
    else if store[cats[0]] == [] then Walk(store, n, cats[1..], pub, sys)
    else
      var a := Look(store, n, cats[0], pub, sys);
      if a == Some(NotFound) then Walk(store, n, cats[1..], pub, sys) else a
  }

  function Look(store: Store, n: nat, u: Url, pub: Option<string>, sys: Option<string>): (r: Option<Answer>)
    requires Closed(store) && u in store
    decreases n, 0, 0
  {
    match Local(store[u], pub, sys)
    case Answered(a) => Some(a)
    case Delegate(_, _, _) => None
    case Continue(nexts) =>
      LocalTargets(store, u, pub, sys);
      if n == 0 then None else Walk(store, n - 1, nexts, pub, sys)
  }

  /** No list hands the identifiers over to delegates. */
  ghost predicate Undelegated(store: Store, pub: Option<string>, sys: Option<string>) {
    forall u | u in store :: !Local(store[u], pub, sys).Delegate?
  }

  lemma {:induction false} LookMono(store: Store, n: nat, u: Url, pub: Option<string>, sys: Option<string>)
    requires Closed(store) && u in store && Look(store, n, u, pub, sys).Some?
    ensures Look(store, n + 1, u, pub, sys) == Look(store, n, u, pub, sys)
    decreases n, 0, 0
  {
    if Local(store[u], pub, sys).Continue? {
      LocalTargets(store, u, pub, sys);
      WalkMono(store, n - 1, Local(store[u], pub, sys).nexts, pub, sys);
    }
  }

  lemma {:induction false} WalkMono(store: Store, n: nat, cats: seq<Url>, pub: Option<string>, sys: Option<string>)
    requires Closed(store) && Within(store, cats) && Walk(store, n, cats, pub, sys).Some?
    ensures Walk(store, n + 1, cats, pub, sys) == Walk(store, n, cats, pub, sys)
    decreases n, 1, |cats|
  {
    if cats != [] {
      if store[cats[0]] != [] {
        LookMono(store, n, cats[0], pub, sys);
      }
      if store[cats[0]] == [] || Look(store, n, cats[0], pub, sys) == Some(NotFound) {
        WalkMono(store, n, cats[1..], pub, sys);
      }
    }
  }

  // ---------------------------------------------- as deep as there are catalogs

  function Ended(store: Store, n: nat, pub: Option<string>, sys: Option<string>): set<Url>
    requires Closed(store)
  {
    set u | u in store && Look(store, n, u, pub, sys).Some?
  }

  lemma {:induction false} SameWalk(store: Store, n: nat, cats: seq<Url>, pub: Option<string>, sys: Option<string>)
    requires Closed(store) && Within(store, cats) && Ended(store, n, pub, sys) == Ended(store, n + 1, pub, sys)
    ensures Walk(store, n + 1, cats, pub, sys) == Walk(store, n, cats, pub, sys)
    decreases |cats|
  {
    if cats != [] {
      assert cats[0] in Ended(store, n, pub, sys) <==> cats[0] in Ended(store, n + 1, pub, sys);
      if Look(store, n, cats[0], pub, sys).Some? {
        LookMono(store, n, cats[0], pub, sys);
      }
      SameWalk(store, n, cats[1..], pub, sys);
    }
  }

  lemma Stays(store: Store, n: nat, pub: Option<string>, sys: Option<string>)
    requires Closed(store) && Ended(store, n, pub, sys) == Ended(store, n + 1, pub, sys)
    ensures Ended(store, n + 1, pub, sys) == Ended(store, n + 2, pub, sys)
  {
    forall u | u in store
      ensures Look(store, n + 2, u, pub, sys) == Look(store, n + 1, u, pub, sys)
    {
      if Local(store[u], pub, sys).Continue? {
        LocalTargets(store, u, pub, sys);
        SameWalk(store, n, Local(store[u], pub, sys).nexts, pub, sys);
      }
    }
  }

  lemma EndedGrows(store: Store, n: nat, pub: Option<string>, sys: Option<string>)
    requires Closed(store)
    ensures Ended(store, n, pub, sys) <= Ended(store, n + 1, pub, sys)
  {
    forall u | u in Ended(store, n, pub, sys)
      ensures u in Ended(store, n + 1, pub, sys)
    {
      LookMono(store, n, u, pub, sys);
    }
  }

  lemma SubsetSize<T>(a: set<T>, b: set<T>)
    requires a <= b
    ensures |a| <= |b| && (|a| == |b| ==> a == b)
  {
    assert b == a + (b - a);
  }

  lemma {:induction false} Saturates(store: Store, n: nat, pub: Option<string>, sys: Option<string>)
    requires Closed(store)
    ensures |Ended(store, n, pub, sys)| >= n || Ended(store, n, pub, sys) == Ended(store, n + 1, pub, sys)
  {
    if n > 0 {
      Saturates(store, n - 1, pub, sys);
      var a, b := Ended(store, n - 1, pub, sys), Ended(store, n, pub, sys);
      if a == b {
        Stays(store, n - 1, pub, sys);
      } else {
        EndedGrows(store, n - 1, pub, sys);
        SubsetSize(a, b);
      }
    }
  }

  /** Searching deeper than there are catalogs finds nothing more. */
  lemma DeepEnough(store: Store, pub: Option<string>, sys: Option<string>)
    requires Closed(store)
    ensures Ended(store, |store|, pub, sys) == Ended(store, |store| + 1, pub, sys)
  {
    var n, all := |store|, store.Keys;
    var a := Ended(store, n, pub, sys);
    Saturates(store, n, pub, sys);
    EndedGrows(store, n, pub, sys);
    if |a| >= n {
      SubsetSize(a, all);
      assert |all| == n;
    }
  }

  lemma {:induction false} DeeperSame(store: Store, k: nat, cats: seq<Url>, pub: Option<string>, sys: Option<string>)
    requires Closed(store) && Within(store, cats)
    ensures Walk(store, |store| + k, cats, pub, sys) == Walk(store, |store|, cats, pub, sys)
    ensures Ended(store, |store| + k, pub, sys) == Ended(store, |store| + k + 1, pub, sys)
    decreases k
  {
    if k == 0 {
      DeepEnough(store, pub, sys);
    } else {
      DeeperSame(store, k - 1, cats, pub, sys);
      SameWalk(store, |store| + k - 1, cats, pub, sys);
      Stays(store, |store| + k - 1, pub, sys);
    }
  }

  /** The search comes to an end. */
  predicate Ends(store: Store, cats: seq<Url>, pub: Option<string>, sys: Option<string>)
    requires Closed(store) && Within(store, cats)
  {
    Walk(store, |store|, cats, pub, sys).Some?
  }

  /** No depth would make a difference. */
  lemma EndsAtAnyDepth(store: Store, n: nat, cats: seq<Url>, pub: Option<string>, sys: Option<string>)
    requires Closed(store) && Within(store, cats) && Walk(store, n, cats, pub, sys).Some?
    ensures Walk(store, |store|, cats, pub, sys) == Walk(store, n, cats, pub, sys)
  {
    if n >= |store| {
      DeeperSame(store, n - |store|, cats, pub, sys);
    } else {
      WalkMonoBy(store, n, |store| - n, cats, pub, sys);
    }
  }

  lemma {:induction false} WalkMonoBy(store: Store, n: nat, k: nat, cats: seq<Url>, pub: Option<string>, sys: Option<string>)
    requires Closed(store) && Within(store, cats) && Walk(store, n, cats, pub, sys).Some?
    ensures Walk(store, n + k, cats, pub, sys) == Walk(store, n, cats, pub, sys)
    decreases k
  {
    if k > 0 {
      WalkMonoBy(store, n, k - 1, cats, pub, sys);
      WalkMono(store, n + k - 1, cats, pub, sys);
    }
  }

  // ------------------------------------------------- where it ends, counters return

  /** No list where the search ends is near the limit. */
  ghost predicate Low(store: Store, n: nat, depth: Depths, pub: Option<string>, sys: Option<string>)
    requires Ready(store, depth)
  {
    forall v | v in store && Look(store, n, v, pub, sys).Some? :: depth[v] < MAX_CATAL_DEPTH
  }

  lemma LowBelow(store: Store, n: nat, depth: Depths, pub: Option<string>, sys: Option<string>)
    requires Ready(store, depth) && n > 0 && Low(store, n, depth, pub, sys)
    ensures Low(store, n - 1, depth, pub, sys)
  {
    forall v | v in store && Look(store, n - 1, v, pub, sys).Some?
      ensures depth[v] < MAX_CATAL_DEPTH
    {
      LookMono(store, n - 1, v, pub, sys);
    }
  }

  lemma LowInside(store: Store, n: nat, depth: Depths, u: Url, pub: Option<string>, sys: Option<string>)
    requires Ready(store, depth) && u in store && Low(store, n, depth, pub, sys) && Look(store, n, u, pub, sys).None?
    ensures Low(store, n, Enter(depth, u), pub, sys)
  {
  }

  lemma Entered(store: Store, depth: Depths, u: Url, pub: Option<string>, sys: Option<string>)
    requires Ready(store, depth) && u in store && depth[u] <= MAX_CATAL_DEPTH && Local(store[u], pub, sys).Continue?
    ensures var nexts := Local(store[u], pub, sys).nexts;
            && Within(store, nexts) && (pub.Some? || sys.Some?)
            && XmlResolve(store, depth, u, pub, sys) == NextLoop(store, Enter(depth, u), u, nexts, pub, sys)
  {
    LocalTargets(store, u, pub, sys);
  }

  lemma OneCatalog(store: Store, depth: Depths, v: Url, pub: Option<string>, sys: Option<string>)
    requires Ready(store, depth) && v in store
    ensures ListLoop(store, depth, [v], pub, sys) ==
            if store[v] == [] then (NotFound, depth) else XmlResolve(store, depth, v, pub, sys)
  {
    assert [v][1..] == [];
    NoCatalog(store, depth, pub, sys);
    if store[v] != [] {
      NoCatalog(store, XmlResolve(store, depth, v, pub, sys).1, pub, sys);
    }
  }

  lemma NoCatalog(store: Store, depth: Depths, pub: Option<string>, sys: Option<string>)
    requires Ready(store, depth)
    ensures ListLoop(store, depth, [], pub, sys) == (NotFound, depth)
  {
  }

  /** A next catalog is looked at as the list it names, the identifiers being settled. */
  lemma OneNext(store: Store, depth: Depths, v: Url, pub: Option<string>, sys: Option<string>)
    requires Ready(store, depth) && v in store && Settled(pub, sys) && (pub.Some? || sys.Some?)
    ensures ListResolve(store, depth, [v], pub, sys) ==
            if store[v] == [] then (NotFound, depth) else XmlResolve(store, depth, v, pub, sys)
  {
    SettledList(store, depth, [v], pub, sys);
    OneCatalog(store, depth, v, pub, sys);
  }

  lemma SettledList(store: Store, depth: Depths, cats: seq<Url>, pub: Option<string>, sys: Option<string>)
    requires Ready(store, depth) && Within(store, cats) && cats != [] && Settled(pub, sys) && (pub.Some? || sys.Some?)
    ensures ListResolve(store, depth, cats, pub, sys) == ListLoop(store, depth, cats, pub, sys)
  {
  }

  /** One next catalog tried, with what it answered. */
  lemma NextTried(store: Store, d: Depths, u: Url, urls: seq<Url>, pub: Option<string>, sys: Option<string>, a: Answer, d': Depths)
    requires Ready(store, d) && u in store && Within(store, urls) && d[u] > 0 && urls != []
    requires ListResolve(store, d, [urls[0]], pub, sys) == (a, d')
    ensures Grown(d, d') && Ready(store, d')
    ensures NextLoop(store, d, u, urls, pub, sys) ==
            if a != NotFound then (a, Leave(d', u))
            else if d'[u] > MAX_CATAL_DEPTH then (NotFound, d')
            else NextLoop(store, d', u, urls[1..], pub, sys)
  {
  }

  lemma CatalogTried(store: Store, depth: Depths, cats: seq<Url>, pub: Option<string>, sys: Option<string>, a: Answer, d: Depths)
    requires Ready(store, depth) && Within(store, cats) && cats != [] && store[cats[0]] != []
    requires XmlResolve(store, depth, cats[0], pub, sys) == (a, d)
    ensures Grown(depth, d) && Ready(store, d)
    ensures ListLoop(store, depth, cats, pub, sys) ==
            if a != NotFound || d[cats[0]] > MAX_CATAL_DEPTH then (a, d) else ListLoop(store, d, cats[1..], pub, sys)
  {
  }

  lemma {:induction false} LookResolves(store: Store, n: nat, depth: Depths, u: Url, pub: Option<string>, sys: Option<string>)
    requires Ready(store, depth) && u in store && Settled(pub, sys)
    requires Low(store, n, depth, pub, sys) && Look(store, n, u, pub, sys).Some?
    ensures XmlResolve(store, depth, u, pub, sys) == (Look(store, n, u, pub, sys).value, depth)
    decreases n, 0, 1
  {
    if n > 0 && Look(store, n - 1, u, pub, sys).Some? {
      LowBelow(store, n, depth, pub, sys);
      LookMono(store, n - 1, u, pub, sys);
      LookResolves(store, n - 1, depth, u, pub, sys);
    } else {
      LookedAt(store, n, depth, u, pub, sys);
      if Local(store[u], pub, sys).Continue? {
        NewLookResolves(store, n, depth, u, Local(store[u], pub, sys).nexts, pub, sys);
      }
    }
  }

  /** A list that is not entered again underneath. */
  lemma {:induction false} NewLookResolves(store: Store, n: nat, depth: Depths, u: Url, nexts: seq<Url>,
                                           pub: Option<string>, sys: Option<string>)
    requires Ready(store, depth) && u in store && Within(store, nexts) && Settled(pub, sys) && (pub.Some? || sys.Some?)
    requires n > 0 && Low(store, n, depth, pub, sys) && depth[u] < MAX_CATAL_DEPTH
    requires Look(store, n - 1, u, pub, sys).None? && Walk(store, n - 1, nexts, pub, sys).Some?
    ensures NextLoop(store, Enter(depth, u), u, nexts, pub, sys) == (Walk(store, n - 1, nexts, pub, sys).value, depth)
    decreases n, 0, 0
  {
    var d := Enter(depth, u);
    EnterLeave(store, depth, u);
    LowNext(store, n, depth, u, pub, sys);
    NextsResolve(store, n - 1, d, u, nexts, pub, sys);
  }

  lemma LowNext(store: Store, n: nat, depth: Depths, u: Url, pub: Option<string>, sys: Option<string>)
    requires Ready(store, depth) && u in store && n > 0 && Low(store, n, depth, pub, sys)
    requires Look(store, n - 1, u, pub, sys).None?
    ensures Ready(store, Enter(depth, u)) && Low(store, n - 1, Enter(depth, u), pub, sys)
  {
    LowBelow(store, n, depth, pub, sys);
    LowInside(store, n - 1, depth, u, pub, sys);
  }

  lemma EnterLeave(store: Store, depth: Depths, u: Url)
    requires Ready(store, depth) && u in store
    ensures var d := Enter(depth, u); Ready(store, d) && d[u] == depth[u] + 1 && Leave(d, u) == depth
  {
  }

  /** What looking and resolving have in common. */
  lemma LookedAt(store: Store, n: nat, depth: Depths, u: Url, pub: Option<string>, sys: Option<string>)
    requires Ready(store, depth) && u in store && depth[u] <= MAX_CATAL_DEPTH && Look(store, n, u, pub, sys).Some?
    ensures var step := Local(store[u], pub, sys);
            if step.Continue? then
              && n > 0 && Within(store, step.nexts) && (pub.Some? || sys.Some?)
              && Look(store, n, u, pub, sys) == Walk(store, n - 1, step.nexts, pub, sys)
              && XmlResolve(store, depth, u, pub, sys) == NextLoop(store, Enter(depth, u), u, step.nexts, pub, sys)
            else XmlResolve(store, depth, u, pub, sys) == (Look(store, n, u, pub, sys).value, depth)
  {
    LocalTargets(store, u, pub, sys);
  }

  lemma {:induction false} NextsResolve(store: Store, n: nat, d: Depths, u: Url, urls: seq<Url>,
                                        pub: Option<string>, sys: Option<string>)
    requires Ready(store, d) && u in store && Within(store, urls) && Settled(pub, sys) && (pub.Some? || sys.Some?)
    requires Low(store, n, d, pub, sys) && 0 < d[u] <= MAX_CATAL_DEPTH && Walk(store, n, urls, pub, sys).Some?
    ensures NextLoop(store, d, u, urls, pub, sys) == (Walk(store, n, urls, pub, sys).value, Leave(d, u))
    decreases n, 1, |urls|
  {
    if urls != [] {
      OneNext(store, d, urls[0], pub, sys);
      if store[urls[0]] != [] {
        LookResolves(store, n, d, urls[0], pub, sys);
      }
      NextTried(store, d, u, urls, pub, sys, ListResolve(store, d, [urls[0]], pub, sys).0, d);
      if store[urls[0]] == [] || Look(store, n, urls[0], pub, sys) == Some(NotFound) {
        NextsResolve(store, n, d, u, urls[1..], pub, sys);
      }
    }
  }

  lemma {:induction false} LoopResolves(store: Store, n: nat, depth: Depths, cats: seq<Url>, pub: Option<string>, sys: Option<string>)
    requires Ready(store, depth) && Within(store, cats) && Settled(pub, sys)
    requires Low(store, n, depth, pub, sys) && Walk(store, n, cats, pub, sys).Some?
    ensures ListLoop(store, depth, cats, pub, sys) == (Walk(store, n, cats, pub, sys).value, depth)
    decreases |cats|
  {
    if cats != [] {
      if store[cats[0]] != [] {
        LookResolves(store, n, depth, cats[0], pub, sys);
      }
      if store[cats[0]] == [] || Look(store, n, cats[0], pub, sys) == Some(NotFound) {
        LoopResolves(store, n, depth, cats[1..], pub, sys);
      }
    }
  }

  // --------------------------------------------- where it does not, one is lost

  ghost predicate Endless(store: Store, u: Url, pub: Option<string>, sys: Option<string>)
    requires Closed(store)
  {
    u in store && Look(store, |store|, u, pub, sys).None?
  }

  /** The list of `u` has `v` as its next catalog number `k`, and the ones before are
      searched to the end without success. */
  ghost predicate Goes(store: Store, u: Url, v: Url, k: nat, pub: Option<string>, sys: Option<string>)
    requires Closed(store) && u in store
  {
    LocalTargets(store, u, pub, sys);
    var step := Local(store[u], pub, sys);
    && step.Continue? && k < |step.nexts| && step.nexts[k] == v && v in store && store[v] != []
    && Walk(store, |store|, step.nexts[..k], pub, sys) == Some(NotFound)
  }

  ghost predicate GoesOn(store: Store, u: Url, v: Url, pub: Option<string>, sys: Option<string>)
    requires Closed(store) && u in store
  {
    exists k: nat :: Goes(store, u, v, k, pub, sys)
  }

  lemma {:induction false} FirstEndless(store: Store, urls: seq<Url>, pub: Option<string>, sys: Option<string>) returns (k: nat)
    requires Closed(store) && Within(store, urls) && Walk(store, |store|, urls, pub, sys).None?
    ensures k < |urls| && store[urls[k]] != [] && Endless(store, urls[k], pub, sys)
    ensures Walk(store, |store|, urls[..k], pub, sys) == Some(NotFound)
    decreases |urls|
  {
    if store[urls[0]] != [] && Look(store, |store|, urls[0], pub, sys).None? {
      k := 0;
    } else {
      var j := FirstEndless(store, urls[1..], pub, sys);
      k := j + 1;
      assert urls[..k][1..] == urls[1..][..j];
    }
  }

  lemma EndlessGoes(store: Store, u: Url, pub: Option<string>, sys: Option<string>) returns (v: Url, k: nat)
    requires Closed(store) && Undelegated(store, pub, sys) && Endless(store, u, pub, sys)
    ensures Goes(store, u, v, k, pub, sys) && Endless(store, v, pub, sys)
  {
    DeepEnough(store, pub, sys);
    LocalTargets(store, u, pub, sys);
    var nexts := Local(store[u], pub, sys).nexts;
    assert u !in Ended(store, |store| + 1, pub, sys);
    k := FirstEndless(store, nexts, pub, sys);
    v := nexts[k];
  }

  /** Fruitless next catalogs in front change nothing while the counter is below the limit. */
  lemma {:induction false} PassFruitless(store: Store, d: Depths, u: Url, urls: seq<Url>, k: nat, pub: Option<string>, sys: Option<string>)
    requires Ready(store, d) && u in store && Within(store, urls) && Settled(pub, sys) && (pub.Some? || sys.Some?)
    requires k <= |urls| && Walk(store, |store|, urls[..k], pub, sys) == Some(NotFound)
    requires Low(store, |store|, d, pub, sys) && 0 < d[u] && (k == 0 || d[u] <= MAX_CATAL_DEPTH)
    ensures NextLoop(store, d, u, urls, pub, sys) == NextLoop(store, d, u, urls[k..], pub, sys)
    decreases k
  {
    if k == 0 {
      assert urls[0..] == urls;
    } else {
      FirstFruitless(store, d, urls, k, pub, sys);
      RestFruitless(store, urls, k, pub, sys);
      NextTried(store, d, u, urls, pub, sys, NotFound, d);
      PassFruitless(store, d, u, urls[1..], k - 1, pub, sys);
      assert urls[1..][k - 1..] == urls[k..];
    }
  }

  lemma FirstFruitless(store: Store, d: Depths, urls: seq<Url>, k: nat, pub: Option<string>, sys: Option<string>)
    requires Ready(store, d) && Within(store, urls) && Settled(pub, sys) && (pub.Some? || sys.Some?)
    requires 0 < k <= |urls| && Walk(store, |store|, urls[..k], pub, sys) == Some(NotFound)
    requires Low(store, |store|, d, pub, sys)
    ensures ListResolve(store, d, [urls[0]], pub, sys) == (NotFound, d)
  {
    assert urls[..k][0] == urls[0];
    OneNext(store, d, urls[0], pub, sys);
    if store[urls[0]] != [] {
      LookResolves(store, |store|, d, urls[0], pub, sys);
    }
  }

  lemma RestFruitless(store: Store, urls: seq<Url>, k: nat, pub: Option<string>, sys: Option<string>)
    requires Closed(store) && Within(store, urls)
    requires 0 < k <= |urls| && Walk(store, |store|, urls[..k], pub, sys) == Some(NotFound)
    ensures Walk(store, |store|, urls[1..][..k - 1], pub, sys) == Some(NotFound)
  {
    assert urls[..k][1..] == urls[1..][..k - 1] && urls[..k][0] == urls[0];
  }

  /** A counter lost underneath stays lost, and so does that of a list that meets the
      limit in one of its next catalogs. */
  lemma LossRises(store: Store, depth: Depths, u: Url, v: Url, urls: seq<Url>, pub: Option<string>, sys: Option<string>)
    requires Ready(store, depth) && u in store && Within(store, urls) && urls != [] && urls[0] == v
    requires Settled(pub, sys) && (pub.Some? || sys.Some?) && store[v] != []
    requires var d := Enter(depth, u); var (a, d') := XmlResolve(store, d, v, pub, sys);
             d' != d || (a == NotFound && d[u] > MAX_CATAL_DEPTH)
    ensures NextLoop(store, Enter(depth, u), u, urls, pub, sys).1 != depth
  {
    var d := Enter(depth, u);
    var (a, d') := XmlResolve(store, d, v, pub, sys);
    OneNext(store, d, v, pub, sys);
    NextTried(store, d, u, urls, pub, sys, a, d');
    if d' != d {
      GrownNotSame(d, d', u);
    }
    if a == NotFound && d'[u] <= MAX_CATAL_DEPTH {
      GrownOn(depth, d, d', u, NextLoop(store, d', u, urls[1..], pub, sys).1);
    }
  }

  lemma GrownNotSame(d: Depths, d': Depths, u: Url)
    requires Grown(d, d') && d' != d && u in d && d[u] > 0
    ensures Leave(d', u) != Leave(d, u)
  {
    var w :| w in d && d'[w] > d[w];
    assert Leave(d', u)[w] > Leave(d, u)[w];
  }

  lemma GrownOn(depth: Depths, d: Depths, d': Depths, u: Url, r: Depths)
    requires u in depth && d == Enter(depth, u) && Grown(d, d') && d' != d && Grown(Leave(d', u), r)
    ensures r != depth
  {
    var w :| w in d && d'[w] > d[w];
    assert Leave(d', u)[w] > depth[w];
  }

  /** The limit met among the fruitless next catalogs: the counter stays as it is. */
  lemma LossBefore(store: Store, d: Depths, u: Url, urls: seq<Url>, k: nat, pub: Option<string>, sys: Option<string>)
    requires Ready(store, d) && u in store && Within(store, urls) && Settled(pub, sys) && (pub.Some? || sys.Some?)
    requires 0 < k <= |urls| && Walk(store, |store|, urls[..k], pub, sys) == Some(NotFound)
    requires Low(store, |store|, d, pub, sys) && d[u] > MAX_CATAL_DEPTH
    ensures NextLoop(store, d, u, urls, pub, sys) == (NotFound, d)
  {
    FirstFruitless(store, d, urls, k, pub, sys);
    NextTried(store, d, u, urls, pub, sys, NotFound, d);
  }

  /** One list on the way: what is lost in the next one, or the limit hit there, shows. */
  lemma StepLoses(store: Store, depth: Depths, u: Url, v: Url, k: nat, pub: Option<string>, sys: Option<string>)
    requires Ready(store, depth) && Settled(pub, sys) && Endless(store, u, pub, sys) && Goes(store, u, v, k, pub, sys)
    requires Low(store, |store|, depth, pub, sys) && depth[u] <= MAX_CATAL_DEPTH
    requires var d := Enter(depth, u); var (a, d') := XmlResolve(store, d, v, pub, sys);
             d' != d || (a == NotFound && d[u] > MAX_CATAL_DEPTH)
    ensures XmlResolve(store, depth, u, pub, sys).1 != depth
  {
    Entered(store, depth, u, pub, sys);
    LowInside(store, |store|, depth, u, pub, sys);
    NextsLose(store, depth, u, v, Local(store[u], pub, sys).nexts, k, pub, sys);
  }

  lemma NextsLose(store: Store, depth: Depths, u: Url, v: Url, nexts: seq<Url>, k: nat, pub: Option<string>, sys: Option<string>)
    requires Ready(store, depth) && u in store && Within(store, nexts) && Settled(pub, sys) && (pub.Some? || sys.Some?)
    requires k < |nexts| && nexts[k] == v && store[v] != []
    requires Walk(store, |store|, nexts[..k], pub, sys) == Some(NotFound)
    requires Low(store, |store|, Enter(depth, u), pub, sys) && depth[u] <= MAX_CATAL_DEPTH
    requires var d := Enter(depth, u); var (a, d') := XmlResolve(store, d, v, pub, sys);
             d' != d || (a == NotFound && d[u] > MAX_CATAL_DEPTH)
    ensures NextLoop(store, Enter(depth, u), u, nexts, pub, sys).1 != depth
  {
    var d := Enter(depth, u);
    if k > 0 && d[u] > MAX_CATAL_DEPTH {
      LossBefore(store, d, u, nexts, k, pub, sys);
      assert d[u] != depth[u];
    } else {
      PassFruitless(store, d, u, nexts, k, pub, sys);
      LossRises(store, depth, u, v, nexts[k..], pub, sys);
    }
  }

  // ------------------------------------------------------------ once around the ring

  /** Different endless lists of which each goes on to the next and the last to the first. */
  ghost predicate Circle(store: Store, c: seq<Url>, pub: Option<string>, sys: Option<string>)
    requires Closed(store)
  {
    && c != [] && (forall i, j | 0 <= i < j < |c| :: c[i] != c[j])
    && (forall i | 0 <= i < |c| :: Endless(store, c[i], pub, sys))
    && forall i | 0 <= i < |c| :: GoesOn(store, c[i], After(c, i), pub, sys)
  }

  lemma CircleAt(store: Store, c: seq<Url>, i: nat, pub: Option<string>, sys: Option<string>) returns (k: nat)
    requires Closed(store) && Circle(store, c, pub, sys) && i < |c|
    ensures Endless(store, c[i], pub, sys) && Goes(store, c[i], After(c, i), k, pub, sys)
  {
    k :| Goes(store, c[i], After(c, i), k, pub, sys);
  }

  /** Going around, some counter is lost at the latest when the limit is met. */
  lemma {:induction false} CircleLoses(store: Store, c: seq<Url>, depth: Depths, i: nat, r: nat, pub: Option<string>, sys: Option<string>)
    requires Ready(store, depth) && Settled(pub, sys) && Circle(store, c, pub, sys)
    requires i < |c| && Counts(depth, c, i, r) && r <= MAX_CATAL_DEPTH && Low(store, |store|, depth, pub, sys)
    ensures XmlResolve(store, depth, c[i], pub, sys).1 != depth
    decreases MAX_CATAL_DEPTH + 1 - r, |c| - i
  {
    var k := CircleAt(store, c, i, pub, sys);
    var next, r' := if i + 1 == |c| then 0 else i + 1, if i + 1 == |c| then r + 1 else r;
    NextCounts(depth, c, i, r);
    LowInside(store, |store|, depth, c[i], pub, sys);
    if r' <= MAX_CATAL_DEPTH {
      CircleLoses(store, c, Enter(depth, c[i]), next, r', pub, sys);
    } else {
      assert Enter(depth, c[i])[c[next]] == r' && Enter(depth, c[i])[c[i]] > MAX_CATAL_DEPTH;
    }
    StepLoses(store, depth, c[i], c[next], k, pub, sys);
  }

  // ------------------------------------------------------------- the way to the ring

  ghost predicate Distinct(p: seq<Url>) {
    forall i, j | 0 <= i < j < |p| :: p[i] != p[j]
  }

  /** Endless lists of which each goes on to the next. */
  ghost predicate Trail(store: Store, p: seq<Url>, pub: Option<string>, sys: Option<string>)
    requires Closed(store)
  {
    && p != []
    && (forall i | 0 <= i < |p| :: Endless(store, p[i], pub, sys))
    && (forall i | 0 <= i < |p| - 1 :: GoesOn(store, p[i], p[i + 1], pub, sys))
  }

  /** All lists of the trail but the last have been entered, and no others. */
  ghost predicate Walked(depth: Depths, p: seq<Url>)
    requires p != []
  {
    forall u | u in depth :: depth[u] == if u in p[..|p| - 1] then 1 else 0
  }

  lemma WalkedLow(store: Store, depth: Depths, p: seq<Url>, pub: Option<string>, sys: Option<string>)
    requires Ready(store, depth) && p != [] && Walked(depth, p)
    ensures Low(store, |store|, depth, pub, sys)
  {
  }

  lemma TrailAt(store: Store, p: seq<Url>, i: nat, pub: Option<string>, sys: Option<string>)
    requires Closed(store) && Trail(store, p, pub, sys) && i < |p|
    ensures Endless(store, p[i], pub, sys)
    ensures i < |p| - 1 ==> GoesOn(store, p[i], p[i + 1], pub, sys)
  {
  }

  lemma TrailLonger(store: Store, p: seq<Url>, v: Url, pub: Option<string>, sys: Option<string>)
    requires Closed(store) && Trail(store, p, pub, sys) && Endless(store, p[|p| - 1], pub, sys)
    requires GoesOn(store, p[|p| - 1], v, pub, sys) && Endless(store, v, pub, sys)
    ensures Trail(store, p + [v], pub, sys)
  {
    var q := p + [v];
    forall i | 0 <= i < |q|
      ensures Endless(store, q[i], pub, sys) && (i < |q| - 1 ==> GoesOn(store, q[i], q[i + 1], pub, sys))
    {
      if i < |p| {
        TrailAt(store, p, i, pub, sys);
      }
    }
  }

  lemma DistinctLonger(p: seq<Url>, v: Url)
    requires Distinct(p) && v !in p
    ensures Distinct(p + [v])
  {
  }

  lemma WalkedLonger(depth: Depths, p: seq<Url>, v: Url)
    requires p != [] && Distinct(p) && p[|p| - 1] in depth && Walked(depth, p)
    ensures Walked(Enter(depth, p[|p| - 1]), p + [v])
  {
    var before, u := p[..|p| - 1], p[|p| - 1];
    assert (p + [v])[..|p|] == p && p == before + [u];
    assert u !in before;
  }

  lemma TrailCloses(store: Store, p: seq<Url>, i: nat, pub: Option<string>, sys: Option<string>)
    requires Closed(store) && Trail(store, p, pub, sys) && Distinct(p) && i < |p|
    requires Endless(store, p[|p| - 1], pub, sys) && GoesOn(store, p[|p| - 1], p[i], pub, sys)
    ensures Circle(store, p[i..], pub, sys)
  {
    var c := p[i..];
    forall j | 0 <= j < |c|
      ensures Endless(store, c[j], pub, sys) && GoesOn(store, c[j], After(c, j), pub, sys)
    {
      TrailAt(store, p, i + j, pub, sys);
    }
  }

  lemma WalkedCounts(depth: Depths, p: seq<Url>, i: nat)
    requires i < |p| && Walked(depth, p) && Distinct(p) && forall u | u in p :: u in depth
    ensures Counts(depth, p[i..], |p| - i - 1, 0)
  {
    var c, before := p[i..], p[..|p| - 1];
    forall j | 0 <= j < |c|
      ensures c[j] in depth && depth[c[j]] == if j < |c| - 1 then 1 else 0
    {
      assert c[j] == p[i + j];
      assert j < |c| - 1 ==> before[i + j] == c[j];
    }
  }

  ghost function Members(p: seq<Url>): set<Url> {
    set u | u in p
  }

  lemma RoundLoses(store: Store, depth: Depths, p: seq<Url>, i: nat, pub: Option<string>, sys: Option<string>)
    requires Ready(store, depth) && Settled(pub, sys) && Trail(store, p, pub, sys) && Distinct(p) && Walked(depth, p)
    requires i < |p| && Endless(store, p[|p| - 1], pub, sys) && GoesOn(store, p[|p| - 1], p[i], pub, sys)
    ensures XmlResolve(store, depth, p[|p| - 1], pub, sys).1 != depth
  {
    forall u | u in p
      ensures u in depth
    {
      var j :| 0 <= j < |p| && p[j] == u;
      TrailAt(store, p, j, pub, sys);
    }
    TrailCloses(store, p, i, pub, sys);
    WalkedCounts(depth, p, i);
    WalkedLow(store, depth, p, pub, sys);
    CircleLoses(store, p[i..], depth, |p| - i - 1, 0, pub, sys);
  }

  /** From unused counters, an endless search loses one. */
  lemma {:induction false} TrailLoses(store: Store, depth: Depths, p: seq<Url>, pub: Option<string>, sys: Option<string>)
    requires Ready(store, depth) && Settled(pub, sys) && Undelegated(store, pub, sys)
    requires Trail(store, p, pub, sys) && Distinct(p) && Walked(depth, p)
    ensures p[|p| - 1] in store && XmlResolve(store, depth, p[|p| - 1], pub, sys).1 != depth
    decreases |store.Keys - Members(p)|
  {
    var u := p[|p| - 1];
    TrailAt(store, p, |p| - 1, pub, sys);
    var v, k := EndlessGoes(store, u, pub, sys);
    assert GoesOn(store, u, v, pub, sys);
    if v in p {
      var i :| 0 <= i < |p| && p[i] == v;
      RoundLoses(store, depth, p, i, pub, sys);
    } else {
      TrailLonger(store, p, v, pub, sys);
      DistinctLonger(p, v);
      WalkedLonger(depth, p, v);
      assert store.Keys - Members(p + [v]) == store.Keys - Members(p) - {v};
      TrailLoses(store, Enter(depth, u), p + [v], pub, sys);
      StepFromTrail(store, depth, p, v, k, pub, sys);
    }
  }

  lemma StepFromTrail(store: Store, depth: Depths, p: seq<Url>, v: Url, k: nat, pub: Option<string>, sys: Option<string>)
    requires Ready(store, depth) && Settled(pub, sys) && p != [] && Distinct(p) && Walked(depth, p)
    requires Endless(store, p[|p| - 1], pub, sys) && Goes(store, p[|p| - 1], v, k, pub, sys)
    requires XmlResolve(store, Enter(depth, p[|p| - 1]), v, pub, sys).1 != Enter(depth, p[|p| - 1])
    ensures XmlResolve(store, depth, p[|p| - 1], pub, sys).1 != depth
  {
    WalkedLow(store, depth, p, pub, sys);
    StepLoses(store, depth, p[|p| - 1], v, k, pub, sys);
  }

  // ------------------------------------------------------------------ the exact extent

  /** What repeated normalization and unwrapping make of the identifiers. */
  function Settle(pub: Option<string>, sys: Option<string>): (Option<string>, Option<string>)
    decreases IdWeight(pub) + IdWeight(sys)
  {
    var norm := NormalId(pub);
    var urn := UnwrapIds(norm, sys);
    if urn.Some? then Settle(urn.value.0, urn.value.1) else (norm, sys)
  }

  lemma {:induction false} SettleSettles(pub: Option<string>, sys: Option<string>)
    ensures Settled(Settle(pub, sys).0, Settle(pub, sys).1)
    decreases IdWeight(pub) + IdWeight(sys)
  {
    var norm := NormalId(pub);
    var urn := UnwrapIds(norm, sys);
    if urn.Some? {
      SettleSettles(urn.value.0, urn.value.1);
    } else if pub.Some? {
      NormalizeIdempotent(pub.value);
    }
  }

  lemma {:induction false} NoIdLoop(store: Store, depth: Depths, cats: seq<Url>)
    requires Ready(store, depth) && Within(store, cats)
    ensures ListLoop(store, depth, cats, None, None) == (NotFound, depth)
    decreases |cats|
  {
    if cats != [] {
      NoIdLoop(store, depth, cats[1..]);
    }
  }

  lemma {:induction false} SettledLookup(store: Store, depth: Depths, cats: seq<Url>, pub: Option<string>, sys: Option<string>)
    requires Ready(store, depth) && Within(store, cats)
    ensures var ids := Settle(pub, sys);
            ListResolve(store, depth, cats, pub, sys) == ListLoop(store, depth, cats, ids.0, ids.1)
    decreases IdWeight(pub) + IdWeight(sys)
  {
    var norm := NormalId(pub);
    var urn := UnwrapIds(norm, sys);
    if pub.None? && sys.None? {
      NoIdLoop(store, depth, cats);
    } else if urn.Some? {
      SettledLookup(store, depth, cats, urn.value.0, urn.value.1);
    }
  }

  ghost predicate Unused(depth: Depths) {
    forall u | u in depth :: depth[u] == 0
  }

  lemma {:induction false} LoopLoses(store: Store, depth: Depths, cats: seq<Url>, pub: Option<string>, sys: Option<string>)
    requires Ready(store, depth) && Within(store, cats) && Settled(pub, sys) && Undelegated(store, pub, sys)
    requires Unused(depth) && !Ends(store, cats, pub, sys)
    ensures ListLoop(store, depth, cats, pub, sys).1 != depth
    decreases |cats|
  {
    var u := cats[0];
    if store[u] == [] {
      LoopLoses(store, depth, cats[1..], pub, sys);
    } else if Look(store, |store|, u, pub, sys).Some? {
      LookResolves(store, |store|, depth, u, pub, sys);
      CatalogTried(store, depth, cats, pub, sys, NotFound, depth);
      LoopLoses(store, depth, cats[1..], pub, sys);
    } else {
      FirstLoses(store, depth, cats, pub, sys);
    }
  }

  lemma TrailStarts(store: Store, depth: Depths, u: Url, pub: Option<string>, sys: Option<string>)
    requires Ready(store, depth) && Unused(depth) && Endless(store, u, pub, sys)
    ensures Trail(store, [u], pub, sys) && Distinct([u]) && Walked(depth, [u])
  {
    assert [u][..0] == [];
  }

  lemma FirstLoses(store: Store, depth: Depths, cats: seq<Url>, pub: Option<string>, sys: Option<string>)
    requires Ready(store, depth) && Within(store, cats) && Settled(pub, sys) && Undelegated(store, pub, sys)
    requires Unused(depth) && cats != [] && store[cats[0]] != [] && Endless(store, cats[0], pub, sys)
    ensures ListLoop(store, depth, cats, pub, sys).1 != depth
  {
    var u := cats[0];
    TrailStarts(store, depth, u, pub, sys);
    TrailLoses(store, depth, [u], pub, sys);
    assert [u][|[u]| - 1] == u;
    var (a, d) := XmlResolve(store, depth, u, pub, sys);
    CatalogTried(store, depth, cats, pub, sys, a, d);
  }

  /** Main result on arbitrary graphs: where no list delegates the identifiers, a lookup
      from unused counters gives all of them back if and only if the plain search ends;
      it then answers what the search answers. */
  lemma CountersReturnIff(store: Store, depth: Depths, cats: seq<Url>, pub: Option<string>, sys: Option<string>)
    requires Ready(store, depth) && Within(store, cats) && Unused(depth)
    requires var ids := Settle(pub, sys); Undelegated(store, ids.0, ids.1)
    ensures var ids := Settle(pub, sys);
            && (ListResolve(store, depth, cats, pub, sys).1 == depth <==> Ends(store, cats, ids.0, ids.1))
            && (Ends(store, cats, ids.0, ids.1) ==>
                ListResolve(store, depth, cats, pub, sys).0 == Walk(store, |store|, cats, ids.0, ids.1).value)
  {
    var ids := Settle(pub, sys);
    SettleSettles(pub, sys);
    SettledLookup(store, depth, cats, pub, sys);
    if Ends(store, cats, ids.0, ids.1) {
      LoopResolves(store, |store|, depth, cats, ids.0, ids.1);
    } else {
      LoopLoses(store, depth, cats, ids.0, ids.1);
    }
  }
}
