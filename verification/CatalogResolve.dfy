/** External-identifier resolution over a graph of XML catalogs (section 7.1 of
    the OASIS XML Catalogs draft of 6 August 2001).

    Each list carries the recursion counter that the source keeps in its first entry;
    resolution is written as a function that threads those counters, so that what
    happens on cyclic graphs can be stated too. */
module CatalogResolve {

  import opened Optional
  import opened CatalogUrn
  import opened CatalogLocal

  const MAX_CATAL_DEPTH: nat := 50
  const MAX_DELEGATE: nat := 50

  type Depths = map<Url, nat>

  // ------------------------------------------------------ the counters' budget

  /** How often a list can still be entered. */
  function Slack(n: nat): nat {
    if n <= MAX_CATAL_DEPTH then MAX_CATAL_DEPTH + 1 - n else 0
  }

  ghost function Budget(d: Depths): nat
    decreases |d|
  {
    if d == map[] then 0 else
      assert d.Keys != {};
      var u :| u in d;
      Slack(d[u]) + Budget(d - {u})
  }

  lemma {:induction false} BudgetSplit(d: Depths, u: Url)
    requires u in d
    ensures Budget(d) == Slack(d[u]) + Budget(d - {u})
    decreases |d|
  {
    var v :| v in d && Budget(d) == Slack(d[v]) + Budget(d - {v});
    if v != u {
      BudgetSplit(d - {v}, u);
      BudgetSplit(d - {u}, v);
      assert d - {v} - {u} == d - {u} - {v};
    }
  }

  ghost predicate Grown(d: Depths, d': Depths) {
    d.Keys == d'.Keys && forall u | u in d :: d[u] <= d'[u]
  }

  lemma {:induction false} BudgetMono(d: Depths, d': Depths)
    requires Grown(d, d')
    ensures Budget(d') <= Budget(d)
    decreases |d|
  {
    if d.Keys == {} {
      assert d' == map[];
    } else {
      var u :| u in d;
      BudgetSplit(d, u);
      BudgetSplit(d', u);
      BudgetMono(d - {u}, d' - {u});
    }
  }

  function Enter(d: Depths, u: Url): Depths
    requires u in d
  {
    d[u := d[u] + 1]
  }

  function Leave(d: Depths, u: Url): Depths
    requires u in d && d[u] > 0
  {
    d[u := d[u] - 1]
  }

  lemma EnterSpends(d: Depths, u: Url)
    requires u in d && d[u] <= MAX_CATAL_DEPTH
    ensures Budget(Enter(d, u)) < Budget(d)
  {
    BudgetSplit(d, u);
    BudgetSplit(Enter(d, u), u);
    assert Enter(d, u) - {u} == d - {u};
  }

  // ---------------------------------------------------------------- resolution

  ghost predicate Ready(store: Store, depth: Depths) {
    Closed(store) && depth.Keys == store.Keys
  }

  /** xmlCatalogListXMLResolve; terminates on every finite graph, cycles included. */
  function ListResolve(store: Store, depth: Depths, cats: seq<Url>, pub: Option<string>, sys: Option<string>)
    : (r: (Answer, Depths))
    requires Ready(store, depth) && Within(store, cats)
    ensures Grown(depth, r.1)
    decreases Budget(depth), 2, IdWeight(pub) + IdWeight(sys), 0
  {
    if cats == [] || (pub.None? && sys.None?) then (NotFound, depth)
    else
      var norm := NormalId(pub);
      var urn := UnwrapIds(norm, sys);
      if urn.Some? then ListResolve(store, depth, cats, urn.value.0, urn.value.1)
      else ListLoop(store, depth, cats, norm, sys)
  }

  /** The loop over a list of catalogs. */
  function ListLoop(store: Store, depth: Depths, cats: seq<Url>, pub: Option<string>, sys: Option<string>)
    : (r: (Answer, Depths))
    requires Ready(store, depth) && Within(store, cats)
    ensures Grown(depth, r.1)
    decreases Budget(depth), 1, 0, |cats|
  {
    if cats == [] then (NotFound, depth)
    else if store[cats[0]] == [] then ListLoop(store, depth, cats[1..], pub, sys)
    else
      var (a, d) := XmlResolve(store, depth, cats[0], pub, sys);
      if a != NotFound || d[cats[0]] > MAX_CATAL_DEPTH then (a, d)
      else
        BudgetMono(depth, d);
        ListLoop(store, d, cats[1..], pub, sys)
  }

  /** xmlCatalogXMLResolve on the list of catalog `u`. */
  function XmlResolve(store: Store, depth: Depths, u: Url, pub: Option<string>, sys: Option<string>)
    : (r: (Answer, Depths))
    requires Ready(store, depth) && u in store
    ensures Grown(depth, r.1)
    decreases Budget(depth), 0, 0, 0
  {
    if depth[u] > MAX_CATAL_DEPTH then (NotFound, depth)
    else
      var es := store[u];
      var d := Enter(depth, u);
      EnterSpends(depth, u);
      match Local(es, pub, sys)
      case Answered(a) => (a, depth)
      case Delegate(urls, pub', sys') =>
        LocalTargets(store, u, pub, sys);
        var (a, d') := DelegateLoop(store, d, urls, [], pub', sys');
        (a, Leave(d', u))
      case Continue(urls) =>
        LocalTargets(store, u, pub, sys);
        NextLoop(store, d, u, urls, pub, sys)
  }

  /** Tries delegates in order, skipping URLs already tried; running out of them
      is a cut. */
  function DelegateLoop(store: Store, depth: Depths, urls: seq<Url>, tried: seq<Url>,
                        pub: Option<string>, sys: Option<string>)
    : (r: (Answer, Depths))
    requires Ready(store, depth) && Within(store, urls)
    ensures Grown(depth, r.1)
    decreases Budget(depth), 3, 0, |urls|
  {
    if urls == [] then (Break, depth)
    else if urls[0] in tried then DelegateLoop(store, depth, urls[1..], tried, pub, sys)
    else
      var tried' := if |tried| < MAX_DELEGATE then tried + [urls[0]] else tried;
      var (a, d) := ListResolve(store, depth, [urls[0]], pub, sys);
      if a != NotFound then (a, d)
      else
        BudgetMono(depth, d);
        DelegateLoop(store, d, urls[1..], tried', pub, sys)
  }

  /** Tries the next catalogs in order.  As in the source, the counter of `u` is
      not given back when the limit was reached underneath. */
  function NextLoop(store: Store, depth: Depths, u: Url, urls: seq<Url>, pub: Option<string>, sys: Option<string>)
    : (r: (Answer, Depths))
    requires Ready(store, depth) && u in store && Within(store, urls) && depth[u] > 0
    ensures Grown(Leave(depth, u), r.1)
    decreases Budget(depth), 3, 0, |urls|
  {
    if urls == [] then (NotFound, Leave(depth, u))
    else
      var (a, d) := ListResolve(store, depth, [urls[0]], pub, sys);
      if a != NotFound then (a, Leave(d, u))
      else if d[u] > MAX_CATAL_DEPTH then (NotFound, d)
      else
        BudgetMono(depth, d);
        NextLoop(store, d, u, urls[1..], pub, sys)
  }
}
