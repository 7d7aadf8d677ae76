/** The order in which section 7.1 tries matching delegates, longest start string first,
    and exactly when the order of the list is that order. */
module CatalogOrder {

  import opened Optional
  import opened CatalogUrn
  import opened CatalogLocal

  /** The delegate entries that apply to an identifier, in list order. */
  function Matching(es: seq<Entry>, kind: Kind, id: string): seq<Entry> {
    if es == [] then []
    else (if DelegatesTo(es[0], kind, id) then [es[0]] else []) + Matching(es[1..], kind, id)
  }

  function Urls(es: seq<Entry>): seq<Url> {
    if es == [] then [] else [es[0].url] + Urls(es[1..])
  }

  lemma {:induction false} DelegatesAreMatching(es: seq<Entry>, kind: Kind, id: string)
    ensures Delegates(es, kind, id) == Urls(Matching(es, kind, id))
  {
    if es != [] {
      DelegatesAreMatching(es[1..], kind, id);
      assert [] + Matching(es[1..], kind, id) == Matching(es[1..], kind, id);
    }
  }

  // ------------------------------------------------------------- longest first

  function InsertLonger(e: Entry, l: seq<Entry>): (r: seq<Entry>) {
    if l == [] || |e.name| >= |l[0].name| then [e] + l else [l[0]] + InsertLonger(e, l[1..])
  }

  /** Stable: entries of equal length stay in list order. */
  function LongestFirst(es: seq<Entry>): seq<Entry> {
    if es == [] then [] else InsertLonger(es[0], LongestFirst(es[1..]))
  }

  ghost predicate Shrinking(es: seq<Entry>) {
    forall i, j | 0 <= i < j < |es| :: |es[i].name| >= |es[j].name|
  }

  lemma {:induction false} InsertShrinks(e: Entry, l: seq<Entry>)
    requires Shrinking(l)
    ensures Shrinking(InsertLonger(e, l))
    ensures forall x :: x in InsertLonger(e, l) <==> x == e || x in l
  {
    if l != [] && |e.name| < |l[0].name| {
      InsertShrinks(e, l[1..]);
      var r := InsertLonger(e, l[1..]);
      assert l == [l[0]] + l[1..];
      forall x | x in r
        ensures |l[0].name| >= |x.name|
      {
        if x != e {
          assert x in l[1..];
        }
      }
      forall i, j | 0 <= i < j < |r| + 1
        ensures |([l[0]] + r)[i].name| >= |([l[0]] + r)[j].name|
      {
        assert r[j - 1] in r;
      }
    }
  }

  /** It is a sort: longest first, with the same entries. */
  lemma {:induction false} LongestFirstSorts(es: seq<Entry>)
    ensures Shrinking(LongestFirst(es))
    ensures forall x :: x in LongestFirst(es) <==> x in es
    ensures multiset(LongestFirst(es)) == multiset(es)
  {
    if es != [] {
      LongestFirstSorts(es[1..]);
      InsertShrinks(es[0], LongestFirst(es[1..]));
      InsertKeeps(es[0], LongestFirst(es[1..]));
      assert es == [es[0]] + es[1..];
    }
  }

  lemma {:induction false} InsertKeeps(e: Entry, l: seq<Entry>)
    ensures multiset(InsertLonger(e, l)) == multiset(l) + multiset{e}
  {
    if l != [] && |e.name| < |l[0].name| {
      InsertKeeps(e, l[1..]);
      assert l == [l[0]] + l[1..];
    }
  }

  /** For one identifier: the list's order is the required one exactly when the start
      strings of the entries that apply never get longer. */
  lemma {:induction false} InOrderIff(es: seq<Entry>)
    ensures LongestFirst(es) == es <==> Shrinking(es)
  {
    if Shrinking(es) {
      if es != [] {
        var rest := es[1..];
        assert forall i | 0 <= i < |rest| :: rest[i] == es[i + 1];
        InOrderIff(rest);
      }
    } else {
      LongestFirstSorts(es);
    }
  }

  // ---------------------------------------------- for every identifier at once

  predicate Comparable(a: string, b: string) {
    HasPrefix(a, b) || HasPrefix(b, a)
  }

  predicate Delegating(e: Entry, kind: Kind) {
    e.kind == kind && (kind == DelegatePublic ==> e.preferPublic)
  }

  /** Where one start string extends another, the longer one is listed first. */
  ghost predicate Ordered(es: seq<Entry>, kind: Kind) {
    forall i, j | 0 <= i < j < |es| && Delegating(es[i], kind) && Delegating(es[j], kind)
                  && Comparable(es[i].name, es[j].name) :: |es[i].name| >= |es[j].name|
  }

  lemma PrefixesCompare(id: string, a: string, b: string)
    requires HasPrefix(id, a) && HasPrefix(id, b)
    ensures Comparable(a, b)
  {
    if |a| <= |b| {
      assert b[..|a|] == id[..|b|][..|a|] == id[..|a|];
    } else {
      assert a[..|b|] == id[..|a|][..|b|] == id[..|b|];
    }
  }

  lemma {:induction false} MatchingIn(es: seq<Entry>, kind: Kind, id: string)
    ensures forall x :: x in Matching(es, kind, id) <==> x in es && DelegatesTo(x, kind, id)
  {
    if es != [] {
      MatchingIn(es[1..], kind, id);
      assert es == [es[0]] + es[1..];
    }
  }

  lemma OrderedTail(es: seq<Entry>, kind: Kind)
    requires es != [] && Ordered(es, kind)
    ensures Ordered(es[1..], kind)
  {
    var rest := es[1..];
    forall i, j | 0 <= i < j < |rest| && Delegating(rest[i], kind) && Delegating(rest[j], kind)
                  && Comparable(rest[i].name, rest[j].name)
      ensures |rest[i].name| >= |rest[j].name|
    {
      assert rest[i] == es[i + 1] && rest[j] == es[j + 1];
    }
  }

  lemma {:induction false} OrderedShrinks(es: seq<Entry>, kind: Kind, id: string)
    requires Ordered(es, kind)
    ensures Shrinking(Matching(es, kind, id))
  {
    if es != [] {
      OrderedTail(es, kind);
      OrderedShrinks(es[1..], kind, id);
      var m := Matching(es[1..], kind, id);
      if DelegatesTo(es[0], kind, id) {
        MatchingIn(es[1..], kind, id);
        forall x | x in m
          ensures |es[0].name| >= |x.name|
        {
          var k :| 0 <= k < |es[1..]| && es[1..][k] == x;
          assert es[k + 1] == x;
          PrefixesCompare(id, es[0].name, x.name);
        }
        forall i, j | 0 <= i < j < |m| + 1
          ensures |([es[0]] + m)[i].name| >= |([es[0]] + m)[j].name|
        {
          assert m[j - 1] in m;
        }
      } else {
        assert Matching(es, kind, id) == m;
      }
    }
  }

  /** An entry that applies appears among those that apply, after the earlier ones. */
  lemma {:induction false} PlaceInMatching(es: seq<Entry>, kind: Kind, id: string, i: nat, j: nat)
    requires i < j < |es| && DelegatesTo(es[i], kind, id) && DelegatesTo(es[j], kind, id)
    ensures exists a, b ::
      0 <= a < b < |Matching(es, kind, id)| && Matching(es, kind, id)[a] == es[i] && Matching(es, kind, id)[b] == es[j]
  {
    var m, rest := Matching(es, kind, id), Matching(es[1..], kind, id);
    if i == 0 {
      MatchingIn(es[1..], kind, id);
      assert es[j] == es[1..][j - 1];
      var b :| 0 <= b < |rest| && rest[b] == es[j];
      assert m[0] == es[0] && m[b + 1] == es[j];
    } else {
      PlaceInMatching(es[1..], kind, id, i - 1, j - 1);
      var a, b :| 0 <= a < b < |rest| && rest[a] == es[i] && rest[b] == es[j];
      var k := |m| - |rest|;
      assert m[k + a] == rest[a] && m[k + b] == rest[b];
    }
  }

  /** For a list: delegates are tried longest first for every identifier exactly when
      the list puts the longer of two comparable start strings first. */
  lemma OrderedIff(es: seq<Entry>, kind: Kind)
    requires kind == DelegateSystem || kind == DelegatePublic
    ensures Ordered(es, kind)
            <==> forall id :: LongestFirst(Matching(es, kind, id)) == Matching(es, kind, id)
  {
    if Ordered(es, kind) {
      forall id
        ensures LongestFirst(Matching(es, kind, id)) == Matching(es, kind, id)
      {
        OrderedShrinks(es, kind, id);
        InOrderIff(Matching(es, kind, id));
      }
    } else {
      var i, j :| 0 <= i < j < |es| && Delegating(es[i], kind) && Delegating(es[j], kind)
                  && Comparable(es[i].name, es[j].name) && |es[i].name| < |es[j].name|;
      var id := es[j].name;
      assert id[..|id|] == id;
      PlaceInMatching(es, kind, id, i, j);
      InOrderIff(Matching(es, kind, id));
      assert LongestFirst(Matching(es, kind, id)) != Matching(es, kind, id);
    }
  }

  // --------------------------------------------------- one list's decision, ordered

  datatype Order = AsListed | ByLength

  /** The delegates of a decision in the given order. */
  function StepIn(order: Order, es: seq<Entry>, pub: Option<string>, sys: Option<string>): Step {
    match Local(es, pub, sys)
    case Delegate(urls, Some(p), s) =>
      Delegate(if order.AsListed? then urls else Urls(LongestFirst(Matching(es, DelegatePublic, p))), Some(p), s)
    case Delegate(urls, None, Some(s)) =>
      Delegate(if order.AsListed? then urls else Urls(LongestFirst(Matching(es, DelegateSystem, s))), None, Some(s))
    case step => step
  }

  ghost predicate InOrder(es: seq<Entry>) {
    Ordered(es, DelegateSystem) && Ordered(es, DelegatePublic)
  }

  lemma UrlsInOrder(es: seq<Entry>, kind: Kind, id: string)
    requires Ordered(es, kind)
    ensures Urls(LongestFirst(Matching(es, kind, id))) == Delegates(es, kind, id)
  {
    OrderedShrinks(es, kind, id);
    InOrderIff(Matching(es, kind, id));
    DelegatesAreMatching(es, kind, id);
  }

  lemma StepInOrder(es: seq<Entry>, pub: Option<string>, sys: Option<string>)
    ensures StepIn(AsListed, es, pub, sys) == Local(es, pub, sys)
    ensures InOrder(es) ==> StepIn(ByLength, es, pub, sys) == Local(es, pub, sys)
  {
    if InOrder(es) {
      StepByLength(es, pub, sys);
    }
  }

  lemma StepByLength(es: seq<Entry>, pub: Option<string>, sys: Option<string>)
    requires InOrder(es)
    ensures StepIn(ByLength, es, pub, sys) == Local(es, pub, sys)
  {
    var step := Local(es, pub, sys);
    DelegateUrls(es, pub, sys);
    if step.Delegate? {
      if step.pub.Some? {
        UrlsInOrder(es, DelegatePublic, step.pub.value);
      } else if step.sys.Some? {
        UrlsInOrder(es, DelegateSystem, step.sys.value);
      }
    }
  }

  /** A list delegates one of the two identifiers, to the entries that apply to it. */
  lemma DelegateUrls(es: seq<Entry>, pub: Option<string>, sys: Option<string>)
    ensures var step := Local(es, pub, sys);
            step.Delegate? ==>
              || (step.pub.Some? && step.sys.None? && step.urls == Delegates(es, DelegatePublic, step.pub.value))
              || (step.pub.None? && step.sys.Some? && step.urls == Delegates(es, DelegateSystem, step.sys.value))
  {
  }

  lemma {:induction false} UrlsIn(es: seq<Entry>)
    ensures forall u :: u in Urls(es) <==> exists e :: e in es && e.url == u
  {
    if es != [] {
      UrlsIn(es[1..]);
      assert es == [es[0]] + es[1..];
      assert es[0] in es;
    }
  }

  /** Ordering changes which delegate comes first, not which there are. */
  lemma StepTargets(order: Order, es: seq<Entry>, pub: Option<string>, sys: Option<string>)
    ensures forall u :: u in Targets(StepIn(order, es, pub, sys)) <==> u in Targets(Local(es, pub, sys))
  {
    var p, s := if pub.Some? then pub.value else "", if sys.Some? then sys.value else "";
    SameUrls(es, DelegateSystem, s);
    SameUrls(es, DelegatePublic, p);
  }

  lemma SameUrls(es: seq<Entry>, kind: Kind, id: string)
    ensures forall u :: u in Urls(LongestFirst(Matching(es, kind, id))) <==> u in Delegates(es, kind, id)
  {
    DelegatesAreMatching(es, kind, id);
    LongestFirstSorts(Matching(es, kind, id));
    UrlsIn(Matching(es, kind, id));
    UrlsIn(LongestFirst(Matching(es, kind, id)));
  }
}
