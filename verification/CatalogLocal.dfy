/** XML catalogs as entry lists, and what one list decides about an external identifier
    (section 7.1 of the OASIS XML Catalogs draft of 6 August 2001).  Catalog files are a
    finite map from URL to entry list. */
module CatalogLocal {

  import opened Optional
  import opened CatalogUrn

  datatype Kind = Public | System | RewriteSystem | DelegatePublic | DelegateSystem | NextCatalog | Ignored

  datatype Entry = Entry(kind: Kind, name: string, url: string, preferPublic: bool)

  type Url = string
  type Store = map<Url, seq<Entry>>

  /** `Break` is the source's XML_CATAL_BREAK: a delegate cut. */
  datatype Answer = NotFound | Break | Found(uri: string)

  predicate Refers(e: Entry) {
    e.kind == DelegatePublic || e.kind == DelegateSystem || e.kind == NextCatalog
  }

  /** Every referenced catalog file loads. */
  ghost predicate Closed(store: Store) {
    forall u, e | u in store && e in store[u] && Refers(e) :: e.url in store
  }

  predicate Within(store: Store, urls: seq<Url>) {
    forall u | u in urls :: u in store
  }

  // -------------------------------------------------------- reading one list

  /** The first entry of a kind with exactly this name. */
  function FirstNamed(es: seq<Entry>, kind: Kind, name: string): Option<Entry> {
    if es == [] then None
    else if es[0].kind == kind && es[0].name == name then Some(es[0])
    else FirstNamed(es[1..], kind, name)
  }

  predicate Rewrites(e: Entry, sys: string) {
    e.kind == RewriteSystem && HasPrefix(sys, e.name)
  }

  function RewriteLength(best: Option<Entry>): nat {
    if best.Some? then |best.value.name| else 0
  }

  /** The scan for the rewriting rule, with the best rule so far. */
  function BestRewrite(es: seq<Entry>, sys: string, best: Option<Entry>): Option<Entry> {
    if es == [] then best
    else if Rewrites(es[0], sys) && |es[0].name| > RewriteLength(best) then
      BestRewrite(es[1..], sys, Some(es[0]))
    else BestRewrite(es[1..], sys, best)
  }

  predicate DelegatesTo(e: Entry, kind: Kind, id: string) {
    e.kind == kind && HasPrefix(id, e.name) && (kind == DelegatePublic ==> e.preferPublic)
  }

  /** The catalogs a list delegates an identifier to, in list order. */
  function Delegates(es: seq<Entry>, kind: Kind, id: string): seq<Url> {
    if es == [] then []
    else if DelegatesTo(es[0], kind, id) then [es[0].url] + Delegates(es[1..], kind, id)
    else Delegates(es[1..], kind, id)
  }

  function Nexts(es: seq<Entry>): seq<Url> {
    if es == [] then []
    else if es[0].kind == NextCatalog then [es[0].url] + Nexts(es[1..])
    else Nexts(es[1..])
  }

  lemma {:induction false} TargetsLoad(es: seq<Entry>, kind: Kind, id: string, store: Store)
    requires kind == DelegatePublic || kind == DelegateSystem
    requires forall e | e in es && Refers(e) :: e.url in store
    ensures Within(store, Delegates(es, kind, id)) && Within(store, Nexts(es))
  {
    if es != [] {
      assert es[0] in es;
      assert forall e | e in es[1..] :: e in es;
      TargetsLoad(es[1..], kind, id, store);
    }
  }

  /** A rewriting rule is chosen exactly when one with a non-empty prefix applies,
      and then no applicable rule is longer. */
  lemma {:induction false} BestRewriteIsLongest(es: seq<Entry>, sys: string, best: Option<Entry>)
    ensures var r := BestRewrite(es, sys, best);
            && (r == best || (r.Some? && r.value in es && Rewrites(r.value, sys)))
            && RewriteLength(r) >= RewriteLength(best)
            && (forall e | e in es && Rewrites(e, sys) :: |e.name| <= RewriteLength(r))
  {
    if es != [] {
      if Rewrites(es[0], sys) && |es[0].name| > RewriteLength(best) {
        BestRewriteIsLongest(es[1..], sys, Some(es[0]));
      } else {
        BestRewriteIsLongest(es[1..], sys, best);
      }
      assert forall e | e in es :: e == es[0] || e in es[1..];
    }
  }

  /** An entry that decides a system identifier by itself. */
  predicate NamesSystem(e: Entry, sys: string) {
    e.kind == System && e.name == sys
  }

  predicate NamesPublic(e: Entry, pub: string) {
    e.kind == Public && e.name == pub
  }

  /** The entry at `i` is the first of its kind with this name. */
  ghost predicate FirstAt(es: seq<Entry>, kind: Kind, name: string, i: nat) {
    && i < |es| && es[i].kind == kind && es[i].name == name
    && forall j | 0 <= j < i :: !(es[j].kind == kind && es[j].name == name)
  }

  lemma {:induction false} FirstNamedMeans(es: seq<Entry>, kind: Kind, name: string)
    ensures match FirstNamed(es, kind, name)
            case Some(f) => exists i: nat :: FirstAt(es, kind, name, i) && es[i] == f
            case None => forall e | e in es :: !(e.kind == kind && e.name == name)
  {
    if es != [] {
      if es[0].kind == kind && es[0].name == name {
        assert FirstAt(es, kind, name, 0);
      } else {
        FirstNamedMeans(es[1..], kind, name);
        assert forall e | e in es :: e == es[0] || e in es[1..];
        if FirstNamed(es, kind, name).Some? {
          var i: nat :| FirstAt(es[1..], kind, name, i) && es[1..][i] == FirstNamed(es, kind, name).value;
          assert FirstAt(es, kind, name, i + 1);
        }
      }
    }
  }

  lemma {:induction false} DelegatesMean(es: seq<Entry>, kind: Kind, id: string)
    ensures Delegates(es, kind, id) != [] <==> exists e | e in es :: DelegatesTo(e, kind, id)
    ensures forall u :: u in Delegates(es, kind, id) <==> exists e | e in es :: DelegatesTo(e, kind, id) && e.url == u
  {
    if es != [] {
      DelegatesMean(es[1..], kind, id);
      assert forall e | e in es :: e == es[0] || e in es[1..];
      assert es[0] in es && forall e | e in es[1..] :: e in es;
    }
  }
  // --------------------------------------------------------------- identifiers

  function IdWeight(id: Option<string>): nat {
    if id.Some? then Weight(id.value) else 0
  }

  function NormalId(pub: Option<string>): (r: Option<string>)
    ensures IdWeight(r) <= IdWeight(pub)
  {
    if pub.None? then None
    else
      NormalizeWeight(pub.value);
      var n := Normalize(pub.value);
      if n == "" then None else Some(n)
  }

  predicate IsUrn(id: Option<string>) {
    id.Some? && HasPrefix(id.value, URN_PUBID)
  }

  /** The identifiers after one unwrapping round, if one applies. */
  function UnwrapIds(pub: Option<string>, sys: Option<string>): (r: Option<(Option<string>, Option<string>)>)
    ensures r.Some? ==> IdWeight(r.value.0) + IdWeight(r.value.1) < IdWeight(pub) + IdWeight(sys)
    ensures r.None? <==> !IsUrn(pub) && !IsUrn(sys)
  {
    if IsUrn(pub) then
      UnwrapLosesWeight(pub.value);
      Some((Some(Unwrap(pub.value)), sys))
    else if IsUrn(sys) then
      UnwrapLosesWeight(sys.value);
      var urn := Unwrap(sys.value);
      if pub.None? then Some((Some(urn), None))
      else if pub.value == urn then Some((pub, None))
      else Some((pub, Some(urn)))
    else None
  }

  /** xmlNewCatalogEntry: public identifiers are stored in normal form. */
  function NewEntry(kind: Kind, name: string, url: Url, preferPublic: bool): Entry {
    Entry(kind, if kind == Public || kind == DelegatePublic then Normalize(name) else name, url, preferPublic)
  }

  /** An entry made for a public identifier is the one looked up for another exactly
      when the two have the same words, however they are spaced. */
  lemma EntryNamesWords(name: string, url: Url, preferPublic: bool, pub: string)
    ensures NormalId(Some(pub)) == None <==> Words(pub) == []
    ensures Words(pub) != [] ==>
      (NamesPublic(NewEntry(Public, name, url, preferPublic), NormalId(Some(pub)).value) <==> Words(name) == Words(pub))
  {
    NormalizeSameWords(pub, "");
    NormalizeSameWords(name, pub);
    assert Normalize("") == "" && Words("") == [];
  }

  /** Names of other kinds are compared as they are written, and start strings for public
      identifiers are normalized. */
  lemma EntryNamesExactly(name: string, url: Url, preferPublic: bool, id: string)
    ensures NamesSystem(NewEntry(System, name, url, preferPublic), id) <==> name == id
    ensures Rewrites(NewEntry(RewriteSystem, name, url, preferPublic), id) <==> name <= id
    ensures DelegatesTo(NewEntry(DelegateSystem, name, url, preferPublic), DelegateSystem, id) <==> name <= id
    ensures DelegatesTo(NewEntry(DelegatePublic, name, url, preferPublic), DelegatePublic, id)
            <==> preferPublic && Normalize(name) <= id
  {
  }

  // ------------------------------------------------------------ one list's decision

  /** What one list decides on its own, before any other catalog is opened. */
  datatype Step = Answered(a: Answer)
                | Delegate(urls: seq<Url>, pub: Option<string>, sys: Option<string>)
                | Continue(nexts: seq<Url>)

  function SystemStep(es: seq<Entry>, sys: string): Option<Step> {
    if FirstNamed(es, System, sys).Some? then
      Some(Answered(Found(FirstNamed(es, System, sys).value.url)))
    else
      var rewrite := BestRewrite(es, sys, None);
      if rewrite.Some? then
        BestRewriteIsLongest(es, sys, None);
        Some(Answered(Found(rewrite.value.url + sys[|rewrite.value.name|..])))
      else if Delegates(es, DelegateSystem, sys) != [] then
        Some(Delegate(Delegates(es, DelegateSystem, sys), None, Some(sys)))
      else None
  }

  function PublicStep(es: seq<Entry>, pub: string): Option<Step> {
    if FirstNamed(es, Public, pub).Some? then
      Some(Answered(Found(FirstNamed(es, Public, pub).value.url)))
    else if Delegates(es, DelegatePublic, pub) != [] then
      Some(Delegate(Delegates(es, DelegatePublic, pub), Some(pub), None))
    else None
  }

  function Local(es: seq<Entry>, pub: Option<string>, sys: Option<string>): Step {
    if sys.Some? && SystemStep(es, sys.value).Some? then SystemStep(es, sys.value).value
    else if pub.Some? && PublicStep(es, pub.value).Some? then PublicStep(es, pub.value).value
    else if pub.Some? || sys.Some? then Continue(Nexts(es))
    else Answered(NotFound)
  }

  /** Some entry decides a system identifier. */
  ghost predicate SystemDecides(es: seq<Entry>, sys: string) {
    exists e | e in es ::
      NamesSystem(e, sys) || (Rewrites(e, sys) && e.name != "") || DelegatesTo(e, DelegateSystem, sys)
  }

  ghost predicate PublicDecides(es: seq<Entry>, pub: string) {
    exists e | e in es :: NamesPublic(e, pub) || DelegatesTo(e, DelegatePublic, pub)
  }

  /** For a system identifier: an exact entry, else a rewriting rule no shorter than
      any that applies, else the delegates. */
  lemma SystemOrder(es: seq<Entry>, sys: string)
    ensures SystemStep(es, sys).Some? <==> SystemDecides(es, sys)
    ensures SystemStep(es, sys).Some? ==>
      var step := SystemStep(es, sys).value;
      if exists e | e in es :: NamesSystem(e, sys) then
        exists e | e in es :: NamesSystem(e, sys) && step == Answered(Found(e.url))
      else if exists e | e in es :: Rewrites(e, sys) && e.name != "" then
        exists e | e in es :: Rewrites(e, sys)
          && (forall f | f in es && Rewrites(f, sys) :: |f.name| <= |e.name|)
          && step == Answered(Found(e.url + sys[|e.name|..]))
      else step == Delegate(Delegates(es, DelegateSystem, sys), None, Some(sys))
  {
    FirstNamedMeans(es, System, sys);
    BestRewriteIsLongest(es, sys, None);
    DelegatesMean(es, DelegateSystem, sys);
  }

  /** For a public identifier: an exact entry, else the delegates that prefer it. */
  lemma PublicOrder(es: seq<Entry>, pub: string)
    ensures PublicStep(es, pub).Some? <==> PublicDecides(es, pub)
    ensures PublicStep(es, pub).Some? ==>
      var step := PublicStep(es, pub).value;
      if exists e | e in es :: NamesPublic(e, pub) then
        exists e | e in es :: NamesPublic(e, pub) && step == Answered(Found(e.url))
      else step == Delegate(Delegates(es, DelegatePublic, pub), Some(pub), None)
  {
    FirstNamedMeans(es, Public, pub);
    DelegatesMean(es, DelegatePublic, pub);
  }

  /** The order of section 7.1 within one list: what decides the system identifier,
      only then what decides the public one, only then the next catalogs. */
  lemma LocalFollowsOrder(es: seq<Entry>, pub: Option<string>, sys: Option<string>)
    ensures sys.Some? && SystemDecides(es, sys.value) ==> SystemStep(es, sys.value) == Some(Local(es, pub, sys))
    ensures !(sys.Some? && SystemDecides(es, sys.value)) ==>
      if pub.Some? && PublicDecides(es, pub.value) then PublicStep(es, pub.value) == Some(Local(es, pub, sys))
      else Local(es, pub, sys) == if pub.None? && sys.None? then Answered(NotFound) else Continue(Nexts(es))
  {
    if sys.Some? {
      SystemOrder(es, sys.value);
    }
    if pub.Some? {
      PublicOrder(es, pub.value);
    }
  }

  /** The catalogs a step goes on to. */
  function Targets(step: Step): seq<Url> {
    match step
    case Answered(_) => []
    case Delegate(urls, _, _) => urls
    case Continue(urls) => urls
  }

  lemma LocalTargets(store: Store, u: Url, pub: Option<string>, sys: Option<string>)
    requires Closed(store) && u in store
    ensures Within(store, Targets(Local(store[u], pub, sys)))
  {
    TargetsLoad(store[u], DelegateSystem, if sys.Some? then sys.value else "", store);
    TargetsLoad(store[u], DelegatePublic, if pub.Some? then pub.value else "", store);
  }
}
