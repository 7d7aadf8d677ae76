/** Plain and prefixed lookups mixed, on tables of every size.  A prefixed lookup in a
    small table hashes differently, so a text may be stored twice there; what is
    returned is right all the same. */
module DictMixed {

  import opened Optional
  import opened Bytes
  import opened DictHash
  import opened DictPool
  import opened DictTable
  import opened DictLookup

  // -------------------------------------------------------------------- requests

  datatype Request = Plain(name: Name) | Prefixed(prefix: seq<Byte>, local: seq<Byte>, stray: Byte)

  /** The text a request asks for. */
  function Wanted(r: Request): seq<Byte> {
    match r
    case Plain(name) => name.text
    case Prefixed(prefix, local, _) => prefix + [COLON] + local
  }

  function Ask(w: World, r: Request, at: nat): Found
    requires WellShaped(w)
  {
    match r
    case Plain(name) => Lookup(w, name, at)
    case Prefixed(prefix, local, stray) => QLookup(w, prefix, local, stray, at)
  }

  function KeyOf(size: nat, r: Request): nat {
    match r
    case Plain(name) => Key(size, name)
    case Prefixed(prefix, local, stray) => QKey(size, prefix, local, stray)
  }

  predicate CanMatch(r: Request) {
    r.Prefixed? ==> r.prefix != []
  }

  /** The two kinds of lookup are one search, each table under its own key. */
  lemma AskSearches(w: World, r: Request, at: nat)
    requires WellShaped(w)
    ensures var skey := if w.sub.Some? then KeyOf(w.sub.value.size, r) else 0;
            Ask(w, r, at) == LookupBy(w, Wanted(r), KeyOf(w.t.size, r), skey, CanMatch(r), at)
  {
    match r
    case Plain(name) =>
      if w.sub.Some? {
        SubKeyIsOwn(w, name);
      }
    case Prefixed(_, _, _) =>
  }

  /** The keys of large tables do not depend on the kind of lookup. */
  lemma LargeKey(size: nat, r: Request)
    requires size != MIN_DICT_SIZE
    ensures KeyOf(size, r) == BigKey(Wanted(r))
  {
    if r.Prefixed? {
      BigQKeyIsBigKey(r.prefix, r.local);
    }
  }

  /** For every pair of table sizes: what the sub-dictionary, asked by itself, would
      return without storing anything is returned from it, if the text is not local. */
  lemma SubAnswers(w: World, r: Request, at: nat)
    requires WellShaped(w) && w.sub.Some? && CanMatch(r)
    requires forall e | In(e, w.t.buckets) :: TextOf(w.mem, e) != Wanted(r)
    ensures var alone := World(w.sub.value, None, w.mem);
            Ask(alone, r, at).w == alone ==> Ask(w, r, at) == Found(w, Ask(alone, r, at).ptr)
  {
    var alone := World(w.sub.value, None, w.mem);
    AskSearches(w, r, at);
    AskSearches(alone, r, at);
    assert forall e | e in ChainOf(w.t, KeyOf(w.t.size, r)) :: In(e, w.t.buckets);
    if Search(alone, Wanted(r), KeyOf(w.sub.value.size, r), 0, true).None? {
      AddedGrows(alone, Wanted(r), KeyOf(w.sub.value.size, r), 0, at);
    }
  }

  lemma AddedGrows(w: World, text: seq<Byte>, okey: nat, skey: nat, at: nat)
    requires WellShaped(w)
    ensures AddNew(w, text, okey, skey, at).w != w
  {
    var r := AddNew(w, text, okey, skey, at);
    assert r.w.t.nbElems == w.t.nbElems + 1;
  }

  // ------------------------------------------------------------------ an invariant

  /** As `TableOK`, but entries of a small table may have either kind of key, and a text
      may occur more than once. */
  ghost predicate LooseTable(t: Table, mem: Memory) {
    && (t.size == 128 || t.size == 768 || t.size == 4608) && |t.buckets| == t.size
    && (forall b, e | 0 <= b < t.size && e in t.buckets[b] :: e.okey % t.size == b && OwnKey(t.size, mem, e))
    && t.nbElems == Total(t.buckets)
    && (forall e | In(e, t.buckets) :: Holds(t.pools, mem, e.ptr, e.len))
    && (forall e, f | In(e, t.buckets) && In(f, t.buckets) && e.ptr == f.ptr :: e.len == f.len)
  }

  predicate OwnKey(size: nat, mem: Memory, e: Entry) {
    size != MIN_DICT_SIZE ==> e.okey == BigKey(TextOf(mem, e))
  }

  ghost predicate Loose(w: World) {
    && LooseTable(w.t, w.mem) && (w.sub.Some? ==> LooseTable(w.sub.value, w.mem))
    && Sound(w.t.pools + SubPools(w), w.mem)
  }

  lemma OKIsLoose(w: World, next: Byte)
    requires WorldOK(w, next)
    ensures Loose(w)
  {
  }

  /** `text` is stored at `p`, in either table. */
  ghost predicate Stored(w: World, text: seq<Byte>, p: nat) {
    || (exists e :: In(e, w.t.buckets) && TextOf(w.mem, e) == text && e.ptr == p)
    || (w.sub.Some? && exists e :: In(e, w.sub.value.buckets) && TextOf(w.mem, e) == text && e.ptr == p)
  }

  lemma FoundStored(w: World, text: seq<Byte>, okey: nat, skey: nat, canMatch: bool)
    requires Loose(w) && Search(w, text, okey, skey, canMatch).Some?
    ensures Stored(w, text, Search(w, text, okey, skey, canMatch).value)
  {
    match FindIn(ChainOf(w.t, okey), okey, text, w.mem)
    case Some(e) =>
      assert In(e, w.t.buckets);
    case None =>
      var e := FindIn(SubChain(w, skey), skey, text, w.mem).value;
      assert In(e, w.sub.value.buckets);
  }

  // ------------------------------------------------------------------- one lookup

  lemma LooseUndisturbed(t: Table, mem: Memory, mem': Memory)
    requires LooseTable(t, mem) && SameTexts(t.buckets, mem, mem')
    requires forall e | In(e, t.buckets) :: Ends(mem', e.ptr + e.len)
    ensures LooseTable(t, mem')
  {
    forall b, e | 0 <= b < t.size && e in t.buckets[b]
      ensures OwnKey(t.size, mem', e)
    {
      assert In(e, t.buckets);
    }
  }

  lemma LooseAppend(t: Table, e: Entry, pools: seq<Pool>, mem: Memory)
    requires LooseTable(t, mem) && OwnKey(t.size, mem, e)
    requires forall f | In(f, t.buckets) || f == e :: Holds(pools, mem, f.ptr, f.len)
    requires forall f | In(f, t.buckets) :: f.ptr != e.ptr
    ensures LooseTable(Append(t, e, pools), mem)
  {
    AppendIn(t, e, pools);
    TotalUpdate(t.buckets, e.okey % t.size, ChainOf(t, e.okey) + [e]);
  }

  lemma LooseAdded(w: World, text: seq<Byte>, okey: nat, at: nat)
    requires Loose(w) && CanStore(w, |text|, at) && (w.t.size != MIN_DICT_SIZE ==> okey == BigKey(text))
    ensures var w' := AddedWorld(w, text, okey, at);
            && Loose(w') && Extends(w.mem, w'.mem)
            && SameTexts(w.t.buckets, w.mem, w'.mem) && (w.sub.Some? ==> SameTexts(w.sub.value.buckets, w.mem, w'.mem))
            && TextAt(w'.mem, Store(w.t.pools, w.mem, text, at).ptr, |text|) == text
  {
    var st := Store(w.t.pools, w.mem, text, at);
    var e := Entry(st.ptr, |text|, okey);
    StoreSound(w.t.pools, SubPools(w), w.mem, text, at);
    TargetVacant(w.t.pools, SubPools(w), w.mem, |text|, at);
    StoreWrites(w.t.pools, w.mem, text, at);
    TextsSurvive(w.t, w.mem, st.mem, SubPools(w));
    LooseUndisturbed(w.t, w.mem, st.mem);
    if w.sub.Some? {
      SwapSound(w.t.pools, w.sub.value.pools, w.mem);
      TextsSurvive(w.sub.value, w.mem, st.mem, w.t.pools);
      LooseUndisturbed(w.sub.value, w.mem, st.mem);
    }
    forall f | In(f, w.t.buckets)
      ensures Holds(st.pools, st.mem, f.ptr, f.len) && f.ptr != st.ptr
    {
      StoreKeeps(w.t.pools, SubPools(w), w.mem, text, at, f.ptr, f.len);
    }
    LooseAppend(w.t, e, st.pools, st.mem);
  }

  // ----------------------------------------------------------------------- growth

  function Links(chain: seq<Entry>): nat {
    if |chain| <= 1 then 0 else |chain| - 1
  }

  /** A table grows, six times over, exactly when a lookup that stores has followed more
      than three links and the table is not yet of the largest size. */
  lemma GrowsIff(w: World, r: Request, at: nat)
    requires Loose(w) && Ask(w, r, at).w != w
    ensures var skey := if w.sub.Some? then KeyOf(w.sub.value.size, r) else 0;
            var links := Links(ChainOf(w.t, KeyOf(w.t.size, r))) + Links(SubChain(w, skey));
            Ask(w, r, at).w.t.size == if links > 3 && w.t.size != 4608 then 6 * w.t.size else w.t.size
  {
    AskSearches(w, r, at);
  }

  lemma {:induction false} PassesIn(bs: seq<seq<Entry>>)
    ensures forall e | e in Heads(bs) || e in Tails(bs) :: In(e, bs)
  {
    if bs != [] {
      PassesIn(bs[1..]);
      forall e | e in Heads(bs) || e in Tails(bs)
        ensures In(e, bs)
      {
        assert e in bs[0] || e in Heads(bs[1..]) || e in Tails(bs[1..]);
        if e !in bs[0] {
          var b :| 0 <= b < |bs[1..]| && e in bs[1..][b];
          assert e in bs[b + 1];
        }
      }
    }
  }

  ghost predicate InPlace(bs: seq<seq<Entry>>) {
    forall b, e | 0 <= b < |bs| && e in bs[b] :: e.okey % |bs| == b
  }

  lemma {:induction false} PlacedFrom(bs: seq<seq<Entry>>, es: seq<Entry>)
    requires bs != [] && InPlace(bs)
    ensures InPlace(PlaceAll(bs, es))
    ensures forall e | In(e, PlaceAll(bs, es)) :: In(e, bs) || e in es
    decreases |es|
  {
    if es != [] {
      var bs' := Place(bs, es[0]);
      assert forall b, e | 0 <= b < |bs'| && e in bs'[b] :: e == es[0] || e in bs[b];
      PlacedFrom(bs', es[1..]);
    }
  }

  lemma GrowLoose(t: Table, mem: Memory, size: nat)
    requires LooseTable(t, mem) && (size == 768 || size == 4608)
    ensures LooseTable(Grow(t, mem, size), mem)
  {
    var g, es := Grow(t, mem, size), Heads(t.buckets) + Tails(t.buckets);
    GrowConserves(t, mem, size);
    PlacedFrom(Unused(size), RekeyAll(t, mem, es));
    GrowLooseKeys(t, mem, size);
    assert forall b, e | 0 <= b < size && e in g.buckets[b] :: In(e, g.buckets);
    GrowLoosePointers(t, mem, size);
  }

  lemma GrowLooseKeys(t: Table, mem: Memory, size: nat)
    requires LooseTable(t, mem) && (size == 768 || size == 4608)
    ensures forall e | In(e, Grow(t, mem, size).buckets) :: OwnKey(size, mem, e) && Holds(t.pools, mem, e.ptr, e.len)
  {
    var es := Heads(t.buckets) + Tails(t.buckets);
    PassesIn(t.buckets);
    PlacedFrom(Unused(size), RekeyAll(t, mem, es));
    forall e | In(e, Grow(t, mem, size).buckets)
      ensures OwnKey(size, mem, e) && Holds(t.pools, mem, e.ptr, e.len)
    {
      assert e in RekeyAll(t, mem, es);
      var i :| 0 <= i < |es| && e == Rekey(t, mem, es[i]);
      assert es[i] in es;
      RekeyOwn(t, mem, es[i]);
    }
  }

  lemma RekeyOwn(t: Table, mem: Memory, e: Entry)
    requires LooseTable(t, mem) && In(e, t.buckets)
    ensures var r := Rekey(t, mem, e); r.okey == BigKey(TextOf(mem, r)) && Holds(t.pools, mem, r.ptr, r.len)
  {
    SameText'(mem, Rekey(t, mem, e), e);
    assert OwnKey(t.size, mem, e);
  }

  lemma GrowLoosePointers(t: Table, mem: Memory, size: nat)
    requires LooseTable(t, mem) && size > 0
    ensures var g := Grow(t, mem, size);
            forall e, f | In(e, g.buckets) && In(f, g.buckets) && e.ptr == f.ptr :: e.len == f.len
  {
    var g := Grow(t, mem, size);
    forall e, f | In(e, g.buckets) && In(f, g.buckets) && e.ptr == f.ptr
      ensures e.len == f.len
    {
      GrowCounterpart(t, mem, size, e);
      GrowCounterpart(t, mem, size, f);
    }
  }

  lemma GrowStored(w: World, size: nat, text: seq<Byte>, p: nat)
    requires size > 0 && Stored(w, text, p)
    ensures Stored(w.(t := Grow(w.t, w.mem, size)), text, p)
  {
    if e :| In(e, w.t.buckets) && TextOf(w.mem, e) == text && e.ptr == p {
      GrowCounterpart(w.t, w.mem, size, e);
      var f :| In(f, Grow(w.t, w.mem, size).buckets) && f.ptr == e.ptr && f.len == e.len;
      SameText'(w.mem, e, f);
    }
  }

  // --------------------------------------------------------------- one lookup, whole

  lemma AddedStored(w: World, text: seq<Byte>, okey: nat, at: nat)
    requires Loose(w) && CanStore(w, |text|, at) && (w.t.size != MIN_DICT_SIZE ==> okey == BigKey(text))
    ensures var w' := AddedWorld(w, text, okey, at);
            && Stored(w', text, Store(w.t.pools, w.mem, text, at).ptr)
            && forall x, p :: Stored(w, x, p) ==> Stored(w', x, p)
  {
    var w', st := AddedWorld(w, text, okey, at), Store(w.t.pools, w.mem, text, at);
    var e := Entry(st.ptr, |text|, okey);
    LooseAdded(w, text, okey, at);
    AppendIn(w.t, e, st.pools);
    assert In(e, w'.t.buckets) && TextOf(w'.mem, e) == text;
    forall x, p | Stored(w, x, p)
      ensures Stored(w', x, p)
    {
      if f :| In(f, w.t.buckets) && TextOf(w.mem, f) == x && f.ptr == p {
        assert In(f, w'.t.buckets) && TextOf(w'.mem, f) == x;
      } else {
        var f :| In(f, w.sub.value.buckets) && TextOf(w.mem, f) == x && f.ptr == p;
        assert TextOf(w'.mem, f) == x;
      }
    }
  }

  /** Any lookup, on tables of any size: the invariant is kept, the text is stored at the
      returned pointer, and what was stored before is still where it was. */
  lemma AskStep(w: World, r: Request, at: nat)
    requires Loose(w) && CanStore(w, |Wanted(r)|, at)
    ensures var f := Ask(w, r, at);
            && Loose(f.w) && f.w.sub == w.sub && Stored(f.w, Wanted(r), f.ptr) && Extends(w.mem, f.w.mem)
            && forall x, p :: Stored(w, x, p) ==> Stored(f.w, x, p)
  {
    var skey, text, okey := if w.sub.Some? then KeyOf(w.sub.value.size, r) else 0, Wanted(r), KeyOf(w.t.size, r);
    AskSearches(w, r, at);
    if Search(w, text, okey, skey, CanMatch(r)).Some? {
      FoundStored(w, text, okey, skey, CanMatch(r));
    } else {
      if w.t.size != MIN_DICT_SIZE {
        LargeKey(w.t.size, r);
      }
      AddStep(w, text, okey, skey, at);
    }
  }

  lemma AddStep(w: World, text: seq<Byte>, okey: nat, skey: nat, at: nat)
    requires Loose(w) && CanStore(w, |text|, at) && (w.t.size != MIN_DICT_SIZE ==> okey == BigKey(text))
    ensures var f := AddNew(w, text, okey, skey, at);
            && Loose(f.w) && f.w.sub == w.sub && Stored(f.w, text, f.ptr) && Extends(w.mem, f.w.mem)
            && forall x, p :: Stored(w, x, p) ==> Stored(f.w, x, p)
  {
    var f, a := AddNew(w, text, okey, skey, at), AddedWorld(w, text, okey, at);
    LooseAdded(w, text, okey, at);
    AddedStored(w, text, okey, at);
    if f.w != a {
      GrownStep(a);
    }
  }

  lemma GrownStep(a: World)
    requires Loose(a) && a.t.size <= GROW_LIMIT
    ensures var g := a.(t := Grow(a.t, a.mem, MAX_HASH_LEN * 2 * a.t.size));
            Loose(g) && forall x, p :: Stored(a, x, p) ==> Stored(g, x, p)
  {
    var size := MAX_HASH_LEN * 2 * a.t.size;
    GrowLoose(a.t, a.mem, size);
    forall x, p | Stored(a, x, p)
      ensures Stored(a.(t := Grow(a.t, a.mem, size)), x, p)
    {
      GrowStored(a, size, x, p);
    }
  }

  /** What is stored stands there, terminated, in memory of the two dictionaries. */
  lemma StoredStands(w: World, text: seq<Byte>, p: nat)
    requires Loose(w) && Stored(w, text, p)
    ensures Stands(w.t.pools + SubPools(w), w.mem, p, text)
  {
    if e :| In(e, w.t.buckets) && TextOf(w.mem, e) == text && e.ptr == p {
      HeldOwned(w.t.pools, w.mem, e.ptr, e.len);
    } else {
      var e :| In(e, w.sub.value.buckets) && TextOf(w.mem, e) == text && e.ptr == p;
      HeldOwned(w.sub.value.pools, w.mem, e.ptr, e.len);
    }
    StandsPart(w.t.pools, SubPools(w), w.mem, p, text);
  }

  // -------------------------------------------------------------------------- runs

  datatype Call = Call(request: Request, at: nat)

  ghost predicate CallsOK(w: World, cs: seq<Call>)
    requires Loose(w)
    decreases |cs|
  {
    cs != [] ==>
      && CanStore(w, |Wanted(cs[0].request)|, cs[0].at)
      && (AskStep(w, cs[0].request, cs[0].at);
          CallsOK(Ask(w, cs[0].request, cs[0].at).w, cs[1..]))
  }

  ghost function RunCalls(w: World, cs: seq<Call>): (r: (World, seq<nat>))
    requires Loose(w) && CallsOK(w, cs)
    ensures Loose(r.0) && |r.1| == |cs|
    decreases |cs|
  {
    if cs == [] then (w, [])
    else
      AskStep(w, cs[0].request, cs[0].at);
      var f := Ask(w, cs[0].request, cs[0].at);
      var (w', ps) := RunCalls(f.w, cs[1..]);
      (w', [f.ptr] + ps)
  }

  lemma {:induction false} CallsKeep(w: World, cs: seq<Call>)
    requires Loose(w) && CallsOK(w, cs)
    ensures var (w', ps) := RunCalls(w, cs);
            && (forall x, p :: Stored(w, x, p) ==> Stored(w', x, p))
            && forall i | 0 <= i < |cs| :: Stored(w', Wanted(cs[i].request), ps[i])
    decreases |cs|
  {
    if cs != [] {
      AskStep(w, cs[0].request, cs[0].at);
      var f := Ask(w, cs[0].request, cs[0].at);
      CallsKeep(f.w, cs[1..]);
      var (w', ps) := RunCalls(w, cs);
      forall i | 0 <= i < |cs|
        ensures Stored(w', Wanted(cs[i].request), ps[i])
      {
        if i > 0 {
          assert cs[i] == cs[1..][i - 1] && ps[i] == ps[1..][i - 1];
        }
      }
    }
  }

  lemma StoredInjective(w: World, x: seq<Byte>, y: seq<Byte>, p: nat)
    requires Loose(w) && Stored(w, x, p) && Stored(w, y, p)
    ensures x == y
  {
    if e, f :| In(e, w.t.buckets) && TextOf(w.mem, e) == x && e.ptr == p
               && In(f, w.t.buckets) && TextOf(w.mem, f) == y && f.ptr == p {
      SameText'(w.mem, e, f);
    } else if e, f :| w.sub.Some? && In(e, w.sub.value.buckets) && TextOf(w.mem, e) == x && e.ptr == p
                      && In(f, w.sub.value.buckets) && TextOf(w.mem, f) == y && f.ptr == p {
      SameText'(w.mem, e, f);
    } else {
      var e :| In(e, w.t.buckets) && e.ptr == p;
      var f :| In(f, w.sub.value.buckets) && f.ptr == p;
      ApartLoose(w, e, f);
      assert false;
    }
  }

  lemma ApartLoose(w: World, e: Entry, f: Entry)
    requires Loose(w) && w.sub.Some? && In(e, w.t.buckets) && In(f, w.sub.value.buckets)
    ensures e.ptr != f.ptr
  {
    var all := w.t.pools + w.sub.value.pools;
    assert Holds(w.t.pools, w.mem, e.ptr, e.len) && Holds(w.sub.value.pools, w.mem, f.ptr, f.len);
    var a :| a in w.t.pools && a.base <= e.ptr && e.ptr + e.len + 1 <= a.free;
    var b :| b in w.sub.value.pools && b.base <= f.ptr && f.ptr + f.len + 1 <= b.free;
    var i :| 0 <= i < |w.t.pools| && w.t.pools[i] == a;
    var j :| 0 <= j < |w.sub.value.pools| && w.sub.value.pools[j] == b;
    assert all[i] == a && all[|w.t.pools| + j] == b;
    assert BlockOK(all[i], w.mem) && BlockOK(all[|w.t.pools| + j], w.mem);
    assert Disjoint(all[i], all[|w.t.pools| + j]);
  }

  /** Over every run of plain and prefixed lookups, on tables of every size: each pointer
      returned on the way points to its text, terminated, and equal pointers mean equal
      texts. */
  lemma MixedRunStores(w: World, cs: seq<Call>, i: nat, j: nat)
    requires Loose(w) && CallsOK(w, cs) && i < |cs| && j < |cs|
    ensures var (w', ps) := RunCalls(w, cs);
            && Stands(w'.t.pools + SubPools(w'), w'.mem, ps[i], Wanted(cs[i].request))
            && (ps[i] == ps[j] ==> Wanted(cs[i].request) == Wanted(cs[j].request))
  {
    var (w', ps) := RunCalls(w, cs);
    CallsKeep(w, cs);
    StoredStands(w', Wanted(cs[i].request), ps[i]);
    if ps[i] == ps[j] {
      StoredInjective(w', Wanted(cs[i].request), Wanted(cs[j].request), ps[i]);
    }
  }

  // ----------------------------------------------------- the same request once more

  lemma {:induction false} FindLast(chain: seq<Entry>, e: Entry, okey: nat, text: seq<Byte>, mem: Memory)
    requires FindIn(chain, okey, text, mem).None? && Matches(e, okey, text, mem)
    ensures FindIn(chain + [e], okey, text, mem) == Some(e)
  {
    if chain != [] {
      assert (chain + [e])[1..] == chain[1..] + [e];
      FindLast(chain[1..], e, okey, text, mem);
    }
  }

  lemma FindMoved(chain: seq<Entry>, okey: nat, text: seq<Byte>, mem: Memory, mem': Memory)
    requires FindIn(chain, okey, text, mem).None? && forall e | e in chain :: TextOf(mem', e) == TextOf(mem, e)
    ensures FindIn(chain, okey, text, mem').None?
  {
  }

  /** Without growth the new entry is found at once. */
  lemma AgainUngrown(w: World, r: Request, at: nat, at': nat)
    requires Loose(w) && CanStore(w, |Wanted(r)|, at) && CanMatch(r)
    requires Ask(w, r, at).w.t.size == w.t.size
    ensures var f := Ask(w, r, at); Loose(f.w) && Ask(f.w, r, at') == Found(f.w, f.ptr)
  {
    var text, okey := Wanted(r), KeyOf(w.t.size, r);
    var skey := if w.sub.Some? then KeyOf(w.sub.value.size, r) else 0;
    AskStep(w, r, at);
    AskSearches(w, r, at);
    AskSearches(Ask(w, r, at).w, r, at');
    if Search(w, text, okey, skey, true).None? {
      if w.t.size != MIN_DICT_SIZE {
        LargeKey(w.t.size, r);
      }
      NewFound(w, text, okey, skey, at);
    }
  }

  lemma NewFound(w: World, text: seq<Byte>, okey: nat, skey: nat, at: nat)
    requires Loose(w) && CanStore(w, |text|, at) && (w.t.size != MIN_DICT_SIZE ==> okey == BigKey(text))
    requires Search(w, text, okey, skey, true).None? && AddNew(w, text, okey, skey, at).w.t.size == w.t.size
    ensures var f := AddNew(w, text, okey, skey, at);
            WellShaped(f.w) && Search(f.w, text, okey, skey, true) == Some(f.ptr)
  {
    var a, ptr := AddedWorld(w, text, okey, at), Store(w.t.pools, w.mem, text, at).ptr;
    AddedIs(w, text, okey, skey, at);
    LooseAdded(w, text, okey, at);
    var chain := ChainOf(w.t, okey);
    assert forall e | e in chain :: In(e, w.t.buckets);
    FindMoved(chain, okey, text, w.mem, a.mem);
    FindLast(chain, Entry(ptr, |text|, okey), okey, text, a.mem);
  }

  /** A new entry, and growth or not. */
  lemma AddedIs(w: World, text: seq<Byte>, okey: nat, skey: nat, at: nat)
    requires WellShaped(w)
    ensures var a := AddedWorld(w, text, okey, at); var f := AddNew(w, text, okey, skey, at);
            var e := Entry(f.ptr, |text|, okey);
            && f.ptr == Store(w.t.pools, w.mem, text, at).ptr
            && WellShaped(a) && a.t.size == w.t.size && ChainOf(a.t, okey) == ChainOf(w.t, okey) + [e]
            && In(e, a.t.buckets)
            && (f.w.t.size == w.t.size ==> f.w == a)
            && (f.w.t.size != w.t.size ==> w.t.size <= GROW_LIMIT && f.w == a.(t := Grow(a.t, a.mem, MAX_HASH_LEN * 2 * w.t.size)))
  {
    var a, st := AddedWorld(w, text, okey, at), Store(w.t.pools, w.mem, text, at);
    AppendIn(w.t, Entry(st.ptr, |text|, okey), st.pools);
  }

  // ------------------------------------------------- which of two copies growth favours

  /** Of a list of entries, those that go into bucket `k` of `n`. */
  function Going(es: seq<Entry>, k: nat, n: nat): seq<Entry>
    requires n > 0
  {
    if es == [] then []
    else (if es[0].okey % n == k then [es[0]] else []) + Going(es[1..], k, n)
  }

  /** A bucket after more entries came in, each right after the inline entry. */
  function Filled(chain: seq<Entry>, es: seq<Entry>): seq<Entry>
    decreases |es|
  {
    if es == [] then chain
    else Filled(if chain == [] then [es[0]] else [chain[0], es[0]] + chain[1..], es[1..])
  }

  lemma {:induction false} BucketFills(bs: seq<seq<Entry>>, es: seq<Entry>, k: nat)
    requires k < |bs|
    ensures PlaceAll(bs, es)[k] == Filled(bs[k], Going(es, k, |bs|))
    decreases |es|
  {
    if es != [] {
      BucketFills(Place(bs, es[0]), es[1..], k);
      assert es[0].okey % |bs| == k ==> Going(es, k, |bs|)[1..] == Going(es[1..], k, |bs|);
      assert es[0].okey % |bs| != k ==> Going(es, k, |bs|) == Going(es[1..], k, |bs|);
    }
  }

  /** The entry with the text that comes last. */
  function LastWith(es: seq<Entry>, mem: Memory, text: seq<Byte>): Option<Entry> {
    if es == [] then None
    else if TextOf(mem, es[|es| - 1]) == text then Some(es[|es| - 1])
    else LastWith(es[..|es| - 1], mem, text)
  }

  /** The entry a search finds after growth: the first of its bucket to be moved if
      it has the text, else the last one moved. */
  function Favoured(es: seq<Entry>, mem: Memory, text: seq<Byte>): Option<Entry> {
    if es != [] && TextOf(mem, es[0]) == text then Some(es[0]) else LastWith(es, mem, text)
  }

  function Reversed(es: seq<Entry>): seq<Entry> {
    if es == [] then [] else [es[|es| - 1]] + Reversed(es[..|es| - 1])
  }

  lemma {:induction false} ReversedCons(e: Entry, es: seq<Entry>)
    ensures Reversed([e] + es) == Reversed(es) + [e]
  {
    if es == [] {
      assert [e] + es == [e] && [e][..0] == [];
    } else {
      var last, rest := es[|es| - 1], es[..|es| - 1];
      assert ([e] + es)[..|es|] == [e] + rest;
      ReversedCons(e, rest);
      assert [last] + (Reversed(rest) + [e]) == [last] + Reversed(rest) + [e];
    }
  }

  /** Behind the inline entry the order is reversed. */
  lemma {:induction false} FilledReverses(e: Entry, rest: seq<Entry>, es: seq<Entry>)
    ensures Filled([e] + rest, es) == [e] + Reversed(es) + rest
    decreases |es|
  {
    if es == [] {
      assert [e] + [] + rest == [e] + rest;
    } else {
      assert es == [es[0]] + es[1..];
      assert ([e] + rest)[1..] == rest && [e, es[0]] + rest == [e] + ([es[0]] + rest);
      FilledReverses(e, [es[0]] + rest, es[1..]);
      ReversedCons(es[0], es[1..]);
    }
  }

  lemma {:induction false} FindReversed(es: seq<Entry>, okey: nat, text: seq<Byte>, mem: Memory)
    requires forall e | e in es :: TextOf(mem, e) == text ==> Matches(e, okey, text, mem)
    ensures FindIn(Reversed(es), okey, text, mem) == LastWith(es, mem, text)
  {
    if es != [] {
      var rest := es[..|es| - 1];
      assert es[|es| - 1] in es && forall e | e in rest :: e in es;
      assert Reversed(es)[1..] == Reversed(rest);
      FindReversed(rest, okey, text, mem);
    }
  }

  lemma {:induction false} LastBehind(e: Entry, es: seq<Entry>, mem: Memory, text: seq<Byte>)
    requires TextOf(mem, e) != text
    ensures LastWith([e] + es, mem, text) == LastWith(es, mem, text)
  {
    if es != [] {
      assert ([e] + es)[..|es|] == [e] + es[..|es| - 1];
      LastBehind(e, es[..|es| - 1], mem, text);
    } else {
      assert [e] + es == [e] && [e][..0] == [];
    }
  }

  lemma FindFilled(es: seq<Entry>, okey: nat, text: seq<Byte>, mem: Memory)
    requires forall e | e in es :: TextOf(mem, e) == text ==> Matches(e, okey, text, mem)
    ensures FindIn(Filled([], es), okey, text, mem) == Favoured(es, mem, text)
  {
    if es != [] {
      var first, rest := es[0], es[1..];
      assert es == [first] + rest && first in es && forall e | e in rest :: e in es;
      assert [first] + [] == [first];
      FilledReverses(first, [], rest);
      assert [first] + Reversed(rest) + [] == [first] + Reversed(rest);
      assert ([first] + Reversed(rest))[1..] == Reversed(rest);
      FindReversed(rest, okey, text, mem);
      if TextOf(mem, first) != text {
        LastBehind(first, rest, mem, text);
      }
    }
  }

  /** The entries in the order a growth moves them into the bucket of a text. */
  function Moved(t: Table, mem: Memory, text: seq<Byte>, size: nat): seq<Entry>
    requires size > 0
  {
    Going(RekeyAll(t, mem, Heads(t.buckets) + Tails(t.buckets)), BigKey(text) % size, size)
  }

  lemma {:induction false} GoingFrom(es: seq<Entry>, k: nat, n: nat)
    requires n > 0
    ensures forall e :: e in Going(es, k, n) <==> e in es && e.okey % n == k
  {
    if es != [] {
      GoingFrom(es[1..], k, n);
      assert es == [es[0]] + es[1..];
    }
  }

  lemma FoundAfterGrowth(t: Table, mem: Memory, text: seq<Byte>, size: nat)
    requires LooseTable(t, mem) && (size == 768 || size == 4608)
    ensures FindIn(ChainOf(Grow(t, mem, size), BigKey(text)), BigKey(text), text, mem)
            == Favoured(Moved(t, mem, text, size), mem, text)
  {
    var es := Heads(t.buckets) + Tails(t.buckets);
    var rs, k := RekeyAll(t, mem, es), BigKey(text) % size;
    BucketFills(Unused(size), rs, k);
    GoingFrom(rs, k, size);
    PassesIn(t.buckets);
    forall e | e in Going(rs, k, size)
      ensures e.okey == BigKey(TextOf(mem, e))
    {
      var i :| 0 <= i < |es| && e == Rekey(t, mem, es[i]);
      assert es[i] in es;
      RekeyOwn(t, mem, es[i]);
    }
    FindFilled(Going(rs, k, size), BigKey(text), text, mem);
  }

  lemma SomeFound(t: Table, mem: Memory, text: seq<Byte>, size: nat, e: Entry)
    requires LooseTable(t, mem) && (size == 768 || size == 4608)
    requires In(e, t.buckets) && TextOf(mem, e) == text
    ensures FindIn(ChainOf(Grow(t, mem, size), BigKey(text)), BigKey(text), text, mem).Some?
  {
    var g := Grow(t, mem, size);
    GrowLoose(t, mem, size);
    GrowCounterpart(t, mem, size, e);
    var f :| In(f, g.buckets) && f.ptr == e.ptr && f.len == e.len;
    SameText'(mem, f, e);
    var b :| 0 <= b < size && f in g.buckets[b];
    assert OwnKey(size, mem, f);
  }

  /** The exact condition for the same request to return the same pointer at once, for
      every state and both kinds of lookup: always, unless the first of them made the
      table grow and the growth favours another copy of the text. */
  lemma AgainIff(w: World, r: Request, at: nat, at': nat)
    requires Loose(w) && CanStore(w, |Wanted(r)|, at) && CanMatch(r)
    ensures var f := Ask(w, r, at); var a := AddedWorld(w, Wanted(r), KeyOf(w.t.size, r), at);
            Loose(f.w)
            && (Ask(f.w, r, at').ptr == f.ptr <==>
                f.w.t.size == w.t.size || (f.w.t.size > 0 && FavouredPtr(a.t, a.mem, Wanted(r), f.w.t.size) == Some(f.ptr)))
  {
    var f, text, okey := Ask(w, r, at), Wanted(r), KeyOf(w.t.size, r);
    AskStep(w, r, at);
    if f.w.t.size == w.t.size {
      AgainUngrown(w, r, at, at');
    } else {
      AgainGrown(w, r, at, at');
    }
  }

  function FavouredPtr(t: Table, mem: Memory, text: seq<Byte>, size: nat): Option<nat>
    requires size > 0
  {
    match Favoured(Moved(t, mem, text, size), mem, text)
    case None => None
    case Some(e) => Some(e.ptr)
  }

  lemma AgainGrown(w: World, r: Request, at: nat, at': nat)
    requires Loose(w) && CanStore(w, |Wanted(r)|, at) && CanMatch(r) && Ask(w, r, at).w.t.size != w.t.size
    ensures var f := Ask(w, r, at); var a := AddedWorld(w, Wanted(r), KeyOf(w.t.size, r), at);
            && Loose(f.w) && f.w.t.size > 0
            && FavouredPtr(a.t, a.mem, Wanted(r), f.w.t.size) == Some(Ask(f.w, r, at').ptr)
  {
    var text, okey := Wanted(r), KeyOf(w.t.size, r);
    var skey := if w.sub.Some? then KeyOf(w.sub.value.size, r) else 0;
    AskStep(w, r, at);
    AskSearches(w, r, at);
    AddedIs(w, text, okey, skey, at);
    if w.t.size != MIN_DICT_SIZE {
      LargeKey(w.t.size, r);
    }
    LooseAdded(w, text, okey, at);
    AskAfterGrowth(Ask(w, r, at).w, AddedWorld(w, text, okey, at), r, at', Entry(Ask(w, r, at).ptr, |text|, okey));
  }

  lemma AskAfterGrowth(g: World, a: World, r: Request, at': nat, e: Entry)
    requires Loose(a) && a.t.size <= GROW_LIMIT && g == a.(t := Grow(a.t, a.mem, MAX_HASH_LEN * 2 * a.t.size))
    requires In(e, a.t.buckets) && TextOf(a.mem, e) == Wanted(r) && CanMatch(r)
    ensures WellShaped(g) && FavouredPtr(a.t, a.mem, Wanted(r), g.t.size) == Some(Ask(g, r, at').ptr)
  {
    GrownFindsIn(a, Wanted(r), MAX_HASH_LEN * 2 * a.t.size, e);
    AskSearches(g, r, at');
    LargeKey(g.t.size, r);
  }

  lemma GrownFindsIn(a: World, text: seq<Byte>, size: nat, e: Entry)
    requires Loose(a) && (size == 768 || size == 4608) && In(e, a.t.buckets) && TextOf(a.mem, e) == text
    ensures var g := a.(t := Grow(a.t, a.mem, size)); var r := FindIn(ChainOf(g.t, BigKey(text)), BigKey(text), text, g.mem);
            WellShaped(g) && g.t.size == size && r.Some? && FavouredPtr(a.t, a.mem, text, size) == Some(r.value.ptr)
  {
    FoundAfterGrowth(a.t, a.mem, text, size);
    SomeFound(a.t, a.mem, text, size, e);
    GrowConserves(a.t, a.mem, size);
  }

  lemma {:induction false} LastWithIn(es: seq<Entry>, mem: Memory, text: seq<Byte>)
    ensures LastWith(es, mem, text).Some? ==> LastWith(es, mem, text).value in es && TextOf(mem, LastWith(es, mem, text).value) == text
  {
    if es != [] {
      LastWithIn(es[..|es| - 1], mem, text);
    }
  }

  lemma FavouredIn(t: Table, mem: Memory, text: seq<Byte>, size: nat)
    requires size > 0 && FavouredPtr(t, mem, text, size).Some?
    ensures exists e :: In(e, t.buckets) && TextOf(mem, e) == text && e.ptr == FavouredPtr(t, mem, text, size).value
  {
    var es := Heads(t.buckets) + Tails(t.buckets);
    var rs, l := RekeyAll(t, mem, es), Moved(t, mem, text, size);
    LastWithIn(l, mem, text);
    GoingFrom(rs, BigKey(text) % size, size);
    PassesIn(t.buckets);
    var e := Favoured(l, mem, text).value;
    assert e in rs;
    var i :| 0 <= i < |es| && e == Rekey(t, mem, es[i]);
    assert es[i] in es;
    SameText'(mem, e, es[i]);
  }

  /** In particular a text that was not stored locally before is found again where it was
      put, whatever its key and whether or not the table grew. */
  lemma FirstCopyAgain(w: World, r: Request, at: nat, at': nat)
    requires Loose(w) && CanStore(w, |Wanted(r)|, at) && CanMatch(r)
    requires forall e | In(e, w.t.buckets) :: TextOf(w.mem, e) != Wanted(r)
    ensures var f := Ask(w, r, at); Loose(f.w) && Ask(f.w, r, at').ptr == f.ptr
  {
    var f, text, okey := Ask(w, r, at), Wanted(r), KeyOf(w.t.size, r);
    AskStep(w, r, at);
    AgainIff(w, r, at, at');
    if f.w.t.size != w.t.size {
      if w.t.size != MIN_DICT_SIZE {
        LargeKey(w.t.size, r);
      }
      AskSearches(w, r, at);
      var st := Store(w.t.pools, w.mem, text, at);
      LooseAdded(w, text, okey, at);
      AppendIn(w.t, Entry(st.ptr, |text|, okey), st.pools);
      AgainGrown(w, r, at, at');
      FavouredIn(AddedWorld(w, text, okey, at).t, st.mem, text, f.w.t.size);
    }
  }

  // ------------------------------------------------------------------- a witness

  /** The strings "a:b" and five others of two bytes, as the pool holds them. */
  const CROWD: seq<Byte> := [97, 58, 98, 0, 4, 63, 0, 8, 63, 0, 12, 63, 0, 16, 63, 0, 20, 63, 0]

  function CrowdMemory(): Memory {
    map a: nat | 0 <= a < 19 :: CROWD[a]
  }

  const CHAIN: seq<Entry> := [Entry(4, 2, 191), Entry(7, 2, 319), Entry(10, 2, 447), Entry(13, 2, 575), Entry(16, 2, 703)]

  /** "a:b" was looked up plainly, and the bucket of its prefixed key is full of others. */
  function Crowded(): World {
    World(Table(128, 6, Unused(128)[60 := [Entry(0, 3, 3260)]][63 := CHAIN], [Pool(0, 1000, 19)]), None, CrowdMemory())
  }

  lemma {:induction false} FirstHead(bs: seq<seq<Entry>>, k: nat)
    requires k < |bs| && bs[k] != [] && forall i | 0 <= i < k :: bs[i] == []
    ensures Heads(bs) != [] && Heads(bs)[0] == bs[k][0]
  {
    if k > 0 {
      assert forall i | 0 <= i < k - 1 :: bs[1..][i] == bs[i + 1];
      FirstHead(bs[1..], k - 1);
    }
  }

  lemma {:induction false} TotalOfTwo(bs: seq<seq<Entry>>, i: nat, j: nat)
    requires i < j < |bs| && forall k | 0 <= k < |bs| && k != i && k != j :: bs[k] == []
    ensures Total(bs) == |bs[i]| + |bs[j]|
    decreases j
  {
    if i > 0 {
      TotalOfTwo(bs[1..], i - 1, j - 1);
    } else {
      TotalOfOne(bs[1..], j - 1);
    }
  }

  lemma {:induction false} TotalOfOne(bs: seq<seq<Entry>>, j: nat)
    requires j < |bs| && forall k | 0 <= k < |bs| && k != j :: bs[k] == []
    ensures Total(bs) == |bs[j]|
  {
    if j > 0 {
      TotalOfOne(bs[1..], j - 1);
    } else {
      TotalOfNone(bs[1..]);
    }
  }

  lemma {:induction false} TotalOfNone(bs: seq<seq<Entry>>)
    requires forall k | 0 <= k < |bs| :: bs[k] == []
    ensures Total(bs) == 0
  {
    if bs != [] {
      TotalOfNone(bs[1..]);
    }
  }

  /** Buckets with one string, and with the others under one bucket number. */
  ghost predicate TwoUsed(bs: seq<seq<Entry>>) {
    && |bs| == 128 && bs[60] == [Entry(0, 3, 3260)] && bs[63] == CHAIN
    && forall k | 0 <= k < 128 && k != 60 && k != 63 :: bs[k] == []
  }

  lemma TwoUsedIn(bs: seq<seq<Entry>>)
    requires TwoUsed(bs)
    ensures forall e | In(e, bs) :: e == Entry(0, 3, 3260) || e in CHAIN
    ensures forall b, e | 0 <= b < 128 && e in bs[b] :: e.okey % 128 == b
    ensures Total(bs) == 6
  {
    TotalOfTwo(bs, 60, 63);
    assert forall e | e in CHAIN :: e.okey % 128 == 63;
  }

  lemma CrowdedHolds(pools: seq<Pool>, mem: Memory)
    requires pools == [Pool(0, 1000, 19)] && mem == CrowdMemory()
    ensures Sound(pools, mem)
    ensures forall e | e == Entry(0, 3, 3260) || e in CHAIN :: Holds(pools, mem, e.ptr, e.len)
  {
    assert pools[0] in pools;
    assert forall e | e == Entry(0, 3, 3260) || e in CHAIN :: Ends(mem, e.ptr + e.len) && e.ptr + e.len < 19;
  }

  lemma CrowdedTable(t: Table, mem: Memory)
    requires t == Table(128, 6, t.buckets, [Pool(0, 1000, 19)]) && TwoUsed(t.buckets) && mem == CrowdMemory()
    ensures LooseTable(t, mem) && Sound(t.pools, mem)
  {
    TwoUsedIn(t.buckets);
    CrowdedHolds(t.pools, mem);
  }

  lemma CrowdedLoose()
    ensures Loose(Crowded())
  {
    var w := Crowded();
    assert TwoUsed(w.t.buckets);
    CrowdedTable(w.t, w.mem);
    assert w.t.pools + SubPools(w) == w.t.pools;
  }

  lemma CrowdKeys(stray: Byte)
    ensures FastQKey([97], [98], stray) == 3007 && [97] + [COLON] + [98] == [97, 58, 98]
  {
    assert [97][..1] == [97] && [97][..0] == [] && [98][..0] == [];
    assert Sum([97]) == Sum([97][..0]) + 97 == 97;
  }

  /** A prefixed lookup of "a:b" there stores a second copy and makes the table grow;
      the same lookup at once afterwards returns the first. */
  lemma GrowthForgets(stray: Byte, at: nat, at': nat)
    ensures var w := Crowded(); var r := Prefixed([97], [98], stray);
            && Loose(w) && CanStore(w, |Wanted(r)|, at) && WellShaped(Ask(w, r, at).w)
            && Ask(w, r, at).ptr == 19 && Ask(Ask(w, r, at).w, r, at').ptr == 0
  {
    var w, r := Crowded(), Prefixed([97], [98], stray);
    CrowdedLoose();
    CrowdKeys(stray);
    CrowdGrows(w, r, stray, at);
    AskStep(w, r, at);
    AgainGrown(w, r, at, at');
    CrowdFavours(w, at);
  }

  lemma CrowdGrows(w: World, r: Request, stray: Byte, at: nat)
    requires w == Crowded() && r == Prefixed([97], [98], stray) && Loose(w)
    ensures CanStore(w, |Wanted(r)|, at) && Ask(w, r, at).ptr == 19 && Ask(w, r, at).w.t.size == 768
    ensures KeyOf(w.t.size, r) == 3007
  {
    CrowdKeys(stray);
    AskSearches(w, r, at);
    CrowdMisses(w, Wanted(r));
    CrowdStores(w, Wanted(r), at);
    AddedGrows(w, Wanted(r), 3007, 0, at);
    AddedIs(w, Wanted(r), 3007, 0, at);
    GrowsIff(w, r, at);
  }

  lemma CrowdMisses(w: World, text: seq<Byte>)
    requires w == Crowded()
    ensures ChainOf(w.t, 3007) == CHAIN && Search(w, text, 3007, 0, true) == None && SubChain(w, 0) == []
  {
    assert forall e | e in CHAIN :: e.okey != 3007;
  }

  lemma CrowdStores(w: World, text: seq<Byte>, at: nat)
    requires w == Crowded() && |text| == 3
    ensures CanStore(w, 3, at) && Store(w.t.pools, w.mem, text, at).ptr == 19
  {
    assert PoolFor(w.t.pools, 3) == Some(0);
  }

  lemma CrowdFavours(w: World, at: nat)
    requires w == Crowded()
    ensures var a := AddedWorld(w, [97, 58, 98], 3007, at); FavouredPtr(a.t, a.mem, [97, 58, 98], 768) == Some(0)
  {
    var text: seq<Byte> := [97, 58, 98];
    var a := AddedWorld(w, text, 3007, at);
    FirstHead(a.t.buckets, 60);
    var es := Heads(a.t.buckets) + Tails(a.t.buckets);
    assert es[0] == Entry(0, 3, 3260);
    assert PoolFor(w.t.pools, 3) == Some(0);
    WriteFresh(w.mem, 19, text + [0]);
    assert TextAt(a.mem, 0, 3) == text;
  }
}
