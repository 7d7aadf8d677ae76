/** Interning: lookups on a dictionary with an optional read-only sub-dictionary, and
    what holds over every run of them. */
module DictLookup {

  import opened Optional
  import opened Bytes
  import opened DictHash
  import opened DictPool
  import opened DictTable

  /** A dictionary, its sub-dictionary and the memory both keep their strings in. */
  datatype World = World(t: Table, sub: Option<Table>, mem: Memory)

  datatype Found = Found(w: World, ptr: nat)

  ghost predicate WellShaped(w: World) {
    Shaped(w.t) && (w.sub.Some? ==> Shaped(w.sub.value))
  }

  // ------------------------------------------------------------- the operations

  /** The key used to search the sub-dictionary: recomputed only when exactly one of
      the two tables is small. */
  function SubKey(size: nat, subSize: nat, okey: nat, recomputed: nat): nat {
    if (size == MIN_DICT_SIZE) != (subSize == MIN_DICT_SIZE) then recomputed else okey
  }

  function SubChain(w: World, skey: nat): seq<Entry>
    requires WellShaped(w)
  {
    if w.sub.Some? then ChainOf(w.sub.value, skey) else []
  }

  /** The search common to all lookups; `canMatch` is false when the comparison used
      can never succeed. */
  function Search(w: World, text: seq<Byte>, okey: nat, skey: nat, canMatch: bool): Option<nat>
    requires WellShaped(w)
  {
    if !canMatch then None
    else
      match FindIn(ChainOf(w.t, okey), okey, text, w.mem)
      case Some(e) => Some(e.ptr)
      case None =>
        match FindIn(SubChain(w, skey), skey, text, w.mem)
        case Some(e) => Some(e.ptr)
        case None => None
  }

  /** The table with a new last entry in the chain of `okey`. */
  function Append(t: Table, e: Entry, pools: seq<Pool>): Table
    requires Shaped(t)
  {
    t.(buckets := t.buckets[e.okey % t.size := ChainOf(t, e.okey) + [e]], nbElems := t.nbElems + 1, pools := pools)
  }

  predicate MustGrow(t: Table, hops: nat) {
    hops > MAX_HASH_LEN && t.size <= GROW_LIMIT
  }

  function AddNew(w: World, text: seq<Byte>, okey: nat, skey: nat, at: nat): Found
    requires WellShaped(w)
  {
    var st := Store(w.t.pools, w.mem, text, at);
    var t := Append(w.t, Entry(st.ptr, |text|, okey), st.pools);
    var hops := Hops(ChainOf(w.t, okey)) + Hops(SubChain(w, skey));
    Found(World(if MustGrow(w.t, hops) then Grow(t, st.mem, MAX_HASH_LEN * 2 * t.size) else t, w.sub, st.mem), st.ptr)
  }

  function LookupBy(w: World, text: seq<Byte>, okey: nat, skey: nat, canMatch: bool, at: nat): Found
    requires WellShaped(w)
  {
    match Search(w, text, okey, skey, canMatch)
    case Some(ptr) => Found(w, ptr)
    case None => AddNew(w, text, okey, skey, at)
  }

  function SubKeyFor(w: World, name: Name): nat {
    if w.sub.None? then 0
    else SubKey(w.t.size, w.sub.value.size, Key(w.t.size, name), Key(w.sub.value.size, name))
  }

  /** xmlDictLookup. */
  function Lookup(w: World, name: Name, at: nat): Found
    requires WellShaped(w)
  {
    LookupBy(w, name.text, Key(w.t.size, name), SubKeyFor(w, name), true, at)
  }

  /** xmlDictExists. */
  function Exists(w: World, name: Name): Option<nat>
    requires WellShaped(w)
  {
    Search(w, name.text, Key(w.t.size, name), SubKeyFor(w, name), true)
  }

  /** xmlDictComputeQKey with a prefix. */
  function QKey(size: nat, prefix: seq<Byte>, name: seq<Byte>, stray: Byte): nat {
    if size == MIN_DICT_SIZE then FastQKey(prefix, name, stray) else BigQKey(prefix, name)
  }

  /** xmlDictQLookup with a prefix.  The comparison it uses, xmlStrQEqual, compares
      the first byte of the prefix before testing for its end, so it never
      succeeds on an empty prefix. */
  function QLookup(w: World, prefix: seq<Byte>, name: seq<Byte>, stray: Byte, at: nat): Found
    requires WellShaped(w)
  {
    var okey := QKey(w.t.size, prefix, name, stray);
    var skey := if w.sub.None? then 0
                else SubKey(w.t.size, w.sub.value.size, okey, QKey(w.sub.value.size, prefix, name, stray));
    LookupBy(w, prefix + [COLON] + name, okey, skey, prefix != [], at)
  }

  // ---------------------------------------------------------------- invariants

  ghost predicate TableOK(t: Table, mem: Memory, next: Byte) {
    && (t.size == 128 || t.size == 768 || t.size == 4608)
    && Placed(t.buckets, t.size, mem, next) && Unique(t.buckets, mem)
    && t.nbElems == Total(t.buckets)
    && (forall e | In(e, t.buckets) :: Holds(t.pools, mem, e.ptr, e.len))
    && (forall e, f | In(e, t.buckets) && In(f, t.buckets) && e.ptr == f.ptr :: e.len == f.len)
  }

  function SubPools(w: World): seq<Pool> {
    if w.sub.Some? then w.sub.value.pools else []
  }

  /** `next` is the byte that follows every empty string looked up. */
  ghost predicate WorldOK(w: World, next: Byte) {
    && TableOK(w.t, w.mem, next)
    && (w.sub.Some? ==> TableOK(w.sub.value, w.mem, next))
    && Sound(w.t.pools + SubPools(w), w.mem)
  }

  ghost predicate NameOK(name: Name, next: Byte) {
    name.text != [] || name.next == next
  }

  /** A new dictionary is empty and valid. */
  function Create(sub: Option<Table>, mem: Memory): World {
    World(Table(MIN_DICT_SIZE, 0, Unused(MIN_DICT_SIZE), []), sub, mem)
  }

  lemma CreateOK(sub: Option<Table>, mem: Memory, next: Byte)
    requires sub.Some? ==> TableOK(sub.value, mem, next)
    requires Sound(if sub.Some? then sub.value.pools else [], mem)
    ensures WorldOK(Create(sub, mem), next)
  {
    var w := Create(sub, mem);
    UnusedRefs(w.t.buckets);
    AllRefsSize(w.t.buckets);
    assert [] + SubPools(w) == SubPools(w);
  }

  /** For every pair of table sizes the sub-dictionary is searched under its own key. */
  lemma SubKeyIsOwn(w: World, name: Name)
    requires w.sub.Some?
    ensures SubKeyFor(w, name) == Key(w.sub.value.size, name)
  {
  }

  /** `p` is where `text` is interned: locally, or else in the sub-dictionary. */
  ghost predicate Interned(w: World, text: seq<Byte>, p: nat) {
    || (exists e :: In(e, w.t.buckets) && TextOf(w.mem, e) == text && e.ptr == p)
    || (&& (forall e | In(e, w.t.buckets) :: TextOf(w.mem, e) != text)
        && w.sub.Some?
        && exists e :: In(e, w.sub.value.buckets) && TextOf(w.mem, e) == text && e.ptr == p)
  }

  /** Searching by key is searching by text. */
  lemma ExistsSound(w: World, name: Name, next: Byte)
    requires WorldOK(w, next) && NameOK(name, next) && Exists(w, name).Some?
    ensures Interned(w, name.text, Exists(w, name).value)
  {
    FindByText(w.t.buckets, w.t.size, w.mem, next, name);
    if w.sub.Some? {
      FindByText(w.sub.value.buckets, w.sub.value.size, w.mem, next, name);
      SubKeyIsOwn(w, name);
    }
  }

  lemma ExistsComplete(w: World, name: Name, next: Byte, p: nat)
    requires WorldOK(w, next) && NameOK(name, next) && Interned(w, name.text, p)
    ensures Exists(w, name) == Some(p)
  {
    FindByText(w.t.buckets, w.t.size, w.mem, next, name);
    if w.sub.Some? {
      FindByText(w.sub.value.buckets, w.sub.value.size, w.mem, next, name);
      SubKeyIsOwn(w, name);
    }
  }

  lemma OwnsPart(a: seq<Pool>, b: seq<Pool>, p: nat)
    requires Owns(a, p) || Owns(b, p)
    ensures Owns(a + b, p)
  {
    if i :| 0 <= i < |a| && a[i].base <= p <= a[i].free {
      assert (a + b)[i] == a[i];
    } else {
      var i :| 0 <= i < |b| && b[i].base <= p <= b[i].free;
      assert (a + b)[|a| + i] == b[i];
    }
  }

  /** `text` stands at `p`, terminated, in memory owned by the pools. */
  ghost predicate Stands(pools: seq<Pool>, mem: Memory, p: nat, text: seq<Byte>) {
    TextAt(mem, p, |text|) == text && Ends(mem, p + |text|) && Owns(pools, p)
  }

  lemma HeldInTable(t: Table, mem: Memory, next: Byte, e: Entry)
    requires TableOK(t, mem, next) && In(e, t.buckets)
    ensures Stands(t.pools, mem, e.ptr, TextOf(mem, e))
  {
    assert Holds(t.pools, mem, e.ptr, e.len);
    HeldOwned(t.pools, mem, e.ptr, e.len);
  }

  lemma StandsPart(a: seq<Pool>, b: seq<Pool>, mem: Memory, p: nat, text: seq<Byte>)
    requires Stands(a, mem, p, text) || Stands(b, mem, p, text)
    ensures Stands(a + b, mem, p, text)
  {
    OwnsPart(a, b, p);
  }

  lemma InternedStands(w: World, next: Byte, p: nat, text: seq<Byte>)
    requires WorldOK(w, next) && Interned(w, text, p)
    ensures Stands(w.t.pools + SubPools(w), w.mem, p, text)
  {
    if e :| In(e, w.t.buckets) && TextOf(w.mem, e) == text && e.ptr == p {
      HeldInTable(w.t, w.mem, next, e);
    } else {
      var e :| In(e, w.sub.value.buckets) && TextOf(w.mem, e) == text && e.ptr == p;
      HeldInTable(w.sub.value, w.mem, next, e);
    }
    StandsPart(w.t.pools, SubPools(w), w.mem, p, text);
  }

  // ------------------------------------------------------------ adding an entry

  lemma AppendIn(t: Table, e: Entry, pools: seq<Pool>)
    requires Shaped(t)
    ensures forall f :: In(f, Append(t, e, pools).buckets) <==> In(f, t.buckets) || f == e
  {
    var bs, bs' := t.buckets, Append(t, e, pools).buckets;
    var k := e.okey % t.size;
    forall f
      ensures In(f, bs') <==> In(f, bs) || f == e
    {
      if In(f, bs') {
        var b :| 0 <= b < |bs'| && f in bs'[b];
        assert f in bs[b] || f == e;
      }
      if In(f, bs) {
        var b :| 0 <= b < |bs| && f in bs[b];
        assert f in bs'[b];
      }
      assert e in bs'[k];
    }
  }

  lemma {:induction false} TotalUpdate(bs: seq<seq<Entry>>, k: nat, chain: seq<Entry>)
    requires k < |bs|
    ensures Total(bs[k := chain]) + |bs[k]| == Total(bs) + |chain|
  {
    if k > 0 {
      TotalUpdate(bs[1..], k - 1, chain);
      assert bs[k := chain][1..] == bs[1..][k - 1 := chain];
    } else {
      assert bs[k := chain][1..] == bs[1..];
    }
  }

  /** Entries of either table read the same after a string was stored. */
  ghost predicate SameTexts(bs: seq<seq<Entry>>, mem: Memory, mem': Memory) {
    forall e | In(e, bs) :: TextOf(mem', e) == TextOf(mem, e)
  }

  lemma TextsSurvive(t: Table, mem: Memory, mem': Memory, others: seq<Pool>)
    requires forall e | In(e, t.buckets) :: Holds(t.pools, mem, e.ptr, e.len)
    requires Sound(t.pools + others, mem) && Extends(mem, mem')
    ensures SameTexts(t.buckets, mem, mem')
    ensures forall e | In(e, t.buckets) :: Ends(mem', e.ptr + e.len) && e.ptr in mem
  {
    forall e | In(e, t.buckets)
      ensures TextOf(mem', e) == TextOf(mem, e) && Ends(mem', e.ptr + e.len) && e.ptr in mem
    {
      HeldReadable(t.pools, others, mem, e.ptr, e.len);
    }
  }

  /** A table of which nothing was written keeps its invariant. */
  lemma Undisturbed(t: Table, mem: Memory, mem': Memory, next: Byte)
    requires TableOK(t, mem, next) && SameTexts(t.buckets, mem, mem')
    requires forall e | In(e, t.buckets) :: Ends(mem', e.ptr + e.len)
    ensures TableOK(t, mem', next)
  {
    forall b, e | 0 <= b < |t.buckets| && e in t.buckets[b]
      ensures In(e, t.buckets) && TextOf(mem', e) == TextOf(mem, e)
    {
    }
    forall b | 0 <= b < |t.buckets|
      ensures NoRepeats(t.buckets[b], mem')
    {
      var chain := t.buckets[b];
      assert NoRepeats(chain, mem);
      assert forall i | 0 <= i < |chain| :: chain[i] in chain && TextOf(mem', chain[i]) == TextOf(mem, chain[i]);
    }
  }

  lemma AppendPlaced(t: Table, e: Entry, pools: seq<Pool>, mem: Memory, next: Byte)
    requires Placed(t.buckets, t.size, mem, next) && Unique(t.buckets, mem)
    requires e.okey == Key(t.size, Name(TextOf(mem, e), next))
    requires forall f | In(f, t.buckets) :: TextOf(mem, f) != TextOf(mem, e)
    ensures var bs := Append(t, e, pools).buckets;
            Placed(bs, t.size, mem, next) && Unique(bs, mem)
  {
    var bs, bs' := t.buckets, Append(t, e, pools).buckets;
    var k := e.okey % t.size;
    var chain := bs[k];
    assert forall i | 0 <= i < |chain| :: chain[i] in bs[k] && In(chain[i], bs);
    assert NoRepeats(chain, mem);
    assert NoRepeats(chain + [e], mem);
  }

  /** Appending a stored, not yet interned text keeps the table valid. */
  lemma AppendOK(t: Table, e: Entry, pools: seq<Pool>, mem: Memory, next: Byte)
    requires TableOK(t, mem, next) && e.okey == Key(t.size, Name(TextOf(mem, e), next))
    requires forall f | In(f, t.buckets) :: TextOf(mem, f) != TextOf(mem, e)
    requires forall f | In(f, t.buckets) || f == e :: Holds(pools, mem, f.ptr, f.len)
    requires forall f | In(f, t.buckets) :: f.ptr != e.ptr
    ensures TableOK(Append(t, e, pools), mem, next)
  {
    var t' := Append(t, e, pools);
    AppendIn(t, e, pools);
    AppendPlaced(t, e, pools, mem, next);
    TotalUpdate(t.buckets, e.okey % t.size, ChainOf(t, e.okey) + [e]);
    forall f, g | In(f, t'.buckets) && In(g, t'.buckets) && f.ptr == g.ptr
      ensures f.len == g.len
    {
    }
  }

  // -------------------------------------------------------------------- growth

  lemma {:induction false} RefsMember(es: seq<Entry>, r: (nat, nat))
    ensures r in Refs(es) <==> exists e :: e in es && (e.ptr, e.len) == r
  {
    if es != [] {
      RefsMember(es[1..], r);
      if e :| e in es && (e.ptr, e.len) == r {
        assert e == es[0] || e in es[1..];
      }
    }
  }

  lemma {:induction false} AllRefsMember(bs: seq<seq<Entry>>, r: (nat, nat))
    ensures r in AllRefs(bs) <==> exists e :: In(e, bs) && (e.ptr, e.len) == r
  {
    if bs != [] {
      AllRefsMember(bs[1..], r);
      RefsMember(bs[0], r);
      if e :| In(e, bs[1..]) && (e.ptr, e.len) == r {
        var b :| 0 <= b < |bs[1..]| && e in bs[1..][b];
        assert e in bs[b + 1];
        assert In(e, bs);
      }
      if e :| In(e, bs) && (e.ptr, e.len) == r {
        var b :| 0 <= b < |bs| && e in bs[b];
        if b > 0 {
          assert e in bs[1..][b - 1];
          assert In(e, bs[1..]);
        }
      }
      if e :| e in bs[0] && (e.ptr, e.len) == r {
        assert In(e, bs);
      }
    }
  }

  /** Each entry of either table has a counterpart at the same place in memory. */
  lemma GrowCounterpart(t: Table, mem: Memory, size: nat, e: Entry)
    requires size > 0
    ensures In(e, Grow(t, mem, size).buckets) ==>
              exists f :: In(f, t.buckets) && f.ptr == e.ptr && f.len == e.len
    ensures In(e, t.buckets) ==>
              exists f :: In(f, Grow(t, mem, size).buckets) && f.ptr == e.ptr && f.len == e.len
  {
    GrowConserves(t, mem, size);
    AllRefsMember(t.buckets, (e.ptr, e.len));
    AllRefsMember(Grow(t, mem, size).buckets, (e.ptr, e.len));
    if f :| In(f, t.buckets) && (f.ptr, f.len) == (e.ptr, e.len) {
      assert f.ptr == e.ptr && f.len == e.len;
    }
    if f :| In(f, Grow(t, mem, size).buckets) && (f.ptr, f.len) == (e.ptr, e.len) {
      assert f.ptr == e.ptr && f.len == e.len;
    }
  }

  lemma GrowHolds(t: Table, mem: Memory, next: Byte, size: nat)
    requires TableOK(t, mem, next) && size > 0
    ensures forall e | In(e, Grow(t, mem, size).buckets) :: Holds(t.pools, mem, e.ptr, e.len)
  {
    forall e | In(e, Grow(t, mem, size).buckets)
      ensures Holds(t.pools, mem, e.ptr, e.len)
    {
      GrowCounterpart(t, mem, size, e);
    }
  }

  lemma GrowPointers(t: Table, mem: Memory, next: Byte, size: nat)
    requires TableOK(t, mem, next) && size > 0
    ensures forall e, f | In(e, Grow(t, mem, size).buckets) && In(f, Grow(t, mem, size).buckets) && e.ptr == f.ptr ::
              e.len == f.len
  {
    var g := Grow(t, mem, size);
    forall e, f | In(e, g.buckets) && In(f, g.buckets) && e.ptr == f.ptr
      ensures e.len == f.len
    {
      GrowCounterpart(t, mem, size, e);
      GrowCounterpart(t, mem, size, f);
    }
  }

  lemma GrownOK(t: Table, mem: Memory, next: Byte, size: nat)
    requires TableOK(t, mem, next) && (size == 768 || size == 4608)
    ensures TableOK(Grow(t, mem, size), mem, next)
  {
    GrowPlaced(t, mem, size, next);
    GrowConserves(t, mem, size);
    GrowHolds(t, mem, next, size);
    GrowPointers(t, mem, next, size);
  }

  /** The only sizes are 128, 768 and 4608. */
  lemma GrowOK(t: Table, mem: Memory, next: Byte)
    requires TableOK(t, mem, next) && t.size <= GROW_LIMIT
    ensures TableOK(Grow(t, mem, MAX_HASH_LEN * 2 * t.size), mem, next)
  {
    GrownOK(t, mem, next, MAX_HASH_LEN * 2 * t.size);
  }

  lemma SameText'(mem: Memory, e: Entry, f: Entry)
    requires e.ptr == f.ptr && e.len == f.len
    ensures TextOf(mem, e) == TextOf(mem, f)
  {
  }

  /** Growth does not move strings: what is interned stays interned where it was. */
  lemma GrowInterned(w: World, size: nat, text: seq<Byte>, p: nat)
    requires size > 0
    ensures Interned(w, text, p) ==> Interned(w.(t := Grow(w.t, w.mem, size)), text, p)
  {
    var g := Grow(w.t, w.mem, size);
    if e :| In(e, w.t.buckets) && TextOf(w.mem, e) == text && e.ptr == p {
      GrowCounterpart(w.t, w.mem, size, e);
      var f :| In(f, g.buckets) && f.ptr == e.ptr && f.len == e.len;
      SameText'(w.mem, e, f);
    } else if Interned(w, text, p) {
      forall e | In(e, g.buckets)
        ensures TextOf(w.mem, e) != text
      {
        GrowCounterpart(w.t, w.mem, size, e);
        var f :| In(f, w.t.buckets) && f.ptr == e.ptr && f.len == e.len;
        SameText'(w.mem, e, f);
      }
    }
  }

  // --------------------------------------------------------- one lookup, all names

  /** What `AddNew` needs from the allocator. */
  ghost predicate CanStore(w: World, n: nat, at: nat) {
    FreshBlock(w.t.pools + SubPools(w), w.t.pools, w.mem, n, at)
  }

  function AddedWorld(w: World, text: seq<Byte>, okey: nat, at: nat): World
    requires WellShaped(w)
  {
    var st := Store(w.t.pools, w.mem, text, at);
    World(Append(w.t, Entry(st.ptr, |text|, okey), st.pools), w.sub, st.mem)
  }

  lemma AddedOK(w: World, name: Name, at: nat, next: Byte)
    requires WorldOK(w, next) && NameOK(name, next) && CanStore(w, |name.text|, at)
    requires Exists(w, name).None?
    ensures WorldOK(AddedWorld(w, name.text, Key(w.t.size, name), at), next)
  {
    var text := name.text;
    var st := Store(w.t.pools, w.mem, text, at);
    var e := Entry(st.ptr, |text|, Key(w.t.size, name));
    StoreSound(w.t.pools, SubPools(w), w.mem, text, at);
    TargetVacant(w.t.pools, SubPools(w), w.mem, |text|, at);
    StoreWrites(w.t.pools, w.mem, text, at);
    TextsSurvive(w.t, w.mem, st.mem, SubPools(w));
    Undisturbed(w.t, w.mem, st.mem, next);
    if w.sub.Some? {
      SwapSound(w.t.pools, w.sub.value.pools, w.mem);
      TextsSurvive(w.sub.value, w.mem, st.mem, w.t.pools);
      Undisturbed(w.sub.value, w.mem, st.mem, next);
    }
    forall f | In(f, w.t.buckets)
      ensures TextOf(st.mem, f) != text && Holds(st.pools, st.mem, f.ptr, f.len) && f.ptr != st.ptr
    {
      NotInterned(w, name, next, f.ptr);
      StoreKeeps(w.t.pools, SubPools(w), w.mem, text, at, f.ptr, f.len);
    }
    AppendOK(w.t, e, st.pools, st.mem, next);
  }

  lemma NotInterned(w: World, name: Name, next: Byte, p: nat)
    requires WorldOK(w, next) && NameOK(name, next) && Exists(w, name).None?
    ensures !Interned(w, name.text, p)
  {
    if Interned(w, name.text, p) {
      ExistsComplete(w, name, next, p);
    }
  }

  lemma SwapSound(a: seq<Pool>, b: seq<Pool>, mem: Memory)
    requires Sound(a + b, mem)
    ensures Sound(b + a, mem)
  {
    var ab, ba := a + b, b + a;
    forall i | 0 <= i < |ba|
      ensures BlockOK(ba[i], mem)
    {
      assert ba[i] == ab[if i < |b| then |a| + i else i - |b|];
    }
    forall i, j | 0 <= i < j < |ba|
      ensures Disjoint(ba[i], ba[j])
    {
      assert ba[i] == ab[if i < |b| then |a| + i else i - |b|];
      assert ba[j] == ab[if j < |b| then |a| + j else j - |b|];
    }
  }

  lemma AddedInterns(w: World, name: Name, at: nat, next: Byte)
    requires WorldOK(w, next) && NameOK(name, next) && CanStore(w, |name.text|, at)
    requires Exists(w, name).None?
    ensures var w' := AddedWorld(w, name.text, Key(w.t.size, name), at);
            && Interned(w', name.text, Store(w.t.pools, w.mem, name.text, at).ptr)
            && Extends(w.mem, w'.mem)
            && forall text, p :: Interned(w, text, p) ==> Interned(w', text, p)
  {
    var text := name.text;
    var st := Store(w.t.pools, w.mem, text, at);
    var e := Entry(st.ptr, |text|, Key(w.t.size, name));
    var w' := AddedWorld(w, text, Key(w.t.size, name), at);
    TargetVacant(w.t.pools, SubPools(w), w.mem, |text|, at);
    StoreWrites(w.t.pools, w.mem, text, at);
    TextsSurvive(w.t, w.mem, st.mem, SubPools(w));
    if w.sub.Some? {
      SwapSound(w.t.pools, w.sub.value.pools, w.mem);
      TextsSurvive(w.sub.value, w.mem, st.mem, w.t.pools);
    }
    AppendIn(w.t, e, st.pools);
    assert In(e, w'.t.buckets) && TextOf(w'.mem, e) == text;
    forall x, p | Interned(w, x, p)
      ensures Interned(w', x, p)
    {
      NotInterned(w, name, next, p);
      AddedKeeps(w, w', e, text, x, p);
    }
  }

  lemma AddedKeeps(w: World, w': World, e: Entry, text: seq<Byte>, x: seq<Byte>, p: nat)
    requires Interned(w, x, p) && !Interned(w, text, p)
    requires w'.sub == w.sub
    requires forall f :: In(f, w'.t.buckets) <==> In(f, w.t.buckets) || f == e
    requires TextOf(w'.mem, e) == text
    requires SameTexts(w.t.buckets, w.mem, w'.mem)
    requires w.sub.Some? ==> SameTexts(w.sub.value.buckets, w.mem, w'.mem)
    ensures Interned(w', x, p)
  {
    if f :| In(f, w.t.buckets) && TextOf(w.mem, f) == x && f.ptr == p {
      assert In(f, w'.t.buckets) && TextOf(w'.mem, f) == x;
    } else {
      var f :| In(f, w.sub.value.buckets) && TextOf(w.mem, f) == x && f.ptr == p;
      assert TextOf(w'.mem, f) == x;
      assert x != text;
    }
  }

  /** One lookup: the invariant is kept, the text is interned at the returned pointer,
      and nothing interned before moves or changes. */
  lemma LookupStep(w: World, name: Name, at: nat, next: Byte)
    requires WorldOK(w, next) && NameOK(name, next) && CanStore(w, |name.text|, at)
    ensures var r := Lookup(w, name, at);
            && WorldOK(r.w, next) && r.w.sub == w.sub
            && Interned(r.w, name.text, r.ptr)
            && Extends(w.mem, r.w.mem)
            && forall text, p :: Interned(w, text, p) ==> Interned(r.w, text, p)
  {
    if Exists(w, name).Some? {
      ExistsSound(w, name, next);
    } else {
      var a := AddedWorld(w, name.text, Key(w.t.size, name), at);
      AddedOK(w, name, at, next);
      AddedInterns(w, name, at, next);
      var r := Lookup(w, name, at);
      if r.w != a {
        GrowOK(a.t, a.mem, next);
        forall text, p
          ensures Interned(a, text, p) ==> Interned(r.w, text, p)
        {
          GrowInterned(a, MAX_HASH_LEN * 2 * a.t.size, text, p);
        }
      }
    }
  }

  /** Two texts are never interned at one place. */
  lemma InternedInjective(w: World, next: Byte, x: seq<Byte>, y: seq<Byte>, p: nat)
    requires WorldOK(w, next) && Interned(w, x, p) && Interned(w, y, p)
    ensures x == y
  {
    if e, f :| In(e, w.t.buckets) && TextOf(w.mem, e) == x && e.ptr == p
               && In(f, w.t.buckets) && TextOf(w.mem, f) == y && f.ptr == p {
      assert e.len == f.len;
      SameText'(w.mem, e, f);
    } else if e, f :| w.sub.Some? && In(e, w.sub.value.buckets) && TextOf(w.mem, e) == x && e.ptr == p
                      && In(f, w.sub.value.buckets) && TextOf(w.mem, f) == y && f.ptr == p {
      assert e.len == f.len;
      SameText'(w.mem, e, f);
    } else {
      var e :| In(e, w.t.buckets) && e.ptr == p;
      var f :| In(f, w.sub.value.buckets) && f.ptr == p;
      PointersApart(w, next, e, f);
    }
  }

  /** No pointer belongs to both dictionaries. */
  lemma PointersApart(w: World, next: Byte, e: Entry, f: Entry)
    requires WorldOK(w, next) && w.sub.Some? && In(e, w.t.buckets) && In(f, w.sub.value.buckets)
    ensures e.ptr != f.ptr
  {
    var all := w.t.pools + w.sub.value.pools;
    assert Holds(w.t.pools, w.mem, e.ptr, e.len) && Holds(w.sub.value.pools, w.mem, f.ptr, f.len);
    var a :| a in w.t.pools && a.base <= e.ptr && e.ptr + e.len + 1 <= a.free;
    var b :| b in w.sub.value.pools && b.base <= f.ptr && f.ptr + f.len + 1 <= b.free;
    var i :| 0 <= i < |w.t.pools| && w.t.pools[i] == a;
    var j :| 0 <= j < |w.sub.value.pools| && w.sub.value.pools[j] == b;
    assert all[i] == a && all[|w.t.pools| + j] == b;
    assert BlockOK(all[i], w.mem) && BlockOK(all[|w.t.pools| + j], w.mem);
    assert Disjoint(all[i], all[|w.t.pools| + j]);
  }

  // ---------------------------------------------------------------------- runs

  /** The pointer a text is interned at, if it is. */
  ghost function Where(w: World, text: seq<Byte>, next: Byte): Option<nat> {
    if WellShaped(w) then Exists(w, Name(text, next)) else None
  }

  /** Nothing interned in `w` has moved in `w'`. */
  ghost predicate Kept(w: World, w': World, next: Byte) {
    forall text :: Where(w, text, next).Some? ==> Where(w', text, next) == Where(w, text, next)
  }

  lemma WhereSound(w: World, text: seq<Byte>, next: Byte)
    requires WorldOK(w, next) && Where(w, text, next).Some?
    ensures Interned(w, text, Where(w, text, next).value)
  {
    ExistsSound(w, Name(text, next), next);
  }

  lemma WhereComplete(w: World, text: seq<Byte>, next: Byte, p: nat)
    requires WorldOK(w, next) && Interned(w, text, p)
    ensures Where(w, text, next) == Some(p)
  {
    ExistsComplete(w, Name(text, next), next, p);
  }

  /** One lookup as seen through `Where`. */
  lemma LookupWhere(w: World, name: Name, at: nat, next: Byte)
    requires WorldOK(w, next) && NameOK(name, next) && CanStore(w, |name.text|, at)
    ensures var r := Lookup(w, name, at);
            && WorldOK(r.w, next)
            && Where(r.w, name.text, next) == Some(r.ptr)
            && Kept(w, r.w, next)
  {
    LookupStep(w, name, at, next);
    var r := Lookup(w, name, at);
    WhereComplete(r.w, name.text, next, r.ptr);
    forall text | Where(w, text, next).Some?
      ensures Where(r.w, text, next) == Where(w, text, next)
    {
      WhereSound(w, text, next);
      WhereComplete(r.w, text, next, Where(w, text, next).value);
    }
  }

  datatype Request = Request(name: Name, at: nat)

  /** Whenever a lookup allocates, the allocator returns unused memory. */
  ghost predicate RunOK(w: World, rs: seq<Request>, next: Byte)
    requires WorldOK(w, next)
    decreases |rs|
  {
    rs != [] ==>
      && NameOK(rs[0].name, next) && CanStore(w, |rs[0].name.text|, rs[0].at)
      && (LookupWhere(w, rs[0].name, rs[0].at, next);
          RunOK(Lookup(w, rs[0].name, rs[0].at).w, rs[1..], next))
  }

  /** A run of lookups: the world after it and the pointers it returned. */
  ghost function Run(w: World, rs: seq<Request>, next: Byte): (r: (World, seq<nat>))
    requires WorldOK(w, next) && RunOK(w, rs, next)
    ensures WorldOK(r.0, next) && |r.1| == |rs|
    decreases |rs|
  {
    if rs == [] then (w, [])
    else
      LookupWhere(w, rs[0].name, rs[0].at, next);
      var r := Lookup(w, rs[0].name, rs[0].at);
      var (w', ps) := Run(r.w, rs[1..], next);
      (w', [r.ptr] + ps)
  }

  lemma KeptTrans(a: World, b: World, c: World, next: Byte)
    requires Kept(a, b, next) && Kept(b, c, next)
    ensures Kept(a, c, next)
  {
  }

  /** After a run every requested text is where the run said it is. */
  ghost predicate AllThere(w: World, rs: seq<Request>, ps: seq<nat>, next: Byte) {
    |ps| == |rs| && forall i | 0 <= i < |rs| :: Where(w, rs[i].name.text, next) == Some(ps[i])
  }

  lemma ThereCons(w: World, rs: seq<Request>, p: nat, ps: seq<nat>, next: Byte)
    requires rs != [] && Where(w, rs[0].name.text, next) == Some(p) && AllThere(w, rs[1..], ps, next)
    ensures AllThere(w, rs, [p] + ps, next)
  {
    forall i | 0 <= i < |rs|
      ensures Where(w, rs[i].name.text, next) == Some(([p] + ps)[i])
    {
      if i > 0 {
        assert rs[i] == rs[1..][i - 1];
      }
    }
  }

  lemma {:induction false} RunKeeps(w: World, rs: seq<Request>, next: Byte)
    requires WorldOK(w, next) && RunOK(w, rs, next)
    ensures var (w', ps) := Run(w, rs, next);
            Kept(w, w', next) && AllThere(w', rs, ps, next)
    decreases |rs|
  {
    if rs != [] {
      LookupWhere(w, rs[0].name, rs[0].at, next);
      var r := Lookup(w, rs[0].name, rs[0].at);
      RunKeeps(r.w, rs[1..], next);
      var (w', ps) := Run(r.w, rs[1..], next);
      KeptTrans(w, r.w, w', next);
      ThereCons(w', rs, r.ptr, ps, next);
    }
  }

  lemma WhereInjective(w: World, next: Byte, x: seq<Byte>, y: seq<Byte>)
    requires WorldOK(w, next) && Where(w, x, next).Some? && Where(w, x, next) == Where(w, y, next)
    ensures x == y
  {
    WhereSound(w, x, next);
    WhereSound(w, y, next);
    InternedInjective(w, next, x, y, Where(w, x, next).value);
  }

  lemma WhereStands(w: World, next: Byte, text: seq<Byte>)
    requires WorldOK(w, next) && Where(w, text, next).Some?
    ensures Stands(w.t.pools + SubPools(w), w.mem, Where(w, text, next).value, text)
  {
    WhereSound(w, text, next);
    InternedStands(w, next, Where(w, text, next).value, text);
  }

  /** Main result: over every run, through any number of growths, two lookups return
      the same pointer exactly when they were given the same text ... */
  lemma RunInterns(w: World, rs: seq<Request>, next: Byte)
    requires WorldOK(w, next) && RunOK(w, rs, next)
    ensures var ps := Run(w, rs, next).1;
            forall i, j | 0 <= i < |rs| && 0 <= j < |rs| ::
              ps[i] == ps[j] <==> rs[i].name.text == rs[j].name.text
  {
    RunKeeps(w, rs, next);
    var (w', ps) := Run(w, rs, next);
    forall i, j | 0 <= i < |rs| && 0 <= j < |rs|
      ensures ps[i] == ps[j] <==> rs[i].name.text == rs[j].name.text
    {
      if ps[i] == ps[j] {
        WhereInjective(w', next, rs[i].name.text, rs[j].name.text);
      }
    }
  }

  /** ... and at every pointer returned so far stands that text, terminated, in memory
      the dictionary or its sub-dictionary owns. */
  lemma RunStores(w: World, rs: seq<Request>, next: Byte, i: nat)
    requires WorldOK(w, next) && RunOK(w, rs, next) && i < |rs|
    ensures var (w', ps) := Run(w, rs, next);
            Stands(w'.t.pools + SubPools(w'), w'.mem, ps[i], rs[i].name.text)
  {
    RunKeeps(w, rs, next);
    WhereStands(Run(w, rs, next).0, next, rs[i].name.text);
  }
}
