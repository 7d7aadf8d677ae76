/** The dictionary as the source runs it: a bucket array, pools and counters updated
    in place, strings copied byte by byte into shared memory. */
module DictObject {

  import opened Optional
  import opened Bytes
  import opened DictHash
  import opened DictQName
  import opened DictPool
  import opened DictTable
  import opened DictLookup
  import Seqs

  /** The memory strings are copied to. */
  class Heap {
    var mem: Memory

    constructor ()
      ensures mem == map[]
    {
      mem := map[];
    }

    /** memcpy of `s` to address `p`. */
    method Copy(p: nat, s: seq<Byte>)
      modifies this
      ensures mem == Write(old(mem), p, s)
    {
      for i := 0 to |s|
        invariant mem == Write(old(mem), p, s[..i])
      {
        assert s[..i + 1][..i] == s[..i];
        mem := mem[p + i := s[i]];
      }
      assert s[..|s|] == s;
    }

    /** memcmp of `|s|` bytes at `p` with `s`. */
    method Same(p: nat, s: seq<Byte>) returns (same: bool)
      ensures same == (TextAt(mem, p, |s|) == s)
    {
      for i := 0 to |s|
        invariant forall j | 0 <= j < i :: Peek(mem, p + j) == s[j]
      {
        if Peek(mem, p + i) != s[i] {
          assert TextAt(mem, p, |s|)[i] != s[i];
          return false;
        }
      }
      same := true;
    }

    method Read(p: nat, n: nat) returns (s: seq<Byte>)
      ensures s == TextAt(mem, p, n)
    {
      s := [];
      for i := 0 to n
        invariant s == TextAt(mem, p, i)
      {
        s := s + [Peek(mem, p + i)];
      }
    }
  }

  class Dict {
    var size: nat
    var nbElems: nat
    var dict: array<seq<Entry>>
    var strings: seq<Pool>
    var subdict: Dict?

    ghost predicate Valid()
      reads this, dict
    {
      size > 0 && dict.Length == size
    }

    ghost function View(): (t: Table)
      reads this, dict
      requires Valid()
      ensures Shaped(t)
    {
      Table(size, nbElems, dict[..], strings)
    }

    /** This dictionary and its read-only sub-dictionary. */
    ghost predicate Ready()
      reads this, dict, subdict, if subdict != null then {subdict.dict} else {}
    {
      Valid() && (subdict != null ==> subdict != this && subdict.Valid() && subdict.dict != dict)
    }

    ghost function WorldOf(heap: Heap): (w: World)
      reads this, dict, subdict, if subdict != null then {subdict.dict} else {}, heap
      requires Ready()
      ensures WellShaped(w)
    {
      World(View(), if subdict == null then None else Some(subdict.View()), heap.mem)
    }

    /** xmlDictCreate and xmlDictCreateSub. */
    constructor (sub: Dict?)
      requires sub != null ==> sub.Valid()
      ensures Ready() && subdict == sub && fresh(dict)
      ensures View() == Create(None, map[]).t
    {
      size := MIN_DICT_SIZE;
      nbElems := 0;
      dict := new seq<Entry>[MIN_DICT_SIZE](_ => []);
      strings := [];
      subdict := sub;
      new;
      assert dict[..] == Unused(MIN_DICT_SIZE);
    }

    method ComputeKey(name: Name) returns (key: nat)
      ensures key == Key(size, name)
    {
      if size == MIN_DICT_SIZE {
        key := ComputeFastKey(name.text, name.next);
      } else {
        key := ComputeBigKey(name.text);
      }
    }

    /** The search of xmlDictAddString for a pool with room. */
    method FindPool(n: nat) returns (r: Option<nat>, maxSize: nat)
      ensures r == PoolFor(strings, n)
      ensures r.None? ==> maxSize == MaxSize(strings)
    {
      maxSize := 0;
      assert strings[0..] == strings;
      for i := 0 to |strings|
        invariant PoolFor(strings, n) == Shifted(PoolFor(strings[i..], n), i)
        invariant maxSize == MaxSize(strings[..i])
      {
        assert strings[i..][0] == strings[i] && strings[i..][1..] == strings[i + 1..];
        if strings[i].base + strings[i].size - strings[i].free > n {
          return Some(i), maxSize;
        }
        MaxSizeNext(strings, i);
        if strings[i].size > maxSize {
          maxSize := strings[i].size;
        }
      }
      assert strings[|strings|..] == [] && strings[..|strings|] == strings;
      r := None;
    }

    /** xmlDictAddString. */
    method AddString(heap: Heap, text: seq<Byte>, at: nat) returns (ptr: nat)
      modifies this`strings, heap
      ensures Stored(strings, heap.mem, ptr) == Store(old(strings), old(heap.mem), text, at)
    {
      var found, maxSize := FindPool(|text|);
      if found.Some? {
        var pool := strings[found.value];
        ptr := pool.free;
        heap.Copy(ptr, text + [0]);
        strings := strings[found.value := pool.(free := pool.free + |text| + 1)];
      } else {
        var newSize := if maxSize == 0 then 1000 else maxSize * 4;
        if newSize < 4 * |text| {
          newSize := 4 * |text|;
        }
        ptr := at;
        heap.Copy(ptr, text + [0]);
        strings := [Pool(at, newSize, at + |text| + 1)] + strings;
      }
    }

    /** The scan of one chain: the match, and how many links were followed. */
    method ScanChain(heap: Heap, chain: seq<Entry>, okey: nat, text: seq<Byte>) returns (r: Option<Entry>, nbi: nat)
      ensures r == FindIn(chain, okey, text, heap.mem)
      ensures r.None? ==> nbi == Hops(chain)
    {
      nbi := 0;
      assert chain[0..] == chain;
      for i := 0 to |chain|
        invariant FindIn(chain, okey, text, heap.mem) == FindIn(chain[i..], okey, text, heap.mem)
        invariant nbi == if i == |chain| then Hops(chain) else i
      {
        var e := chain[i];
        assert chain[i..][0] == e && chain[i..][1..] == chain[i + 1..];
        if e.okey == okey && e.len == |text| {
          var same := heap.Same(e.ptr, text);
          if same {
            return Some(e), nbi;
          }
        }
        if i + 1 < |chain| {
          nbi := nbi + 1;
        }
      }
      assert chain[|chain|..] == [];
      r := None;
    }

    /** Local chain, then sub-dictionary. */
    method Find(heap: Heap, text: seq<Byte>, okey: nat, skey: nat) returns (r: Option<nat>, nbi: nat)
      requires Ready()
      ensures r == Search(WorldOf(heap), text, okey, skey, true)
      ensures r.None? ==> nbi == Hops(ChainOf(View(), okey)) + Hops(SubChain(WorldOf(heap), skey))
    {
      var e, n := ScanChain(heap, dict[okey % size], okey, text);
      nbi := n;
      if e.Some? {
        return Some(e.value.ptr), nbi;
      }
      if subdict != null {
        var f, m := ScanChain(heap, subdict.dict[skey % subdict.size], skey, text);
        if f.Some? {
          return Some(f.value.ptr), nbi;
        }
        nbi := nbi + m;
      }
      r := None;
    }

    /** Stores a new text, appends its entry, and grows when the scan was long. */
    method Add(heap: Heap, text: seq<Byte>, okey: nat, ghost skey: nat, nbi: nat, at: nat) returns (ptr: nat)
      requires Ready()
      requires nbi == Hops(ChainOf(View(), okey)) + Hops(SubChain(WorldOf(heap), skey))
      modifies this, dict, heap
      ensures Ready() && subdict == old(subdict)
      ensures subdict != null ==> subdict.View() == old(subdict.View())
      ensures Found(WorldOf(heap), ptr) == AddNew(old(WorldOf(heap)), text, okey, skey, at)
    {
      ghost var w := WorldOf(heap);
      ptr := AddString(heap, text, at);
      var key := okey % size;
      var e := Entry(ptr, |text|, okey);
      dict[key] := dict[key] + [e];
      nbElems := nbElems + 1;
      assert dict[..] == w.t.buckets[key := ChainOf(w.t, okey) + [e]];
      assert View() == Append(w.t, e, strings);
      if nbi > MAX_HASH_LEN && size <= GROW_LIMIT {
        GrowTo(heap, MAX_HASH_LEN * 2 * size);
      }
    }

    /** xmlDictLookup. */
    method Lookup(heap: Heap, name: Name, at: nat) returns (ptr: nat)
      requires Ready()
      modifies this, dict, heap
      ensures Ready() && subdict == old(subdict)
      ensures Found(WorldOf(heap), ptr) == DictLookup.Lookup(old(WorldOf(heap)), name, at)
    {
      var okey := ComputeKey(name);
      var skey := okey;
      if subdict != null {
        if (size == MIN_DICT_SIZE && subdict.size != MIN_DICT_SIZE) || (size != MIN_DICT_SIZE && subdict.size == MIN_DICT_SIZE) {
          skey := subdict.ComputeKey(name);
        }
      } else {
        skey := 0;
      }
      var r, nbi := Find(heap, name.text, okey, skey);
      if r.Some? {
        return r.value;
      }
      ptr := Add(heap, name.text, okey, skey, nbi, at);
    }

    /** xmlDictExists. */
    method Exists(heap: Heap, name: Name) returns (r: Option<nat>)
      requires Ready()
      ensures r == DictLookup.Exists(WorldOf(heap), name)
    {
      var okey := ComputeKey(name);
      var skey := okey;
      if subdict != null {
        if (size == MIN_DICT_SIZE) != (subdict.size == MIN_DICT_SIZE) {
          skey := subdict.ComputeKey(name);
        }
      } else {
        skey := 0;
      }
      var nbi: nat;
      r, nbi := Find(heap, name.text, okey, skey);
    }

    method ComputeQKey(prefix: seq<Byte>, name: seq<Byte>, stray: Byte) returns (key: nat)
      ensures key == QKey(size, prefix, name, stray)
    {
      if size == MIN_DICT_SIZE {
        key := ComputeFastQKey(prefix, name, stray);
      } else {
        key := ComputeBigQKey(prefix, name);
      }
    }

    /** The scan of one chain with xmlStrQEqual as the comparison. */
    method ScanQChain(heap: Heap, chain: seq<Entry>, okey: nat, prefix: seq<Byte>, name: seq<Byte>)
      returns (r: Option<Entry>, nbi: nat)
      requires 0 !in prefix && 0 !in name
      ensures r == if prefix == [] then None else FindIn(chain, okey, prefix + [COLON] + name, heap.mem)
      ensures r.None? ==> nbi == Hops(chain)
    {
      var len := |name| + 1 + |prefix|;
      ghost var text := prefix + [COLON] + name;
      nbi := 0;
      assert chain[0..] == chain;
      for i := 0 to |chain|
        invariant FindIn(chain, okey, text, heap.mem) == FindIn(chain[i..], okey, text, heap.mem) || prefix == []
        invariant nbi == if i == |chain| then Hops(chain) else i
      {
        var e := chain[i];
        assert chain[i..][0] == e && chain[i..][1..] == chain[i + 1..];
        if e.okey == okey && e.len == len {
          var s := heap.Read(e.ptr, e.len);
          QEqualMeans(prefix, name, s);
          var same := StrQEqual(prefix, name, s);
          if same {
            return Some(e), nbi;
          }
        }
        if i + 1 < |chain| {
          nbi := nbi + 1;
        }
      }
      assert chain[|chain|..] == [];
      r := None;
    }

    /** xmlDictQLookup with a prefix. */
    method QLookup(heap: Heap, prefix: seq<Byte>, name: seq<Byte>, stray: Byte, at: nat) returns (ptr: nat)
      requires Ready() && 0 !in prefix && 0 !in name
      modifies this, dict, heap
      ensures Ready() && subdict == old(subdict)
      ensures Found(WorldOf(heap), ptr) == DictLookup.QLookup(old(WorldOf(heap)), prefix, name, stray, at)
    {
      var okey := ComputeQKey(prefix, name, stray);
      var skey := 0;
      var e, nbi := ScanQChain(heap, dict[okey % size], okey, prefix, name);
      if e.Some? {
        return e.value.ptr;
      }
      if subdict != null {
        skey := okey;
        if (size == MIN_DICT_SIZE) != (subdict.size == MIN_DICT_SIZE) {
          skey := subdict.ComputeQKey(prefix, name, stray);
        }
        var f, m := ScanQChain(heap, subdict.dict[skey % subdict.size], skey, prefix, name);
        if f.Some? {
          return f.value.ptr;
        }
        nbi := nbi + m;
      }
      ptr := Add(heap, prefix + [COLON] + name, okey, skey, nbi, at);
    }

    /** The rehashing step for one entry. */
    method Put(table: array<seq<Entry>>, e: Entry)
      requires table.Length > 0
      modifies table
      ensures table[..] == Place(old(table[..]), e)
    {
      var key := e.okey % table.Length;
      if table[key] == [] {
        table[key] := [e];
      } else {
        table[key] := [table[key][0], e] + table[key][1..];
      }
    }

    method RekeyEntry(heap: Heap, keepKeys: bool, e: Entry, ghost t: Table) returns (r: Entry)
      requires keepKeys == (t.size != MIN_DICT_SIZE)
      ensures r == Rekey(t, heap.mem, e)
    {
      var okey := e.okey;
      if !keepKeys {
        var text := heap.Read(e.ptr, e.len);
        okey := ComputeBigKey(text);
      }
      r := e.(okey := okey);
    }

    /** xmlDictGrow: first all inline entries, then all chained ones. */
    method GrowTo(heap: Heap, newSize: nat)
      requires Valid() && newSize > 0
      modifies this, dict
      ensures Valid() && subdict == old(subdict) && fresh(dict)
      ensures View() == Grow(old(View()), heap.mem, newSize)
    {
      ghost var t := View();
      var keepKeys := size != MIN_DICT_SIZE;
      var grown := new seq<Entry>[newSize](_ => []);
      assert grown[..] == Unused(newSize);
      FirstPass(heap, keepKeys, grown);
      SecondPass(heap, keepKeys, grown);
      ghost var mem := heap.mem;
      RekeyConcat(t, mem, Heads(t.buckets), Tails(t.buckets));
      PlaceAllConcat(Unused(newSize), RekeyAll(t, mem, Heads(t.buckets)), RekeyAll(t, mem, Tails(t.buckets)));
      dict := grown;
      size := newSize;
    }

    method FirstPass(heap: Heap, keepKeys: bool, grown: array<seq<Entry>>)
      requires Valid() && grown != dict && grown.Length > 0 && keepKeys == (size != MIN_DICT_SIZE)
      modifies grown
      ensures grown[..] == PlaceAll(old(grown[..]), RekeyAll(View(), heap.mem, Heads(View().buckets)))
    {
      ghost var t := View();
      ghost var start := grown[..];
      for i := 0 to size
        invariant grown[..] == PlaceAll(start, RekeyAll(t, heap.mem, Heads(t.buckets[..i])))
      {
        assert t.buckets[..i + 1] == t.buckets[..i] + [t.buckets[i]];
        PassesSnoc(t.buckets[..i], t.buckets[i]);
        if dict[i] != [] {
          ghost var seen := Heads(t.buckets[..i]);
          var e := RekeyEntry(heap, keepKeys, dict[i][0], t);
          PlaceNext(start, t, heap.mem, seen, dict[i][0]);
          Put(grown, e);
        } else {
          assert Heads(t.buckets[..i]) + [] == Heads(t.buckets[..i]);
        }
      }
      assert t.buckets[..size] == t.buckets;
    }

    method SecondPass(heap: Heap, keepKeys: bool, grown: array<seq<Entry>>)
      requires Valid() && grown != dict && grown.Length > 0 && keepKeys == (size != MIN_DICT_SIZE)
      modifies grown
      ensures grown[..] == PlaceAll(old(grown[..]), RekeyAll(View(), heap.mem, Tails(View().buckets)))
    {
      ghost var t := View();
      ghost var start := grown[..];
      for i := 0 to size
        invariant grown[..] == PlaceAll(start, RekeyAll(t, heap.mem, Tails(t.buckets[..i])))
      {
        assert t.buckets[..i + 1] == t.buckets[..i] + [t.buckets[i]];
        PassesSnoc(t.buckets[..i], t.buckets[i]);
        ghost var seen := Tails(t.buckets[..i]);
        var tail := if dict[i] == [] then [] else dict[i][1..];
        PutAll(heap, keepKeys, grown, tail);
        RekeyConcat(t, heap.mem, seen, tail);
        PlaceAllConcat(start, RekeyAll(t, heap.mem, seen), RekeyAll(t, heap.mem, tail));
      }
      assert t.buckets[..size] == t.buckets;
    }

    /** The inner loop of the second pass: one chain. */
    method PutAll(heap: Heap, keepKeys: bool, grown: array<seq<Entry>>, es: seq<Entry>)
      requires Valid() && grown != dict && grown.Length > 0 && keepKeys == (size != MIN_DICT_SIZE)
      modifies grown
      ensures grown[..] == PlaceAll(old(grown[..]), RekeyAll(View(), heap.mem, es))
    {
      ghost var t := View();
      ghost var start := grown[..];
      for i := 0 to |es|
        invariant grown[..] == PlaceAll(start, RekeyAll(t, heap.mem, es[..i]))
      {
        assert es[..i + 1] == es[..i] + [es[i]];
        var e := RekeyEntry(heap, keepKeys, es[i], t);
        PlaceNext(start, t, heap.mem, es[..i], es[i]);
        Put(grown, e);
      }
      assert es[..|es|] == es;
    }

    /** The entry loop of xmlDictFree, which stops early once the counter is used up.
        Returns the entries that were allocated outside the array and are released. */
    method FreeEntries() returns (freed: seq<Entry>)
      requires Valid() && nbElems == Total(dict[..])
      modifies this`nbElems
      ensures freed == Tails(dict[..]) && nbElems == 0
    {
      freed := [];
      ghost var bs := dict[..];
      var i := 0;
      while i < size && nbElems > 0
        invariant i <= size && nbElems == Total(bs[i..])
        invariant freed + Tails(bs[i..]) == Tails(bs)
      {
        assert bs[i..][0] == bs[i] && bs[i..][1..] == bs[i + 1..];
        if dict[i] != [] {
          Seqs.Assoc(freed, dict[i][1..], Tails(bs[i + 1..]));
          freed := freed + dict[i][1..];
          nbElems := nbElems - |dict[i]|;
        } else {
          assert [] + Tails(bs[i + 1..]) == Tails(bs[i + 1..]);
        }
        i := i + 1;
      }
      NothingLeft(bs[i..]);
      assert freed + [] == freed;
    }

    /** xmlDictOwns: this dictionary's pools, then those of the sub-dictionary. */
    method OwnsPointer(ptr: nat) returns (r: bool)
      requires Ready()
      ensures r == Owns(strings + (if subdict == null then [] else subdict.strings), ptr)
    {
      var all := strings + (if subdict == null then [] else subdict.strings);
      for i := 0 to |all|
        invariant forall j | 0 <= j < i :: !(all[j].base <= ptr <= all[j].free)
      {
        if all[i].base <= ptr <= all[i].free {
          return true;
        }
      }
      r := false;
    }
  }

  // ------------------------------------------------------------ lemmas for the loops

  function Shifted(r: Option<nat>, i: nat): Option<nat> {
    if r.None? then None else Some(i + r.value)
  }

  lemma {:induction false} MaxSizeSnoc(pools: seq<Pool>, p: Pool)
    ensures MaxSize(pools + [p]) == if p.size > MaxSize(pools) then p.size else MaxSize(pools)
  {
    if pools == [] {
      assert pools + [p] == [p] && [p][1..] == [];
    } else {
      assert (pools + [p])[1..] == pools[1..] + [p];
      MaxSizeSnoc(pools[1..], p);
    }
  }

  lemma MaxSizeNext(pools: seq<Pool>, i: nat)
    requires i < |pools|
    ensures MaxSize(pools[..i + 1]) == if pools[i].size > MaxSize(pools[..i]) then pools[i].size else MaxSize(pools[..i])
  {
    MaxSizeSnoc(pools[..i], pools[i]);
    assert pools[..i + 1] == pools[..i] + [pools[i]];
  }

  lemma {:induction false} PlaceAllConcat(bs: seq<seq<Entry>>, a: seq<Entry>, b: seq<Entry>)
    requires bs != []
    ensures PlaceAll(bs, a + b) == PlaceAll(PlaceAll(bs, a), b)
    decreases |a|
  {
    if a == [] {
      assert a + b == b;
    } else {
      assert (a + b)[1..] == a[1..] + b;
      PlaceAllConcat(Place(bs, a[0]), a[1..], b);
    }
  }

  lemma PlaceNext(bs: seq<seq<Entry>>, t: Table, mem: Memory, seen: seq<Entry>, e: Entry)
    requires bs != []
    ensures PlaceAll(bs, RekeyAll(t, mem, seen + [e])) == Place(PlaceAll(bs, RekeyAll(t, mem, seen)), Rekey(t, mem, e))
  {
    var r := Rekey(t, mem, e);
    assert RekeyAll(t, mem, [e]) == [r];
    RekeyConcat(t, mem, seen, [e]);
    PlaceAllConcat(bs, RekeyAll(t, mem, seen), [r]);
    assert [r][1..] == [];
  }

  lemma RekeyConcat(t: Table, mem: Memory, a: seq<Entry>, b: seq<Entry>)
    ensures RekeyAll(t, mem, a + b) == RekeyAll(t, mem, a) + RekeyAll(t, mem, b)
  {
  }

  lemma {:induction false} PassesSnoc(bs: seq<seq<Entry>>, chain: seq<Entry>)
    ensures Heads(bs + [chain]) == Heads(bs) + (if chain == [] then [] else [chain[0]])
    ensures Tails(bs + [chain]) == Tails(bs) + (if chain == [] then [] else chain[1..])
  {
    if bs == [] {
      assert bs + [chain] == [chain] && [chain][1..] == [];
    } else {
      assert (bs + [chain])[1..] == bs[1..] + [chain];
      PassesSnoc(bs[1..], chain);
    }
  }

  lemma {:induction false} NothingLeft(bs: seq<seq<Entry>>)
    requires Total(bs) == 0
    ensures Tails(bs) == []
  {
    if bs != [] {
      NothingLeft(bs[1..]);
    }
  }
}
