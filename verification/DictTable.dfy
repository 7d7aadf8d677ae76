/** The chained hash table of the string dictionary and its growth.

    A bucket is the chain that starts at the inline entry; an unused inline entry is
    the empty chain. */
module DictTable {

  import opened Optional
  import opened Bytes
  import opened DictHash
  import opened DictPool

  const MIN_DICT_SIZE: nat := 128
  const MAX_HASH_LEN: nat := 3

  /** The largest table that still grows: (8 * 2048 / 2) / 3 as the macros expand. */
  const GROW_LIMIT: nat := 2730

  datatype Entry = Entry(ptr: nat, len: nat, okey: nat)

  datatype Table = Table(size: nat, nbElems: nat, buckets: seq<seq<Entry>>, pools: seq<Pool>)

  /** A caller's string: the text and the byte that follows it in memory. */
  datatype Name = Name(text: seq<Byte>, next: Byte)

  function TextOf(mem: Memory, e: Entry): seq<Byte> {
    TextAt(mem, e.ptr, e.len)
  }

  /** xmlDictComputeKey: the hash selected by the table size. */
  function Key(size: nat, name: Name): nat {
    if size == MIN_DICT_SIZE then FastKey(name.text, name.next) else BigKey(name.text)
  }

  predicate Matches(e: Entry, okey: nat, text: seq<Byte>, mem: Memory) {
    e.okey == okey && e.len == |text| && TextOf(mem, e) == text
  }

  /** The first matching entry of a chain. */
  function FindIn(chain: seq<Entry>, okey: nat, text: seq<Byte>, mem: Memory): (r: Option<Entry>)
    ensures r.Some? ==> r.value in chain && Matches(r.value, okey, text, mem)
    ensures r.None? ==> forall e | e in chain :: !Matches(e, okey, text, mem)
  {
    if chain == [] then None
    else if Matches(chain[0], okey, text, mem) then Some(chain[0])
    else FindIn(chain[1..], okey, text, mem)
  }

  /** How many links the scan of a chain followed without a match. */
  function Hops(chain: seq<Entry>): nat {
    if chain == [] then 0 else |chain| - 1
  }

  predicate Shaped(t: Table) {
    t.size > 0 && |t.buckets| == t.size
  }

  function ChainOf(t: Table, okey: nat): seq<Entry>
    requires Shaped(t)
  {
    t.buckets[okey % t.size]
  }

  // -------------------------------------------------------------------- growth

  /** Puts an entry into a bucket: first if the bucket is unused, else right after
      its inline entry. */
  function Place(bs: seq<seq<Entry>>, e: Entry): (r: seq<seq<Entry>>)
    requires bs != []
    ensures |r| == |bs|
  {
    var k := e.okey % |bs|;
    bs[k := if bs[k] == [] then [e] else [bs[k][0], e] + bs[k][1..]]
  }

  function PlaceAll(bs: seq<seq<Entry>>, es: seq<Entry>): (r: seq<seq<Entry>>)
    requires bs != []
    ensures |r| == |bs|
    decreases |es|
  {
    if es == [] then bs else PlaceAll(Place(bs, es[0]), es[1..])
  }

  /** The inline entries in bucket order: the first pass of a growth. */
  function Heads(bs: seq<seq<Entry>>): seq<Entry> {
    if bs == [] then [] else (if bs[0] == [] then [] else [bs[0][0]]) + Heads(bs[1..])
  }

  /** The chained entries in bucket order: the second pass. */
  function Tails(bs: seq<seq<Entry>>): seq<Entry> {
    if bs == [] then [] else (if bs[0] == [] then [] else bs[0][1..]) + Tails(bs[1..])
  }

  /** Small-table keys are recomputed, large-table keys are kept. */
  function Rekey(t: Table, mem: Memory, e: Entry): Entry {
    if t.size == MIN_DICT_SIZE then e.(okey := BigKey(TextOf(mem, e))) else e
  }

  function RekeyAll(t: Table, mem: Memory, es: seq<Entry>): (r: seq<Entry>)
    ensures |r| == |es| && forall i | 0 <= i < |es| :: r[i] == Rekey(t, mem, es[i])
  {
    if es == [] then [] else [Rekey(t, mem, es[0])] + RekeyAll(t, mem, es[1..])
  }

  function Unused(n: nat): (r: seq<seq<Entry>>)
    ensures |r| == n && forall i | 0 <= i < n :: r[i] == []
  {
    seq(n, _ => [])
  }

  /** xmlDictGrow. */
  function Grow(t: Table, mem: Memory, size: nat): Table
    requires size > 0
  {
    t.(size := size,
       buckets := PlaceAll(Unused(size), RekeyAll(t, mem, Heads(t.buckets) + Tails(t.buckets))))
  }

  // ------------------------------------------------------- what growth conserves

  function Total(bs: seq<seq<Entry>>): nat {
    if bs == [] then 0 else |bs[0]| + Total(bs[1..])
  }

  /** The strings of a list of entries, without their keys. */
  function Refs(es: seq<Entry>): multiset<(nat, nat)> {
    if es == [] then multiset{} else multiset{(es[0].ptr, es[0].len)} + Refs(es[1..])
  }

  function AllRefs(bs: seq<seq<Entry>>): multiset<(nat, nat)> {
    if bs == [] then multiset{} else Refs(bs[0]) + AllRefs(bs[1..])
  }

  lemma {:induction false} RefsConcat(a: seq<Entry>, b: seq<Entry>)
    ensures Refs(a + b) == Refs(a) + Refs(b)
  {
    if a == [] {
      assert a + b == b;
    } else {
      assert (a + b)[1..] == a[1..] + b;
      RefsConcat(a[1..], b);
    }
  }

  lemma {:induction false} RefsSize(es: seq<Entry>)
    ensures |Refs(es)| == |es|
  {
    if es != [] {
      RefsSize(es[1..]);
    }
  }

  lemma {:induction false} AllRefsSize(bs: seq<seq<Entry>>)
    ensures |AllRefs(bs)| == Total(bs)
  {
    if bs != [] {
      AllRefsSize(bs[1..]);
      RefsSize(bs[0]);
    }
  }

  lemma SumPairs<T>(a: multiset<T>, b: multiset<T>, c: multiset<T>, d: multiset<T>)
    ensures (a + b) + (c + d) == (a + c) + (b + d)
  {
  }

  /** The two passes visit every entry once. */
  lemma {:induction false} PassesCover(bs: seq<seq<Entry>>)
    ensures Refs(Heads(bs)) + Refs(Tails(bs)) == AllRefs(bs)
    ensures |Heads(bs)| + |Tails(bs)| == Total(bs)
  {
    if bs != [] {
      PassesCover(bs[1..]);
      var h := if bs[0] == [] then [] else [bs[0][0]];
      var t := if bs[0] == [] then [] else bs[0][1..];
      RefsConcat(h, Heads(bs[1..]));
      RefsConcat(t, Tails(bs[1..]));
      RefsConcat(h, t);
      assert h + t == bs[0];
      SumPairs(Refs(h), Refs(Heads(bs[1..])), Refs(t), Refs(Tails(bs[1..])));
      assert |bs[0]| == |h| + |t|;
    }
  }

  lemma SumShift<T>(a: multiset<T>, x: multiset<T>, r: multiset<T>, y: multiset<T>, c: multiset<T>)
    requires x + r == y + c
    ensures (a + x) + r == (a + y) + c
  {
    assert (a + x) + r == a + (x + r);
  }

  lemma SumSwap<T>(a: multiset<T>, b: multiset<T>, c: multiset<T>)
    ensures (a + b) + c == (c + b) + a
  {
  }

  lemma SumCancel<T>(x: multiset<T>, r: multiset<T>, y: multiset<T>, d: multiset<T>)
    requires x + r == y + (r + d)
    ensures x == y + d
  {
    assert x == (x + r) - r;
    assert y + (r + d) == (y + d) + r;
  }

  lemma {:induction false} AllRefsUpdate(bs: seq<seq<Entry>>, k: nat, chain: seq<Entry>)
    requires k < |bs|
    ensures AllRefs(bs[k := chain]) + Refs(bs[k]) == AllRefs(bs) + Refs(chain)
  {
    var bs' := bs[k := chain];
    if k > 0 {
      AllRefsUpdate(bs[1..], k - 1, chain);
      assert bs'[0] == bs[0] && bs'[1..] == bs[1..][k - 1 := chain];
      SumShift(Refs(bs[0]), AllRefs(bs'[1..]), Refs(bs[k]), AllRefs(bs[1..]), Refs(chain));
    } else {
      assert bs'[0] == chain && bs'[1..] == bs[1..];
      SumSwap(Refs(chain), AllRefs(bs[1..]), Refs(bs[0]));
    }
  }

  lemma RefsInsert(chain: seq<Entry>, e: Entry)
    ensures Refs(if chain == [] then [e] else [chain[0], e] + chain[1..]) == Refs(chain) + multiset{(e.ptr, e.len)}
  {
    if chain == [] {
      assert [e][1..] == [];
    } else {
      var t := chain[1..];
      var r := [chain[0], e] + t;
      assert r[1..] == [e] + t && r[1..][1..] == t;
    }
  }

  lemma PlaceRefs(bs: seq<seq<Entry>>, e: Entry)
    requires bs != []
    ensures AllRefs(Place(bs, e)) == AllRefs(bs) + multiset{(e.ptr, e.len)}
  {
    var k := e.okey % |bs|;
    var chain := if bs[k] == [] then [e] else [bs[k][0], e] + bs[k][1..];
    AllRefsUpdate(bs, k, chain);
    RefsInsert(bs[k], e);
    SumCancel(AllRefs(bs[k := chain]), Refs(bs[k]), AllRefs(bs), multiset{(e.ptr, e.len)});
  }

  lemma {:induction false} PlaceAllRefs(bs: seq<seq<Entry>>, es: seq<Entry>)
    requires bs != []
    ensures AllRefs(PlaceAll(bs, es)) == AllRefs(bs) + Refs(es)
    decreases |es|
  {
    if es != [] {
      PlaceRefs(bs, es[0]);
      PlaceAllRefs(Place(bs, es[0]), es[1..]);
    }
  }

  lemma {:induction false} RekeyRefs(t: Table, mem: Memory, es: seq<Entry>)
    ensures Refs(RekeyAll(t, mem, es)) == Refs(es)
  {
    if es != [] {
      RekeyRefs(t, mem, es[1..]);
      assert RekeyAll(t, mem, es)[1..] == RekeyAll(t, mem, es[1..]);
    }
  }

  lemma {:induction false} UnusedRefs(bs: seq<seq<Entry>>)
    requires forall i | 0 <= i < |bs| :: bs[i] == []
    ensures AllRefs(bs) == multiset{}
  {
    if bs != [] {
      UnusedRefs(bs[1..]);
    }
  }

  /** Growth loses no string and invents none, for every table and every size. */
  lemma GrowConserves(t: Table, mem: Memory, size: nat)
    requires size > 0
    ensures AllRefs(Grow(t, mem, size).buckets) == AllRefs(t.buckets)
    ensures Total(Grow(t, mem, size).buckets) == Total(t.buckets)
    ensures Shaped(Grow(t, mem, size))
  {
    var es := Heads(t.buckets) + Tails(t.buckets);
    PassesCover(t.buckets);
    RefsConcat(Heads(t.buckets), Tails(t.buckets));
    RekeyRefs(t, mem, es);
    UnusedRefs(Unused(size));
    PlaceAllRefs(Unused(size), RekeyAll(t, mem, es));
    AllRefsSize(t.buckets);
    AllRefsSize(Grow(t, mem, size).buckets);
  }

  // -------------------------------------------------- where every entry must be

  /** Entry `e` is in some bucket. */
  predicate In(e: Entry, bs: seq<seq<Entry>>) {
    exists b | 0 <= b < |bs| :: e in bs[b]
  }

  /** Every entry sits in bucket okey mod size, under the key the size selects;
      `next` is the byte assumed to follow an empty text. */
  ghost predicate Placed(bs: seq<seq<Entry>>, size: nat, mem: Memory, next: Byte) {
    size > 0 && |bs| == size
    && forall b, e | 0 <= b < size && e in bs[b] ::
         e.okey % size == b && e.okey == Key(size, Name(TextOf(mem, e), next))
  }

  /** No two entries of a chain have the same text. */
  ghost predicate NoRepeats(chain: seq<Entry>, mem: Memory) {
    forall i, j | 0 <= i < j < |chain| :: TextOf(mem, chain[i]) != TextOf(mem, chain[j])
  }

  ghost predicate Unique(bs: seq<seq<Entry>>, mem: Memory) {
    forall b | 0 <= b < |bs| :: NoRepeats(bs[b], mem)
  }

  /** Finding by key is finding by text. */
  lemma FindByText(bs: seq<seq<Entry>>, size: nat, mem: Memory, next: Byte, name: Name)
    requires Placed(bs, size, mem, next) && Unique(bs, mem)
    requires name.text != [] || name.next == next
    ensures var r := FindIn(bs[Key(size, name) % size], Key(size, name), name.text, mem);
            && (r.Some? ==> In(r.value, bs) && TextOf(mem, r.value) == name.text)
            && (forall e | In(e, bs) && TextOf(mem, e) == name.text :: r == Some(e))
  {
    var k := Key(size, name);
    var chain := bs[k % size];
    var r := FindIn(chain, k, name.text, mem);
    forall e | In(e, bs) && TextOf(mem, e) == name.text
      ensures r == Some(e)
    {
      var b :| 0 <= b < |bs| && e in bs[b];
      assert e.okey == Key(size, Name(TextOf(mem, e), next)) == k;
      assert Matches(e, k, name.text, mem);
      SameText(chain, mem, e, r.value);
    }
  }

  lemma SameText(chain: seq<Entry>, mem: Memory, e: Entry, f: Entry)
    requires NoRepeats(chain, mem) && e in chain && f in chain && TextOf(mem, e) == TextOf(mem, f)
    ensures e == f
  {
    var i :| 0 <= i < |chain| && chain[i] == e;
    var j :| 0 <= j < |chain| && chain[j] == f;
    assert i == j;
  }

  // --------------------------------------- growth keeps every entry findable

  /** All texts of a list are different, and different from those in the buckets. */
  ghost predicate Fresh(es: seq<Entry>, bs: seq<seq<Entry>>, mem: Memory) {
    && NoRepeats(es, mem)
    && forall i, b, f | 0 <= i < |es| && 0 <= b < |bs| && f in bs[b] :: TextOf(mem, es[i]) != TextOf(mem, f)
  }

  ghost predicate Keyed(es: seq<Entry>, size: nat, mem: Memory, next: Byte) {
    forall i | 0 <= i < |es| :: es[i].okey == Key(size, Name(TextOf(mem, es[i]), next))
  }

  lemma InsertSecond(chain: seq<Entry>, e: Entry, mem: Memory)
    requires chain != [] && NoRepeats(chain, mem)
    requires forall f | f in chain :: TextOf(mem, e) != TextOf(mem, f)
    ensures NoRepeats([chain[0], e] + chain[1..], mem)
    ensures forall f | f in [chain[0], e] + chain[1..] :: f == e || f in chain
  {
    var r := [chain[0], e] + chain[1..];
    assert r[0] == chain[0] && r[1] == e && forall k | 2 <= k < |r| :: r[k] == chain[k - 1];
    forall i, j | 0 <= i < j < |r|
      ensures TextOf(mem, r[i]) != TextOf(mem, r[j])
    {
      if i == 1 {
        assert r[j] in chain;
      } else if j == 1 {
        assert r[i] in chain;
      } else {
        assert r[i] == chain[if i == 0 then 0 else i - 1] && r[j] == chain[j - 1];
      }
    }
  }

  lemma PlaceOK(bs: seq<seq<Entry>>, e: Entry, size: nat, mem: Memory, next: Byte)
    requires Placed(bs, size, mem, next) && Unique(bs, mem)
    requires e.okey == Key(size, Name(TextOf(mem, e), next))
    requires forall b, f | 0 <= b < |bs| && f in bs[b] :: TextOf(mem, e) != TextOf(mem, f)
    ensures Placed(Place(bs, e), size, mem, next) && Unique(Place(bs, e), mem)
    ensures forall b, f | 0 <= b < |bs| && f in Place(bs, e)[b] :: f == e || f in bs[b]
  {
    var k := e.okey % |bs|;
    if bs[k] != [] {
      assert NoRepeats(bs[k], mem);
      InsertSecond(bs[k], e, mem);
    }
  }

  lemma {:induction false} PlaceAllOK(bs: seq<seq<Entry>>, es: seq<Entry>, size: nat, mem: Memory, next: Byte)
    requires Placed(bs, size, mem, next) && Unique(bs, mem)
    requires Keyed(es, size, mem, next) && Fresh(es, bs, mem)
    ensures Placed(PlaceAll(bs, es), size, mem, next) && Unique(PlaceAll(bs, es), mem)
    decreases |es|
  {
    if es != [] {
      PlaceOK(bs, es[0], size, mem, next);
      var bs', rest := Place(bs, es[0]), es[1..];
      assert forall i | 0 <= i < |rest| :: rest[i] == es[i + 1];
      PlaceAllOK(bs', rest, size, mem, next);
    }
  }

  ghost predicate Separate(bs: seq<seq<Entry>>, mem: Memory) {
    forall b, c, e, f | 0 <= b < c < |bs| && e in bs[b] && f in bs[c] :: TextOf(mem, e) != TextOf(mem, f)
  }

  /** The two passes list every entry, no text twice. */
  lemma {:induction false} PassesFresh(bs: seq<seq<Entry>>, mem: Memory)
    requires Unique(bs, mem)
    requires Separate(bs, mem)
    ensures NoRepeats(Heads(bs) + Tails(bs), mem)
    ensures forall e | e in Heads(bs) || e in Tails(bs) :: In(e, bs)
  {
    if bs != [] {
      var rest := bs[1..];
      assert forall b | 0 <= b < |rest| :: rest[b] == bs[b + 1];
      PassesFresh(rest, mem);
      forall e | e in Heads(rest) || e in Tails(rest)
        ensures In(e, bs)
        ensures forall f | f in bs[0] :: TextOf(mem, f) != TextOf(mem, e)
      {
        var b :| 0 <= b < |rest| && e in rest[b];
        assert e in bs[b + 1];
      }
      assert NoRepeats(bs[0], mem);
      assert forall f | f in bs[0] :: In(f, bs);
      InterleaveFresh(bs[0], Heads(rest), Tails(rest), mem);
    }
  }

  lemma InterleaveFresh(chain: seq<Entry>, heads: seq<Entry>, tails: seq<Entry>, mem: Memory)
    requires NoRepeats(chain, mem) && NoRepeats(heads + tails, mem)
    requires forall f, e | f in chain && (e in heads || e in tails) :: TextOf(mem, f) != TextOf(mem, e)
    ensures var h := if chain == [] then [] else [chain[0]];
            var t := if chain == [] then [] else chain[1..];
            NoRepeats((h + heads) + (t + tails), mem)
  {
    if chain == [] {
      assert [] + heads == heads && [] + tails == tails;
    } else {
      var h, t := [chain[0]], chain[1..];
      var n, m, all := |heads|, |t|, (h + heads) + (t + tails);
      forall i, j | 0 <= i < j < |all|
        ensures TextOf(mem, all[i]) != TextOf(mem, all[j])
      {
        Pick(chain, heads, tails, i);
        Pick(chain, heads, tails, j);
      }
    }
  }

  /** Which list element `i` of the interleaving comes from. */
  lemma Pick(chain: seq<Entry>, heads: seq<Entry>, tails: seq<Entry>, i: nat)
    requires chain != [] && i < |chain| + |heads| + |tails|
    ensures var all := ([chain[0]] + heads) + (chain[1..] + tails);
            && (i == 0 ==> all[i] == chain[0] && all[i] in chain)
            && (1 <= i <= |heads| ==> all[i] == (heads + tails)[i - 1] && all[i] in heads)
            && (|heads| < i < |heads| + |chain| ==> all[i] == chain[i - |heads|] && all[i] in chain)
            && (|heads| + |chain| <= i ==> all[i] == (heads + tails)[i - |chain|] && all[i] in tails)
  {
  }

  /** Texts of entries in different buckets differ, because their keys do. */
  lemma PlacedSeparate(bs: seq<seq<Entry>>, size: nat, mem: Memory, next: Byte)
    requires Placed(bs, size, mem, next)
    ensures Separate(bs, mem)
  {
    forall b, c, e, f | 0 <= b < c < |bs| && e in bs[b] && f in bs[c]
      ensures TextOf(mem, e) != TextOf(mem, f)
    {
      assert e.okey % size == b && f.okey % size == c;
    }
  }

  lemma RekeyKeyed(t: Table, mem: Memory, es: seq<Entry>, size: nat, next: Byte)
    requires Placed(t.buckets, t.size, mem, next) && size != MIN_DICT_SIZE
    requires forall i | 0 <= i < |es| :: In(es[i], t.buckets)
    ensures Keyed(RekeyAll(t, mem, es), size, mem, next)
    ensures forall i | 0 <= i < |es| :: TextOf(mem, RekeyAll(t, mem, es)[i]) == TextOf(mem, es[i])
  {
    var rs := RekeyAll(t, mem, es);
    forall i | 0 <= i < |rs|
      ensures rs[i].okey == Key(size, Name(TextOf(mem, rs[i]), next)) && TextOf(mem, rs[i]) == TextOf(mem, es[i])
    {
      var b :| 0 <= b < |t.buckets| && es[i] in t.buckets[b];
      assert es[i].okey == Key(t.size, Name(TextOf(mem, es[i]), next));
    }
  }

  lemma RekeyFresh(t: Table, mem: Memory, es: seq<Entry>, size: nat)
    requires NoRepeats(es, mem)
    requires forall i | 0 <= i < |es| :: TextOf(mem, RekeyAll(t, mem, es)[i]) == TextOf(mem, es[i])
    ensures Fresh(RekeyAll(t, mem, es), Unused(size), mem)
  {
  }

  lemma PassesListed(t: Table, mem: Memory, next: Byte)
    requires Placed(t.buckets, t.size, mem, next) && Unique(t.buckets, mem)
    ensures var es := Heads(t.buckets) + Tails(t.buckets);
            NoRepeats(es, mem) && forall i | 0 <= i < |es| :: In(es[i], t.buckets)
  {
    PlacedSeparate(t.buckets, t.size, mem, next);
    PassesFresh(t.buckets, mem);
  }

  /** Growth re-establishes placement under the large-table hash. */
  lemma GrowPlaced(t: Table, mem: Memory, size: nat, next: Byte)
    requires Placed(t.buckets, t.size, mem, next) && Unique(t.buckets, mem)
    requires size > 0 && size != MIN_DICT_SIZE
    ensures var g := Grow(t, mem, size);
            Placed(g.buckets, size, mem, next) && Unique(g.buckets, mem)
  {
    var es := Heads(t.buckets) + Tails(t.buckets);
    PassesListed(t, mem, next);
    RekeyKeyed(t, mem, es, size, next);
    RekeyFresh(t, mem, es, size);
    PlaceAllOK(Unused(size), RekeyAll(t, mem, es), size, mem, next);
  }
}
