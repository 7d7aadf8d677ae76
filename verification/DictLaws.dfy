/** Further laws of the dictionary: prefixed lookups, the sub-dictionary, empty strings
    and block sizes. */
module DictLaws {

  import opened Optional
  import opened Bytes
  import opened DictHash
  import opened DictPool
  import opened DictTable
  import opened DictLookup

  /** Neither table is small any more. */
  predicate Grown(w: World) {
    w.t.size != MIN_DICT_SIZE && (w.sub.Some? ==> w.sub.value.size != MIN_DICT_SIZE)
  }

  /** After growth a prefixed lookup is the plain lookup of "prefix:name", in result
      and in effect. */
  lemma PrefixedIsPlain(w: World, prefix: seq<Byte>, name: seq<Byte>, stray: Byte, next: Byte, at: nat)
    requires WellShaped(w) && Grown(w) && prefix != []
    ensures QLookup(w, prefix, name, stray, at) == Lookup(w, Name(prefix + [COLON] + name, next), at)
  {
    BigQKeyIsBigKey(prefix, name);
  }

  lemma KnownInMemory(w: World, next: Byte, text: seq<Byte>)
    requires WorldOK(w, next) && Where(w, text, next).Some?
    ensures Where(w, text, next).value in w.mem
  {
    WhereSound(w, text, next);
    var p := Where(w, text, next).value;
    if e :| In(e, w.t.buckets) && TextOf(w.mem, e) == text && e.ptr == p {
      HeldReadable(w.t.pools, SubPools(w), w.mem, e.ptr, e.len);
    } else {
      var e :| In(e, w.sub.value.buckets) && TextOf(w.mem, e) == text && e.ptr == p;
      SwapSound(w.t.pools, w.sub.value.pools, w.mem);
      HeldReadable(w.sub.value.pools, w.t.pools, w.mem, e.ptr, e.len);
    }
  }

  /** For a text that is already interned, a prefixed lookup after growth finds it
      exactly when the prefix is not empty; with an empty prefix it always makes
      another copy. */
  lemma PrefixedFindsIffPrefix(w: World, prefix: seq<Byte>, name: seq<Byte>, stray: Byte, at: nat, next: Byte)
    requires WorldOK(w, next) && Grown(w)
    requires CanStore(w, |prefix| + 1 + |name|, at)
    requires Where(w, prefix + [COLON] + name, next).Some?
    ensures QLookup(w, prefix, name, stray, at).ptr == Where(w, prefix + [COLON] + name, next).value
            <==> prefix != []
  {
    var text := prefix + [COLON] + name;
    if prefix != [] {
      PrefixedIsPlain(w, prefix, name, stray, next, at);
    } else {
      KnownInMemory(w, next, text);
      TargetVacant(w.t.pools, SubPools(w), w.mem, |text|, at);
      StoreWrites(w.t.pools, w.mem, text, at);
    }
  }

  /** With an empty prefix a prefixed lookup makes another copy, whatever the table sizes
      are and whatever is interned. */
  lemma EmptyPrefixCopies(w: World, name: seq<Byte>, stray: Byte, at: nat, next: Byte)
    requires WorldOK(w, next) && CanStore(w, 1 + |name|, at)
    ensures var r := QLookup(w, [], name, stray, at);
            r.ptr !in w.mem && TextAt(r.w.mem, r.ptr, 1 + |name|) == [COLON] + name
  {
    var text := [COLON] + name;
    EmptyPrefixStores(w, name, stray, at);
    CopyStored(w, text, at, next);
  }

  lemma EmptyPrefixStores(w: World, name: seq<Byte>, stray: Byte, at: nat)
    requires WellShaped(w)
    ensures var r := QLookup(w, [], name, stray, at); var st := Store(w.t.pools, w.mem, [COLON] + name, at);
            r.ptr == st.ptr && r.w.mem == st.mem
  {
    assert [] + [COLON] + name == [COLON] + name;
  }

  lemma CopyStored(w: World, text: seq<Byte>, at: nat, next: Byte)
    requires WorldOK(w, next) && CanStore(w, |text|, at)
    ensures var st := Store(w.t.pools, w.mem, text, at);
            st.ptr !in w.mem && TextAt(st.mem, st.ptr, |text|) == text
  {
    TargetVacant(w.t.pools, SubPools(w), w.mem, |text|, at);
    StoreWrites(w.t.pools, w.mem, text, at);
  }

  /** In a small table an entry is found under the small hash of its text only. */
  lemma FoundUnderOwnKey(w: World, text: seq<Byte>, key: nat, next: Byte)
    requires WorldOK(w, next) && text != [] && w.t.size == MIN_DICT_SIZE && key != FastKey(text, next)
    ensures FindIn(ChainOf(w.t, key), key, text, w.mem).None?
  {
    forall e | e in ChainOf(w.t, key)
      ensures !Matches(e, key, text, w.mem)
    {
      assert e.okey == Key(w.t.size, Name(TextOf(w.mem, e), next));
    }
  }

  /** While the table is small, a prefixed lookup after the plain lookup of the same text
      returns its pointer if and only if the two small hashes agree on that name; by
      `FastKeysDiffer` they need not. */
  lemma SmallTableAgreesIff(w: World, prefix: seq<Byte>, name: seq<Byte>, stray: Byte, next: Byte, at: nat, at': nat)
    requires WorldOK(w, next) && w.sub.None? && prefix != []
    requires CanStore(w, |prefix| + 1 + |name|, at)
    requires var r := Lookup(w, Name(prefix + [COLON] + name, next), at);
             r.w.t.size == MIN_DICT_SIZE && CanStore(r.w, |prefix| + 1 + |name|, at')
    ensures var text := prefix + [COLON] + name; var r := Lookup(w, Name(text, next), at);
            WorldOK(r.w, next)
            && (QLookup(r.w, prefix, name, stray, at').ptr == r.ptr
                <==> FastQKey(prefix, name, stray) == FastKey(text, next))
  {
    var text := prefix + [COLON] + name;
    var r := Lookup(w, Name(text, next), at);
    LookupStep(w, Name(text, next), at, next);
    LookupWhere(w, Name(text, next), at, next);
    if FastQKey(prefix, name, stray) != FastKey(text, next) {
      FoundUnderOwnKey(r.w, text, FastQKey(prefix, name, stray), next);
      KnownInMemory(r.w, next, text);
      TargetVacant(r.w.t.pools, SubPools(r.w), r.w.mem, |text|, at');
      StoreWrites(r.w.t.pools, r.w.mem, text, at');
    }
  }

  /** xmlDictExists answers what xmlDictLookup would return, without adding; and a
      lookup that finds its text changes nothing. */
  lemma ExistsAgrees(w: World, name: Name, at: nat, next: Byte)
    requires WorldOK(w, next) && NameOK(name, next) && CanStore(w, |name.text|, at)
    ensures Exists(w, name).Some? <==> Lookup(w, name, at).w == w
    ensures Exists(w, name).Some? ==> Lookup(w, name, at).ptr == Exists(w, name).value
    ensures Exists(Lookup(w, name, at).w, name) == Some(Lookup(w, name, at).ptr)
  {
    LookupStep(w, name, at, next);
    var r := Lookup(w, name, at);
    ExistsComplete(r.w, name, next, r.ptr);
    if Exists(w, name).None? {
      assert r.w != w;
    }
  }

  /** A text stored in the sub-dictionary is never copied into the local one, whatever
      the two table sizes are. */
  lemma SubNeverCopied(w: World, name: Name, at: nat, next: Byte, e: Entry)
    requires WorldOK(w, next) && NameOK(name, next) && w.sub.Some?
    requires In(e, w.sub.value.buckets) && TextOf(w.mem, e) == name.text
    requires forall f | In(f, w.t.buckets) :: TextOf(w.mem, f) != name.text
    ensures Lookup(w, name, at) == Found(w, e.ptr)
  {
    ExistsComplete(w, name, next, e.ptr);
  }

  /** Each block stays at least four times as large as every older one. */
  lemma LookupQuadruples(w: World, name: Name, at: nat)
    requires WellShaped(w) && Quadrupling(w.t.pools)
    ensures Quadrupling(Lookup(w, name, at).w.t.pools)
  {
    StoreQuadruples(w.t.pools, w.mem, name.text, at);
  }

  // ---------------------------------------------------------------- empty strings

  ghost predicate NoEmpty(t: Table) {
    forall e | In(e, t.buckets) :: e.len != 0
  }

  /** No text that is interned anywhere is empty. */
  ghost predicate NoEmptyText(w: World) {
    NoEmpty(w.t) && (w.sub.Some? ==> NoEmpty(w.sub.value))
  }

  lemma SubMisses(w: World, skey: nat)
    requires WellShaped(w) && (w.sub.Some? ==> NoEmpty(w.sub.value))
    ensures FindIn(SubChain(w, skey), skey, [], w.mem).None?
  {
    if w.sub.Some? {
      assert forall e | e in ChainOf(w.sub.value, skey) :: In(e, w.sub.value.buckets);
    }
  }

  lemma NoneFound(w: World, name: Name)
    requires WellShaped(w) && NoEmptyText(w) && name.text == []
    ensures Exists(w, name).None?
  {
    assert forall e | e in ChainOf(w.t, Key(w.t.size, name)) :: In(e, w.t.buckets);
    SubMisses(w, SubKeyFor(w, name));
  }

  /** Beside an entry made under another key there is no empty text in a chain. */
  lemma OtherKeyMisses(w: World, t: Table, e: Entry, k: nat)
    requires Shaped(w.t) && NoEmpty(t) && e.okey != k
    requires forall f | In(f, w.t.buckets) :: f == e || In(f, t.buckets)
    ensures FindIn(ChainOf(w.t, k), k, [], w.mem).None?
  {
    assert forall f | f in ChainOf(w.t, k) :: In(f, w.t.buckets);
  }

  /** A lookup of the empty string that finds none and does not grow the table. */
  lemma FirstAdds(w: World, n: Byte, at: nat)
    requires WellShaped(w) && NoEmptyText(w)
    ensures var r := Lookup(w, Name([], n), at);
            var e := Entry(r.ptr, 0, Key(w.t.size, Name([], n)));
            && r.w.sub == w.sub
            && (r.w.t.size == MIN_DICT_SIZE ==>
                  w.t.size == MIN_DICT_SIZE && Shaped(r.w.t)
                  && forall f | In(f, r.w.t.buckets) :: f == e || In(f, w.t.buckets))
  {
    var name := Name([], n);
    NoneFound(w, name);
    EmptyAdded(w, Key(w.t.size, name), SubKeyFor(w, name), at);
  }

  lemma EmptyAdded(w: World, okey: nat, skey: nat, at: nat)
    requires WellShaped(w)
    ensures var r := AddNew(w, [], okey, skey, at); var e := Entry(r.ptr, 0, okey);
            && r.w.sub == w.sub
            && (r.w.t.size == MIN_DICT_SIZE ==>
                  w.t.size == MIN_DICT_SIZE && Shaped(r.w.t)
                  && forall f | In(f, r.w.t.buckets) :: f == e || In(f, w.t.buckets))
  {
    var st := Store(w.t.pools, w.mem, [], at);
    AppendIn(w.t, Entry(st.ptr, 0, okey), st.pools);
  }

  /** After such a lookup a different following byte leads to a chain without it. */
  lemma OtherByteMisses(w: World, n: Byte, m: Byte, at: nat)
    requires WellShaped(w) && NoEmptyText(w) && n != m
    ensures var r := Lookup(w, Name([], n), at);
            WellShaped(r.w) && r.w.t.size == MIN_DICT_SIZE ==> Exists(r.w, Name([], m)).None?
  {
    var r := Lookup(w, Name([], n), at);
    FirstAdds(w, n, at);
    if WellShaped(r.w) && r.w.t.size == MIN_DICT_SIZE {
      var k := Key(MIN_DICT_SIZE, Name([], m));
      OtherKeyMisses(r.w, w.t, Entry(r.ptr, 0, Key(w.t.size, Name([], n))), k);
      SubMisses(r.w, SubKeyFor(r.w, Name([], m)));
    }
  }

  /** In a large table the following byte plays no part. */
  lemma AnyByteFinds(w: World, n: Byte, m: Byte, at: nat)
    requires WorldOK(w, n) && NoEmptyText(w) && CanStore(w, 0, at)
    ensures var r := Lookup(w, Name([], n), at);
            WorldOK(r.w, n) && Exists(r.w, Name([], n)) == Some(r.ptr)
            && (r.w.t.size != MIN_DICT_SIZE ==> Exists(r.w, Name([], m)) == Some(r.ptr))
  {
    var r := Lookup(w, Name([], n), at);
    LookupWhere(w, Name([], n), at, n);
    FirstAdds(w, n, at);
    SubMisses(r.w, SubKeyFor(r.w, Name([], n)));
  }

  /** The exact extent of the empty-string defect, for every dictionary that holds no
      empty string yet, with or without a sub-dictionary: two lookups of the empty
      string agree if and only if the bytes that happen to follow the two strings in
      the caller's memory agree, or the table is no longer small by then. */
  lemma EmptyStrings(w: World, n: Byte, m: Byte, at: nat, at': nat)
    requires WorldOK(w, n) && NoEmptyText(w) && CanStore(w, 0, at)
    requires CanStore(Lookup(w, Name([], n), at).w, 0, at')
    ensures var r := Lookup(w, Name([], n), at);
            WorldOK(r.w, n)
            && (Lookup(r.w, Name([], m), at').ptr == r.ptr <==> n == m || r.w.t.size != MIN_DICT_SIZE)
  {
    var r := Lookup(w, Name([], n), at);
    AnyByteFinds(w, n, m, at);
    if n != m && r.w.t.size == MIN_DICT_SIZE {
      OtherByteMisses(w, n, m, at);
      KnownInMemory(r.w, n, []);
      TargetVacant(r.w.t.pools, SubPools(r.w), r.w.mem, 0, at');
      StoreWrites(r.w.t.pools, r.w.mem, [], at');
    }
  }

  lemma FirstLookup(n: Byte, at: nat)
    ensures var w := Create(None, map[]);
            var r := Lookup(w, Name([], n), at);
            && WellShaped(w) && WellShaped(r.w) && r.ptr == at
            && r.w.t.size == MIN_DICT_SIZE && r.w.sub == None
            && r.w.t.pools == [Pool(at, 1000, at + 1)]
            && (forall k: nat :: ChainOf(r.w.t, k) == if k % 128 == 32 * n % 128 then [Entry(at, 0, 32 * n)] else [])
  {
    var w := Create(None, map[]);
    assert FastKey([], n) == 32 * n;
    assert ChainOf(w.t, 32 * n) == [];
  }

  /** In particular the first two lookups on a new dictionary, whatever the allocator
      does. */
  lemma FirstEmptyStrings(n: Byte, m: Byte, at: nat, at': nat)
    ensures var w := Create(None, map[]);
            var r := Lookup(w, Name([], n), at);
            && WellShaped(w) && WellShaped(r.w)
            && (Lookup(r.w, Name([], m), at').ptr == r.ptr <==> n == m)
  {
    FirstLookup(n, at);
    var r := Lookup(Create(None, map[]), Name([], n), at);
    var k := 32 * m;
    assert FastKey([], m) == k;
    var chain := ChainOf(r.w.t, k);
    assert TextAt(r.w.mem, at, 0) == [];
    if n == m {
      assert chain == [Entry(at, 0, k)] && Matches(chain[0], k, [], r.w.mem);
    } else {
      assert forall e | e in chain :: !Matches(e, k, [], r.w.mem);
      assert Exists(r.w, Name([], m)).None?;
    }
  }
}
