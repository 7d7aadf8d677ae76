/** The string pools of the dictionary: bump allocation inside a list of blocks.

    Memory is a map from addresses to bytes and holds exactly the bytes written so
    far.  Where the allocator puts a new block is the caller's argument `at`. */
module DictPool {

  import opened Optional
  import opened Bytes
  import opened DictHash
  import Seqs

  type Memory = map<nat, Byte>

  /** `base` is the first address, `free` the next unused one; addresses up to and
      including `base + size` belong to the block. */
  datatype Pool = Pool(base: nat, size: nat, free: nat)

  function Peek(mem: Memory, a: nat): Byte {
    if a in mem then mem[a] else 0
  }

  /** The terminator is there. */
  predicate Ends(mem: Memory, a: nat) {
    a in mem && mem[a] == 0
  }

  function TextAt(mem: Memory, p: nat, n: nat): (s: seq<Byte>)
    ensures |s| == n && forall i | 0 <= i < n :: s[i] == Peek(mem, p + i)
  {
    if n == 0 then [] else TextAt(mem, p, n - 1) + [Peek(mem, p + n - 1)]
  }

  /** Copies bytes to consecutive addresses. */
  function Write(mem: Memory, p: nat, s: seq<Byte>): Memory {
    if s == [] then mem else Write(mem, p, s[..|s| - 1])[p + |s| - 1 := s[|s| - 1]]
  }

  // --------------------------------------------------------------- allocation

  predicate HasRoom(p: Pool, n: nat) {
    p.base + p.size - p.free > n
  }

  /** The first pool with room for `n` bytes and a terminator. */
  function PoolFor(pools: seq<Pool>, n: nat): (r: Option<nat>)
    ensures r.Some? ==> r.value < |pools| && HasRoom(pools[r.value], n)
  {
    if pools == [] then None
    else if HasRoom(pools[0], n) then Some(0)
    else
      match PoolFor(pools[1..], n)
      case None => None
      case Some(i) => Some(i + 1)
  }

  function MaxSize(pools: seq<Pool>): nat {
    if pools == [] then 0
    else if pools[0].size > MaxSize(pools[1..]) then pools[0].size
    else MaxSize(pools[1..])
  }

  lemma {:induction false} MaxSizeBounds(pools: seq<Pool>)
    ensures forall j | 0 <= j < |pools| :: pools[j].size <= MaxSize(pools)
  {
    if pools != [] {
      MaxSizeBounds(pools[1..]);
      assert forall j | 1 <= j < |pools| :: pools[j] == pools[1..][j - 1];
    }
  }

  function NewSize(pools: seq<Pool>, n: nat): nat {
    var size := if MaxSize(pools) == 0 then 1000 else 4 * MaxSize(pools);
    if size < 4 * n then 4 * n else size
  }

  /** The first pool has a thousand bytes, each later one four times the largest; a longer
      string gets four times its own length. */
  lemma {:induction false} NewSizeIs(pools: seq<Pool>, n: nat)
    ensures pools == [] ==> NewSize(pools, n) == if n <= 250 then 1000 else 4 * n
    ensures forall k | 0 <= k < |pools| && pools[k].size > 0 && (forall j | 0 <= j < |pools| :: pools[j].size <= pools[k].size) ::
              NewSize(pools, n) == 4 * (if n > pools[k].size then n else pools[k].size)
  {
    MaxSizeBounds(pools);
    MaxSizeMet(pools);
  }

  lemma {:induction false} MaxSizeMet(pools: seq<Pool>)
    ensures pools != [] && MaxSize(pools) > 0 ==> exists j | 0 <= j < |pools| :: pools[j].size == MaxSize(pools)
  {
    if pools != [] {
      MaxSizeMet(pools[1..]);
      if MaxSize(pools[1..]) > 0 && MaxSize(pools) == MaxSize(pools[1..]) {
        var j :| 0 <= j < |pools[1..]| && pools[1..][j].size == MaxSize(pools[1..]);
        assert pools[j + 1].size == MaxSize(pools);
      }
    }
  }

  datatype Stored = Stored(pools: seq<Pool>, mem: Memory, ptr: nat)

  /** xmlDictAddString. */
  function Store(pools: seq<Pool>, mem: Memory, text: seq<Byte>, at: nat): Stored {
    match PoolFor(pools, |text|)
    case Some(i) =>
      var p := pools[i];
      Stored(pools[i := p.(free := p.free + |text| + 1)], Write(mem, p.free, text + [0]), p.free)
    case None =>
      var p := Pool(at, NewSize(pools, |text|), at + |text| + 1);
      Stored([p] + pools, Write(mem, at, text + [0]), at)
  }

  /** The allocator's promise: a new block is unused memory. */
  ghost predicate FreshBlock(all: seq<Pool>, pools: seq<Pool>, mem: Memory, n: nat, at: nat) {
    PoolFor(pools, n).None? ==>
      && (forall i | 0 <= i < |all| :: Disjoint(all[i], Pool(at, NewSize(pools, n), at)))
      && (forall a | at <= a <= at + NewSize(pools, n) :: a !in mem)
  }

  // ---------------------------------------------------------------- invariants

  predicate Disjoint(p: Pool, q: Pool) {
    p.base + p.size < q.base || q.base + q.size < p.base
  }

  /** A block is full below `free` and untouched from `free` on. */
  ghost predicate BlockOK(p: Pool, mem: Memory) {
    && p.base <= p.free <= p.base + p.size
    && (forall a | p.base <= a < p.free :: a in mem)
    && (forall a | p.free <= a <= p.base + p.size :: a !in mem)
  }

  ghost predicate Sound(all: seq<Pool>, mem: Memory) {
    && (forall i | 0 <= i < |all| :: BlockOK(all[i], mem))
    && (forall i, j | 0 <= i < j < |all| :: Disjoint(all[i], all[j]))
  }

  /** The string of length `n` at `ptr`, with its terminator, lies in a pool. */
  ghost predicate Holds(pools: seq<Pool>, mem: Memory, ptr: nat, n: nat) {
    (exists p :: p in pools && p.base <= ptr && ptr + n + 1 <= p.free) && Ends(mem, ptr + n)
  }

  ghost predicate Extends(mem: Memory, mem': Memory) {
    forall a | a in mem :: a in mem' && mem'[a] == mem[a]
  }

  lemma {:induction false} WriteAt(mem: Memory, p: nat, s: seq<Byte>, a: nat)
    ensures p <= a < p + |s| ==> a in Write(mem, p, s) && Write(mem, p, s)[a] == s[a - p]
    ensures !(p <= a < p + |s|) ==> (a in Write(mem, p, s) <==> a in mem)
    ensures !(p <= a < p + |s|) && a in mem ==> Write(mem, p, s)[a] == mem[a]
  {
    if s != [] {
      WriteAt(mem, p, s[..|s| - 1], a);
    }
  }

  lemma WriteFresh(mem: Memory, p: nat, s: seq<Byte>)
    requires forall a | p <= a < p + |s| :: a !in mem
    ensures Extends(mem, Write(mem, p, s))
    ensures forall a | a in Write(mem, p, s) :: a in mem || p <= a < p + |s|
    ensures forall a | p <= a < p + |s| :: a in Write(mem, p, s)
    ensures forall i | 0 <= i < |s| :: Peek(Write(mem, p, s), p + i) == s[i]
  {
    forall a: nat
      ensures p <= a < p + |s| ==> a in Write(mem, p, s) && Write(mem, p, s)[a] == s[a - p]
      ensures !(p <= a < p + |s|) ==> (a in Write(mem, p, s) <==> a in mem)
      ensures !(p <= a < p + |s|) && a in mem ==> Write(mem, p, s)[a] == mem[a]
    {
      WriteAt(mem, p, s, a);
    }
  }

  /** Where the next string of length `n` goes. */
  function Target(pools: seq<Pool>, n: nat, at: nat): nat {
    match PoolFor(pools, n)
    case Some(i) => pools[i].free
    case None => at
  }

  ghost predicate Vacant(mem: Memory, ptr: nat, n: nat) {
    forall a | ptr <= a <= ptr + n :: a !in mem
  }

  /** Where the next string goes is unused memory with room for it. */
  lemma TargetVacant(pools: seq<Pool>, others: seq<Pool>, mem: Memory, n: nat, at: nat)
    requires Sound(pools + others, mem) && FreshBlock(pools + others, pools, mem, n, at)
    ensures Vacant(mem, Target(pools, n, at), n)
  {
    match PoolFor(pools, n)
    case Some(i) =>
      assert BlockOK((pools + others)[i], mem);
    case None =>
      assert n + 1 <= NewSize(pools, n);
  }

  /** Exactly the text and its terminator were added to memory, and nothing changed. */
  ghost predicate Written(mem: Memory, mem': Memory, ptr: nat, text: seq<Byte>) {
    && Extends(mem, mem')
    && TextAt(mem', ptr, |text|) == text && Ends(mem', ptr + |text|)
    && (forall a | a in mem' :: a in mem || ptr <= a <= ptr + |text|)
    && (forall a | ptr <= a <= ptr + |text| :: a in mem')
  }

  lemma WriteText(mem: Memory, ptr: nat, text: seq<Byte>)
    requires Vacant(mem, ptr, |text|)
    ensures Written(mem, Write(mem, ptr, text + [0]), ptr, text)
  {
    var s := text + [0];
    WriteFresh(mem, ptr, s);
    assert forall i | 0 <= i < |text| :: s[i] == text[i];
    assert Peek(Write(mem, ptr, s), ptr + |text|) == s[|text|];
  }

  /** Storing writes only unused memory, so no earlier string changes, and the new
      string is there with its terminator. */
  lemma StoreWrites(pools: seq<Pool>, mem: Memory, text: seq<Byte>, at: nat)
    requires Vacant(mem, Target(pools, |text|, at), |text|)
    ensures var r := Store(pools, mem, text, at);
            && r.ptr == Target(pools, |text|, at)
            && r.ptr !in mem && Written(mem, r.mem, r.ptr, text)
  {
    WriteText(mem, Target(pools, |text|, at), text);
  }

  /** Filling one pool further keeps all pools sound. */
  lemma BumpSound(all: seq<Pool>, mem: Memory, mem': Memory, i: nat, n: nat)
    requires Sound(all, mem) && i < |all| && HasRoom(all[i], n)
    requires Extends(mem, mem')
    requires forall a | all[i].free <= a <= all[i].free + n :: a in mem'
    requires forall a | a in mem' :: a in mem || all[i].free <= a <= all[i].free + n
    ensures Sound(all[i := all[i].(free := all[i].free + n + 1)], mem')
  {
    var all' := all[i := all[i].(free := all[i].free + n + 1)];
    assert BlockOK(all[i], mem);
    forall j | 0 <= j < |all'|
      ensures BlockOK(all'[j], mem')
    {
      assert BlockOK(all[j], mem);
      if j < i {
        assert Disjoint(all[j], all[i]);
      } else if i < j {
        assert Disjoint(all[i], all[j]);
      }
    }
  }

  lemma NewPoolSound(all: seq<Pool>, mem: Memory, mem': Memory, p: Pool)
    requires Sound(all, mem) && Extends(mem, mem')
    requires p.base <= p.free <= p.base + p.size
    requires forall i | 0 <= i < |all| :: Disjoint(all[i], p)
    requires Vacant(mem, p.base, p.size)
    requires forall a | p.base <= a < p.free :: a in mem'
    requires forall a | a in mem' :: a in mem || p.base <= a < p.free
    ensures Sound([p] + all, mem')
  {
    var all' := [p] + all;
    forall j | 0 <= j < |all'|
      ensures BlockOK(all'[j], mem')
    {
      if j > 0 {
        assert BlockOK(all[j - 1], mem) && Disjoint(all[j - 1], p);
      }
    }
    forall i, j | 0 <= i < j < |all'|
      ensures Disjoint(all'[i], all'[j])
    {
      if i > 0 {
        assert Disjoint(all[i - 1], all[j - 1]);
      } else {
        assert Disjoint(all[j - 1], p);
      }
    }
  }

  lemma ConcatUpdate<T>(a: seq<T>, b: seq<T>, i: nat, x: T)
    requires i < |a|
    ensures a[i := x] + b == (a + b)[i := x]
  {
  }

  /** Pools never overlap or overwrite one another, whatever is stored. */
  lemma StoreSound(pools: seq<Pool>, others: seq<Pool>, mem: Memory, text: seq<Byte>, at: nat)
    requires Sound(pools + others, mem) && FreshBlock(pools + others, pools, mem, |text|, at)
    ensures var r := Store(pools, mem, text, at);
            Sound(r.pools + others, r.mem) && Holds(r.pools, r.mem, r.ptr, |text|)
  {
    TargetVacant(pools, others, mem, |text|, at);
    StoreWrites(pools, mem, text, at);
    var r := Store(pools, mem, text, at);
    if PoolFor(pools, |text|).Some? {
      var i, n := PoolFor(pools, |text|).value, |text|;
      BumpSound(pools + others, mem, r.mem, i, n);
      ConcatUpdate(pools, others, i, pools[i].(free := pools[i].free + n + 1));
      assert r.pools[i] in r.pools;
    } else {
      var p := r.pools[0];
      NewPoolSound(pools + others, mem, r.mem, p);
      Seqs.Assoc([p], pools, others);
      assert p in r.pools;
    }
  }

  /** What was held before is held after, with the same bytes. */
  lemma StoreKeeps(pools: seq<Pool>, others: seq<Pool>, mem: Memory, text: seq<Byte>, at: nat, ptr: nat, n: nat)
    requires Sound(pools + others, mem) && FreshBlock(pools + others, pools, mem, |text|, at)
    requires Holds(pools, mem, ptr, n)
    ensures var r := Store(pools, mem, text, at);
            Holds(r.pools, r.mem, ptr, n) && TextAt(r.mem, ptr, n) == TextAt(mem, ptr, n)
  {
    TargetVacant(pools, others, mem, |text|, at);
    StoreWrites(pools, mem, text, at);
    var r := Store(pools, mem, text, at);
    HeldReadable(pools, others, mem, ptr, n);
    assert TextAt(r.mem, ptr, n) == TextAt(mem, ptr, n);
    StoreCovers(pools, mem, text, at, ptr, n);
  }

  lemma StoreCovers(pools: seq<Pool>, mem: Memory, text: seq<Byte>, at: nat, ptr: nat, n: nat)
    requires exists p :: p in pools && p.base <= ptr && ptr + n + 1 <= p.free
    ensures exists p :: p in Store(pools, mem, text, at).pools && p.base <= ptr && ptr + n + 1 <= p.free
  {
    var r := Store(pools, mem, text, at);
    var p :| p in pools && p.base <= ptr && ptr + n + 1 <= p.free;
    var j :| 0 <= j < |pools| && pools[j] == p;
    match PoolFor(pools, |text|)
    case Some(i) =>
      assert r.pools[j] in r.pools && r.pools[j].base == p.base && r.pools[j].free >= p.free;
    case None =>
      assert r.pools[j + 1] == p;
  }

  lemma HeldReadable(pools: seq<Pool>, others: seq<Pool>, mem: Memory, ptr: nat, n: nat)
    requires Sound(pools + others, mem) && Holds(pools, mem, ptr, n)
    ensures forall a | ptr <= a <= ptr + n :: a in mem
  {
    var p :| p in pools && p.base <= ptr && ptr + n + 1 <= p.free;
    var i :| 0 <= i < |pools| && pools[i] == p;
    assert BlockOK((pools + others)[i], mem);
  }

  // -------------------------------------------------------------- block sizes

  /** Newest first, each block is at least four times as large as every older one. */
  ghost predicate Quadrupling(pools: seq<Pool>) {
    && (forall p | p in pools :: p.size >= 1000)
    && forall i, j | 0 <= i < j < |pools| :: pools[i].size >= 4 * pools[j].size
  }

  lemma StoreQuadruples(pools: seq<Pool>, mem: Memory, text: seq<Byte>, at: nat)
    requires Quadrupling(pools)
    ensures Quadrupling(Store(pools, mem, text, at).pools)
  {
    var r := Store(pools, mem, text, at).pools;
    match PoolFor(pools, |text|)
    case Some(i) =>
      SameSizes(pools, r);
    case None =>
      LargerFirst(pools, r[0], |text|);
  }

  lemma SameSizes(pools: seq<Pool>, r: seq<Pool>)
    requires Quadrupling(pools) && |r| == |pools| && forall j | 0 <= j < |r| :: r[j].size == pools[j].size
    ensures Quadrupling(r)
  {
    assert forall j | 0 <= j < |pools| :: pools[j] in pools;
  }

  lemma LargerFirst(pools: seq<Pool>, p: Pool, n: nat)
    requires Quadrupling(pools) && p.size == NewSize(pools, n)
    ensures Quadrupling([p] + pools)
  {
    MaxSizeBounds(pools);
    assert forall j | 0 <= j < |pools| :: pools[j] in pools && 1000 <= pools[j].size;
    assert p.size >= 1000 && p.size >= 4 * MaxSize(pools);
    var r := [p] + pools;
    forall i, j | 0 <= i < j < |r|
      ensures r[i].size >= 4 * r[j].size
    {
      assert r[j] == pools[j - 1];
      if i > 0 {
        assert r[i] == pools[i - 1];
      }
    }
  }

  // ------------------------------------------------------------------- ownership

  /** xmlDictOwns over the pools of a dictionary and of its sub-dictionaries. */
  predicate Owns(pools: seq<Pool>, ptr: nat) {
    exists i | 0 <= i < |pools| :: pools[i].base <= ptr <= pools[i].free
  }

  lemma HeldOwned(pools: seq<Pool>, mem: Memory, ptr: nat, n: nat)
    requires Holds(pools, mem, ptr, n)
    ensures Owns(pools, ptr)
  {
    var p :| p in pools && p.base <= ptr && ptr + n + 1 <= p.free;
    var i :| 0 <= i < |pools| && pools[i] == p;
  }
}
