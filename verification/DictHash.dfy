/** The four hash functions of the string dictionary. */
module DictHash {

  import opened Bytes

  const COLON: Byte := 58

  // ------------------------------------- the hash of large tables, 32 bits wide

  /** One byte of Jenkins' one-at-a-time hash. */
  function BigStep(h: bv32, b: Byte): bv32 {
    var h1 := h + (b as bv32);
    var h2 := h1 + (h1 << 10);
    h2 ^ (h2 >> 6)
  }

  function BigFold(h: bv32, s: seq<Byte>): bv32
    decreases |s|
  {
    if s == [] then h else BigFold(BigStep(h, s[0]), s[1..])
  }

  function BigFinish(h: bv32): bv32 {
    var h1 := h + (h << 3);
    var h2 := h1 ^ (h1 >> 11);
    h2 + (h2 << 15)
  }

  function BigKey(s: seq<Byte>): nat {
    if s == [] then 0 else BigFinish(BigFold(0, s)) as nat
  }

  function BigQKey(prefix: seq<Byte>, name: seq<Byte>): nat {
    BigFinish(BigFold(BigStep(BigFold(0, prefix), COLON), name)) as nat
  }

  lemma {:induction false} BigFoldConcat(h: bv32, a: seq<Byte>, b: seq<Byte>)
    ensures BigFold(h, a + b) == BigFold(BigFold(h, a), b)
    decreases |a|
  {
    if a == [] {
      assert a + b == b;
    } else {
      assert (a + b)[1..] == a[1..] + b;
      BigFoldConcat(BigStep(h, a[0]), a[1..], b);
    }
  }

  /** In large tables a prefixed name hashes like the text "prefix:name". */
  lemma BigQKeyIsBigKey(prefix: seq<Byte>, name: seq<Byte>)
    ensures BigQKey(prefix, name) == BigKey(prefix + [COLON] + name)
  {
    var text := prefix + [COLON] + name;
    BigFoldConcat(0, prefix + [COLON], name);
    BigFoldConcat(0, prefix, [COLON]);
    assert [COLON][1..] == [];
    var h := BigFold(0, prefix);
    assert BigFold(h, [COLON]) == BigFold(BigStep(h, COLON), []);
  }

  /** xmlDictComputeBigKey. */
  method ComputeBigKey(data: seq<Byte>) returns (key: nat)
    ensures key == BigKey(data)
  {
    if |data| <= 0 {
      return 0;
    }
    var hash: bv32 := FoldBytes(0, data);
    key := BigFinish(hash) as nat;
  }

  /** The loop shared by both large-table hashes. */
  method FoldBytes(seed: bv32, data: seq<Byte>) returns (hash: bv32)
    ensures hash == BigFold(seed, data)
  {
    hash := seed;
    assert data[0..] == data;
    for i := 0 to |data|
      invariant BigFold(hash, data[i..]) == BigFold(seed, data)
    {
      assert data[i..][0] == data[i] && data[i..][1..] == data[i + 1..];
      hash := BigStep(hash, data[i]);
    }
    assert data[|data|..] == [];
  }

  /** xmlDictComputeBigQKey. */
  method ComputeBigQKey(prefix: seq<Byte>, name: seq<Byte>) returns (key: nat)
    ensures key == BigQKey(prefix, name)
  {
    var hash := FoldBytes(0, prefix);
    hash := BigStep(hash, COLON);
    hash := FoldBytes(hash, name);
    key := BigFinish(hash) as nat;
  }

  // ------------------------------------------------- the hash of small tables

  function Sum(s: seq<Byte>): nat {
    if s == [] then 0 else Sum(s[..|s| - 1]) + s[|s| - 1]
  }

  function Min(a: nat, b: nat): nat {
    if a < b then a else b
  }

  /** xmlDictComputeFastKey.  `next` is the byte in memory after the text: the
      source reads name[0] even when the text is empty. */
  function FastKey(text: seq<Byte>, next: Byte): nat {
    var first := if text == [] then next else text[0];
    first * 32
    + (if |text| > 10 then text[|text| - 1] else 0)
    + (if |text| > 1 then Sum(text[1..Min(|text|, 10)]) else 0)
  }

  /** xmlDictComputeFastQKey.  When the prefix is nearly as long as a long name the
      source looks in front of `name`; `stray` is what it finds there. */
  function FastQKey(prefix: seq<Byte>, name: seq<Byte>, stray: Byte): nat {
    var lead := 30 * (if prefix == [] then COLON else prefix[0]);
    var long := |name| > 10;
    var extra := if !long then 0
                 else if |name| - (|prefix| + 2) >= 0 then name[|name| - (|prefix| + 2)]
                 else stray;
    var plen := if long then Min(|prefix|, 10) else |prefix|;
    var psum := if plen <= 10 then Sum(prefix[..plen]) else 0;
    var room := (if long then 10 else |name|) - plen;
    var colon := if room > 0 then COLON else 0;
    var rest := if room > 0 then room - 1 else 0;
    lead + extra + psum + colon + Sum(name[..rest])
  }

  /** In small tables the two hashes differ: here for "a" and "b" against "a:b". */
  lemma FastKeysDiffer(next: Byte, stray: Byte)
    ensures FastQKey([97], [98], stray) != FastKey([97] + [COLON] + [98], next)
  {
    var text: seq<Byte> := [97, COLON, 98];
    assert [97] + [COLON] + [98] == text && text[1..3] == [COLON, 98];
    assert [COLON, 98][..1] == [COLON] && [COLON][..0] == [];
    assert Sum([COLON, 98]) == Sum([COLON]) + 98;
    assert [97][..1] == [97] && [97][..0] == [] && [98][..0] == [];
  }

  // ------------------------------------------------------------------ known values

  /** Known values of the one-at-a-time hash. */
  lemma BigVectors()
    ensures BigKey([]) == 0 && BigKey([97]) == 0xCA2E9442 && BigKey([97, 58, 98]) == 2324886684
  {
    var a: seq<Byte> := [97];
    var ab: seq<Byte> := [97, 58, 98];
    assert a[1..] == [] && ab[1..] == [58, 98] && ab[1..][1..] == [98] && ab[1..][1..][1..] == [];
    assert BigFold(0, ab) == BigFold(BigStep(0, 97), [58, 98]);
    assert BigFold(BigStep(0, 97), [58, 98]) == BigFold(BigStep(BigStep(0, 97), 58), [98]);
    assert BigFold(BigStep(BigStep(0, 97), 58), [98]) == BigStep(BigStep(BigStep(0, 97), 58), 98);
  }

  /** `n` bytes that follow each other in value. */
  function Rising(first: Byte, n: nat): (s: seq<Byte>)
    requires first + n <= 256
    ensures |s| == n && forall i | 0 <= i < n :: s[i] == first + i
  {
    if n == 0 then [] else Rising(first, n - 1) + [first + n - 1]
  }

  lemma {:induction false} SumRising(first: Byte, n: nat)
    requires first + n <= 256
    ensures 2 * Sum(Rising(first, n)) == n * (2 * first + n - 1)
  {
    if n > 0 {
      SumRising(first, n - 1);
      var s := Rising(first, n);
      assert s[..|s| - 1] == Rising(first, n - 1);
    }
  }

  /** Known values of the hash of small tables: one letter, "ab", the ten letters from "a"
      on and the eleven. */
  lemma FastVectors(next: Byte)
    ensures FastKey([], next) == 32 * next && FastKey([97], next) == 3104
    ensures FastKey([97, 98], next) == 3202
    ensures FastKey(Rising(97, 10), next) == 4022 && FastKey(Rising(97, 11), next) == 4129
  {
    SumRising(98, 1);
    SumRising(98, 9);
    var ab: seq<Byte> := [97, 98];
    assert ab[1..2] == Rising(98, 1);
    assert Rising(97, 10)[1..10] == Rising(98, 9) && Rising(97, 11)[1..10] == Rising(98, 9);
  }

  /** The same of the prefixed hash: short and long names, with short and long prefixes. */
  lemma FastQVectors(stray: Byte)
    ensures FastQKey([112], [98], stray) == 3472
    ensures FastQKey([112], Rising(97, 10), stray) == 4334
    ensures FastQKey([112], Rising(97, 11), stray) == 4439
    ensures FastQKey(Rising(97, 11), Rising(97, 11), stray) == 3925 + stray
    ensures FastQKey(Rising(97, 11), [98], stray) == 2910
    ensures FastQKey(Rising(97, 9), Rising(97, 11), stray) == 3974
  {
    SumRising(97, 9);
    assert Rising(97, 9)[..9] == Rising(97, 9);
    SumRising(112, 1);
    SumRising(97, 8);
    SumRising(97, 10);
    SumRising(97, 0);
    var p: seq<Byte> := [112];
    assert p[..1] == Rising(112, 1) && p[..0] == Rising(97, 0);
    assert Rising(97, 10)[..8] == Rising(97, 8) && Rising(97, 11)[..8] == Rising(97, 8);
    assert Rising(97, 11)[..10] == Rising(97, 10) && Rising(97, 11)[..0] == Rising(97, 0);
    var b: seq<Byte> := [98];
    assert b[..0] == Rising(97, 0);
  }

  /** xmlDictComputeFastKey as written: a fall-through switch is a downward sum. */
  method ComputeFastKey(text: seq<Byte>, next: Byte) returns (value: nat)
    ensures value == FastKey(text, next)
  {
    var first := if text == [] then next else text[0];
    value := first * 32;
    var namelen := |text|;
    if namelen > 10 {
      value := value + text[namelen - 1];
      namelen := 10;
    }
    if namelen > 1 {
      var part := SumDown(text[1..namelen]);
      value := value + part;
    }
  }

  /** xmlDictComputeFastQKey as written. */
  method ComputeFastQKey(prefix: seq<Byte>, name: seq<Byte>, stray: Byte) returns (value: nat)
    ensures value == FastQKey(prefix, name, stray)
  {
    value := 30 * (if |prefix| == 0 then COLON else prefix[0]);
    var len: int, plen := |name|, |prefix|;
    if len > 10 {
      var k := len - (plen + 1 + 1);
      value := value + (if k >= 0 then name[k] else stray);
      len := 10;
      if plen > 10 {
        plen := 10;
      }
    }
    if plen <= 10 {
      var part := SumDown(prefix[..plen]);
      value := value + part;
    }
    len := len - plen;
    if len > 0 {
      value := value + COLON;
      len := len - 1;
    }
    if len > 0 {
      var part := SumDown(name[..len]);
      value := value + part;
    }
  }

  method SumDown(s: seq<Byte>) returns (value: nat)
    ensures value == Sum(s)
  {
    value := 0;
    var i: nat := |s|;
    assert s[..|s|] == s;
    while i > 0
      invariant i <= |s| && value + Sum(s[..i]) == Sum(s)
    {
      assert s[..i][..i - 1] == s[..i - 1];
      i := i - 1;
      value := value + s[i];
    }
  }
}
