/** xmlStrQEqual: comparing a prefix and a name with a stored string. */
module DictQName {

  import opened Bytes
  import opened DictHash

  /** Byte `i` of a terminated string. */
  function At(s: seq<Byte>, i: nat): Byte {
    if i < |s| then s[i] else 0
  }

  /** The do-while loop over the prefix: -1 on a mismatch, else the place after it. */
  function AfterPrefix(p: seq<Byte>, s: seq<Byte>, i: nat): int
    decreases |p| - i
  {
    if At(p, i) != At(s, i) then -1
    else if At(s, i) != 0 && At(p, i + 1) != 0 then AfterPrefix(p, s, i + 1)
    else i + 1
  }

  /** The do-while loop over the name. */
  predicate SameRest(n: seq<Byte>, s: seq<Byte>, k: nat, j: nat)
    decreases |s| - (j + k)
  {
    At(n, k) == At(s, j + k) && (At(s, j + k) == 0 || SameRest(n, s, k + 1, j))
  }

  predicate QEqual(prefix: seq<Byte>, name: seq<Byte>, s: seq<Byte>) {
    var j := AfterPrefix(prefix, s, 0);
    j >= 0 && At(s, j) == COLON && SameRest(name, s, 0, j + 1)
  }

  lemma {:induction false} AfterPrefixMeans(p: seq<Byte>, s: seq<Byte>, i: nat)
    requires 0 !in p && i < |p| <= |s|
    ensures AfterPrefix(p, s, i) == if p[i..] == s[i..|p|] then |p| else -1
    decreases |p| - i
  {
    assert p[i..] == [p[i]] + p[i + 1..] && s[i..|p|] == [s[i]] + s[i + 1..|p|];
    if i + 1 < |p| {
      AfterPrefixMeans(p, s, i + 1);
    }
  }

  lemma {:induction false} SameRestMeans(n: seq<Byte>, s: seq<Byte>, k: nat, j: nat)
    requires 0 !in n && k <= |n| && j + |n| == |s|
    ensures SameRest(n, s, k, j) <==> n[k..] == s[j + k..]
    decreases |n| - k
  {
    if k < |n| {
      assert n[k..] == [n[k]] + n[k + 1..] && s[j + k..] == [s[j + k]] + s[j + k + 1..];
      SameRestMeans(n, s, k + 1, j);
    } else {
      assert n[k..] == [] && s[j + k..] == [];
    }
  }

  /** On strings of the right length the comparison is equality with "prefix:name",
      except that an empty prefix never matches. */
  lemma QEqualMeans(prefix: seq<Byte>, name: seq<Byte>, s: seq<Byte>)
    requires 0 !in prefix && 0 !in name && |s| == |prefix| + 1 + |name|
    ensures QEqual(prefix, name, s) <==> prefix != [] && s == prefix + [COLON] + name
  {
    var n := |prefix|;
    if prefix == [] {
      EmptyPrefixFails(name, s);
    } else {
      AfterPrefixMeans(prefix, s, 0);
      SameRestMeans(name, s, 0, n + 1);
      assert s == s[..n] + [s[n]] + s[n + 1..];
      assert prefix[0..] == prefix && s[0..n] == s[..n];
      var t := prefix + [COLON] + name;
      assert t[..n] == prefix && t[n] == COLON && t[n + 1..] == name;
    }
  }

  lemma EmptyPrefixFails(name: seq<Byte>, s: seq<Byte>)
    requires 0 !in name && |s| == 1 + |name|
    ensures !QEqual([], name, s)
  {
    if s[0] == 0 && At(s, 1) == COLON {
      assert AfterPrefix([], s, 0) == 1;
      ShortRest(name, s, 0);
    }
  }

  lemma {:induction false} ShortRest(name: seq<Byte>, s: seq<Byte>, k: nat)
    requires 0 !in name && |s| == 1 + |name| && k < |name|
    ensures !SameRest(name, s, k, 2)
    decreases |name| - k
  {
    if k + 1 < |name| {
      ShortRest(name, s, k + 1);
    }
  }

  /** xmlStrQEqual as written. */
  method StrQEqual(prefix: seq<Byte>, name: seq<Byte>, s: seq<Byte>) returns (r: bool)
    ensures r == QEqual(prefix, name, s)
  {
    var i: nat := 0;
    while true
      invariant AfterPrefix(prefix, s, 0) == AfterPrefix(prefix, s, i)
      decreases |prefix| - i
    {
      if At(prefix, i) != At(s, i) {
        return false;
      }
      var more := At(s, i) != 0;
      i := i + 1;
      if !(more && At(prefix, i) != 0) {
        break;
      }
    }
    if At(s, i) != COLON {
      return false;
    }
    i := i + 1;
    var k: nat := 0;
    while true
      invariant SameRest(name, s, 0, i) == SameRest(name, s, k, i)
      decreases |s| - (i + k)
    {
      if At(name, k) != At(s, i + k) {
        return false;
      }
      if At(s, i + k) == 0 {
        break;
      }
      k := k + 1;
    }
    r := true;
  }
}
