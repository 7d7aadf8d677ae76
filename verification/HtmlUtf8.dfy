/** UTF-8 as the HTML parser writes it (htmlParseReference) and reads it
    (htmlCurrentChar).  Shifts and masks are written as division and remainder. */
module HtmlUtf8 {

  import opened Bytes

  /** IS_CHAR: the characters XML allows. */
  predicate IsChar(c: int) {
    c == 9 || c == 10 || c == 13 || 0x20 <= c <= 0xD7FF || 0xE000 <= c <= 0xFFFD || 0x10000 <= c <= 0x10FFFF
  }

  /** The limits of the ranges of legal characters. */
  lemma CharLimits()
    ensures IsChar(9) && IsChar(10) && IsChar(13) && IsChar(0x20) && IsChar(0xD7FF)
    ensures IsChar(0xE000) && IsChar(0xFFFD) && IsChar(0x10000) && IsChar(0x10FFFF)
    ensures !IsChar(0) && !IsChar(8) && !IsChar(11) && !IsChar(12) && !IsChar(14) && !IsChar(0x1F)
    ensures !IsChar(0xD800) && !IsChar(0xDFFF) && !IsChar(0xFFFE) && !IsChar(0xFFFF) && !IsChar(0x110000)
  {
  }

  type Char = c: int | 0 < c < 0x110000 && IsChar(c) witness 32

  function Trail(c: int, unit: int): Byte
    requires c >= 0 && unit > 0
  {
    (c / unit) % 64 + 0x80
  }

  function Utf8(c: Char): seq<Byte> {
    if c < 0x80 then (var b: Byte := c; [b])
    else if c < 0x800 then [c / 64 % 32 + 0xC0, Trail(c, 1)]
    else if c < 0x10000 then [c / 4096 % 16 + 0xE0, Trail(c, 64), Trail(c, 1)]
    else [c / 262144 % 8 + 0xF0, Trail(c, 4096), Trail(c, 64), Trail(c, 1)]
  }

  function Utf8All(cs: seq<Char>): seq<Byte> {
    if cs == [] then [] else Utf8(cs[0]) + Utf8All(cs[1..])
  }

  /** How many continuation bytes a leading byte announces; -1 for none possible. */
  function Trailing(d: Byte): int {
    if d < 0x80 then 0
    else if d < 0xC0 then -1
    else if d < 0xE0 then 1
    else if d < 0xF0 then 2
    else if d < 0xF8 then 3
    else -1
  }

  /** The payload bits of a leading byte. */
  function Lead(d: Byte): nat
    requires Trailing(d) >= 0
  {
    if d < 0x80 then d else if d < 0xE0 then d % 32 else if d < 0xF0 then d % 16 else d % 8
  }

  predicate IsTrail(d: Byte) {
    0x80 <= d < 0xC0
  }

  /** The value of a leading byte followed by continuation bytes. */
  function Gather(acc: nat, s: seq<Byte>): nat
    decreases |s|
  {
    if s == [] then acc else Gather(acc * 64 + s[0] % 64, s[1..])
  }

  /** The character at the front of `s`, as the reader of htmlCurrentChar computes it. */
  function Value(s: seq<Byte>): nat
    requires s != [] && 0 <= Trailing(s[0]) < |s|
  {
    Gather(Lead(s[0]), s[1..1 + Trailing(s[0])])
  }

  lemma GatherOne(acc: nat, x: Byte)
    ensures Gather(acc, [x]) == acc * 64 + x % 64
  {
    assert [x][1..] == [];
  }

  lemma GatherTwo(acc: nat, x: Byte, y: Byte)
    ensures Gather(acc, [x, y]) == (acc * 64 + x % 64) * 64 + y % 64
  {
    assert [x, y][1..] == [y];
    GatherOne(acc * 64 + x % 64, y);
  }

  lemma GatherThree(acc: nat, x: Byte, y: Byte, z: Byte)
    ensures Gather(acc, [x, y, z]) == ((acc * 64 + x % 64) * 64 + y % 64) * 64 + z % 64
  {
    assert [x, y, z][1..] == [y, z];
    GatherTwo(acc * 64 + x % 64, y, z);
  }

  lemma TrailBits(c: nat, unit: nat)
    requires unit > 0
    ensures Trail(c, unit) % 64 == c / unit % 64 && IsTrail(Trail(c, unit))
  {
  }

  lemma Quotients(c: nat)
    ensures c / 4096 == c / 64 / 64 && c / 262144 == c / 4096 / 64
  {
  }

  lemma Split64(n: nat)
    ensures n == n / 64 * 64 + n % 64
  {
  }

  lemma ReadsTwo(c: Char)
    requires 0x80 <= c < 0x800
    ensures Gather(c / 64 % 32, [Trail(c, 1)]) == c
  {
    TrailBits(c, 1);
    GatherOne(c / 64 % 32, Trail(c, 1));
  }

  lemma ReadsThree(c: Char)
    requires 0x800 <= c < 0x10000
    ensures Gather(c / 4096 % 16, [Trail(c, 64), Trail(c, 1)]) == c
  {
    TrailBits(c, 1);
    TrailBits(c, 64);
    GatherTwo(c / 4096 % 16, Trail(c, 64), Trail(c, 1));
    Quotients(c);
    Split64(c / 64);
    Split64(c);
  }

  lemma ReadsFour(c: Char)
    requires 0x10000 <= c
    ensures Gather(c / 262144 % 8, [Trail(c, 4096), Trail(c, 64), Trail(c, 1)]) == c
  {
    TrailBits(c, 1);
    TrailBits(c, 64);
    TrailBits(c, 4096);
    GatherThree(c / 262144 % 8, Trail(c, 4096), Trail(c, 64), Trail(c, 1));
    Quotients(c);
    Split64(c / 4096);
    Split64(c / 64);
    Split64(c);
  }

  lemma LeadBits(x: nat)
    ensures x < 32 ==> Trailing(x + 0xC0) == 1 && Lead(x + 0xC0) == x
    ensures x < 16 ==> Trailing(x + 0xE0) == 2 && Lead(x + 0xE0) == x
    ensures x < 8 ==> Trailing(x + 0xF0) == 3 && Lead(x + 0xF0) == x
  {
  }

  /** `u` has the shape its first byte announces and reads back as `c`. */
  predicate ReadsAs(u: seq<Byte>, c: int) {
    && u != [] && Trailing(u[0]) == |u| - 1
    && (forall i | 1 <= i < |u| :: IsTrail(u[i]))
    && Gather(Lead(u[0]), u[1..]) == c
  }

  lemma ReadsBytes(lead: nat, d: Byte, trail: seq<Byte>, c: int)
    requires Trailing(d) == |trail| && Lead(d) == lead && Gather(lead, trail) == c
    requires forall i | 0 <= i < |trail| :: IsTrail(trail[i])
    ensures ReadsAs([d] + trail, c)
  {
    assert ([d] + trail)[1..] == trail;
  }

  /** The writer's output has the announced shape and reads back as the character. */
  lemma Utf8Reads(c: Char)
    ensures ReadsAs(Utf8(c), c)
  {
    if c < 0x80 {
      ReadsBytes(c, c, [], c);
    } else if c < 0x800 {
      var x := c / 64 % 32;
      LeadBits(x);
      ReadsTwo(c);
      ReadsBytes(x, x + 0xC0, [Trail(c, 1)], c);
    } else if c < 0x10000 {
      var x := c / 4096 % 16;
      LeadBits(x);
      ReadsThree(c);
      ReadsBytes(x, x + 0xE0, [Trail(c, 64), Trail(c, 1)], c);
    } else {
      var x := c / 262144 % 8;
      LeadBits(x);
      ReadsFour(c);
      ReadsBytes(x, x + 0xF0, [Trail(c, 4096), Trail(c, 64), Trail(c, 1)], c);
    }
  }

  /** A character is read the same whatever follows it. */
  lemma Utf8ReadsInFront(c: Char, rest: seq<Byte>)
    ensures var s := Utf8(c) + rest;
            && Trailing(s[0]) == |Utf8(c)| - 1
            && (forall i | 1 <= i < |Utf8(c)| :: IsTrail(s[i]))
            && Value(s) == c && s[|Utf8(c)|..] == rest
  {
    var u, s := Utf8(c), Utf8(c) + rest;
    Utf8Reads(c);
    assert s[0] == u[0] && s[1..|u|] == u[1..];
  }

  lemma {:induction false} Utf8Concat(a: seq<Char>, b: seq<Char>)
    ensures Utf8All(a + b) == Utf8All(a) + Utf8All(b)
  {
    if a == [] {
      assert a + b == b;
    } else {
      assert (a + b)[1..] == a[1..] + b;
      Utf8Concat(a[1..], b);
    }
  }

  /** Two texts with the same bytes are the same text. */
  lemma {:induction false} Utf8Injective(a: seq<Char>, b: seq<Char>)
    requires Utf8All(a) == Utf8All(b)
    ensures a == b
  {
    if a != [] && b != [] {
      Utf8ReadsInFront(a[0], Utf8All(a[1..]));
      Utf8ReadsInFront(b[0], Utf8All(b[1..]));
      Utf8Injective(a[1..], b[1..]);
      assert a == [a[0]] + a[1..] && b == [b[0]] + b[1..];
    } else if a != [] {
      Utf8Reads(a[0]);
    } else if b != [] {
      Utf8Reads(b[0]);
    }
  }

  /** The writer of htmlParseReference: a leading byte, then six bits at a time. */
  method WriteUtf8(c: Char) returns (out: seq<Byte>)
    ensures out == Utf8(c)
  {
    var unit: int;
    if c < 0x80 {
      var b: Byte := c;
      out, unit := [b], 0;
    } else if c < 0x800 {
      out, unit := [c / 64 % 32 + 0xC0], 1;
    } else if c < 0x10000 {
      out, unit := [c / 4096 % 16 + 0xE0], 64;
    } else {
      out, unit := [c / 262144 % 8 + 0xF0], 4096;
    }
    while unit > 0
      invariant unit == 0 || unit == 1 || unit == 64 || unit == 4096
      invariant unit == 0 ==> out == Utf8(c)
      invariant unit == 1 ==> out + [Trail(c, 1)] == Utf8(c)
      invariant unit == 64 ==> out + [Trail(c, 64), Trail(c, 1)] == Utf8(c)
      invariant unit == 4096 ==> out + [Trail(c, 4096), Trail(c, 64), Trail(c, 1)] == Utf8(c)
      decreases unit
    {
      out := out + [Trail(c, unit)];
      unit := if unit == 4096 then 64 else if unit == 64 then 1 else 0;
    }
  }
}
