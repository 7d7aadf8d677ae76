/** The transcoder from UTF-8 to ASCII with HTML entities, and the reader of its output. */
module HtmlEncode {

  import opened Bytes
  import opened Optional
  import opened HtmlUtf8
  import Seqs

  const AMP: Byte := 38
  const HASH: Byte := 35
  const SEMI: Byte := 59
  const LT: Byte := 60
  const GT: Byte := 62

  // ----------------------------------------------------------- the entity table

  datatype Entity = Entity(value: nat, name: seq<Byte>)

  predicate IsAlpha(b: Byte) { 0x41 <= b <= 0x5A || 0x61 <= b <= 0x7A }

  predicate IsDigit(b: Byte) { 0x30 <= b <= 0x39 }

  /** What the proofs need of the table: values ascend, names are different words. */
  ghost predicate TableOK(tab: seq<Entity>) {
    && (forall i, j | 0 <= i < j < |tab| :: tab[i].value < tab[j].value)
    && (forall i, j | 0 <= i < j < |tab| :: tab[i].name != tab[j].name)
    && (forall i | 0 <= i < |tab| :: IsChar(tab[i].value) && IsWord(tab[i].name))
  }

  predicate IsWord(s: seq<Byte>) {
    s != [] && IsAlpha(s[0]) && forall i | 0 <= i < |s| :: IsAlpha(s[i]) || IsDigit(s[i])
  }

  /** htmlEntityValueLookup: a scan that gives up at the first larger value. */
  function ByValue(tab: seq<Entity>, v: nat): Option<Entity> {
    if tab == [] then None
    else if tab[0].value >= v then (if tab[0].value > v then None else Some(tab[0]))
    else ByValue(tab[1..], v)
  }

  /** htmlEntityLookup. */
  function ByName(tab: seq<Entity>, name: seq<Byte>): Option<Entity> {
    if tab == [] then None
    else if tab[0].name == name then Some(tab[0])
    else ByName(tab[1..], name)
  }

  lemma {:induction false} ByValueFinds(tab: seq<Entity>, v: nat)
    requires TableOK(tab)
    ensures ByValue(tab, v).Some? ==> ByValue(tab, v).value in tab && ByValue(tab, v).value.value == v
    ensures ByValue(tab, v).None? ==> forall e | e in tab :: e.value != v
  {
    if tab != [] {
      ByValueFinds(tab[1..], v);
      assert forall e | e in tab :: e == tab[0] || e in tab[1..];
    }
  }

  lemma {:induction false} ByNameFinds(tab: seq<Entity>, e: Entity)
    requires TableOK(tab) && e in tab
    ensures ByName(tab, e.name) == Some(e)
  {
    if tab[0] != e {
      assert e in tab[1..];
      ByNameFinds(tab[1..], e);
    }
  }

  method EntityValueLookup(tab: seq<Entity>, v: nat) returns (r: Option<Entity>)
    ensures r == ByValue(tab, v)
  {
    assert tab[0..] == tab;
    for i := 0 to |tab|
      invariant ByValue(tab, v) == ByValue(tab[i..], v)
    {
      assert tab[i..][0] == tab[i] && tab[i..][1..] == tab[i + 1..];
      if tab[i].value >= v {
        if tab[i].value > v {
          break;
        }
        return Some(tab[i]);
      }
    }
    r := None;
  }

  method EntityLookup(tab: seq<Entity>, name: seq<Byte>) returns (r: Option<Entity>)
    ensures r == ByName(tab, name)
  {
    assert tab[0..] == tab;
    for i := 0 to |tab|
      invariant ByName(tab, name) == ByName(tab[i..], name)
    {
      assert tab[i..][0] == tab[i] && tab[i..][1..] == tab[i + 1..];
      if tab[i].name == name {
        return Some(tab[i]);
      }
    }
    r := None;
  }

  // ---------------------------------------------------------------- encoding

  /** Decimal digits, as "%u" prints them. */
  function Dec(n: nat): (s: seq<Byte>)
    ensures s != [] && forall i | 0 <= i < |s| :: IsDigit(s[i])
  {
    if n < 10 then [48 + n] else Dec(n / 10) + [48 + n % 10]
  }

  predicate Plain(quote: int, c: nat) {
    c < 0x80 && c != quote && c != AMP && c != LT && c != GT
  }

  function RefName(tab: seq<Entity>, c: nat): seq<Byte> {
    match ByValue(tab, c)
    case Some(e) => e.name
    case None => [HASH] + Dec(c)
  }

  function EncodeChar(tab: seq<Entity>, quote: int, c: nat): seq<Byte> {
    if Plain(quote, c) then (var b: Byte := c; [b]) else [AMP] + RefName(tab, c) + [SEMI]
  }

  function EncodeAll(tab: seq<Entity>, quote: int, cs: seq<Char>): seq<Byte> {
    if cs == [] then [] else EncodeChar(tab, quote, cs[0]) + EncodeAll(tab, quote, cs[1..])
  }

  /** Result code, bytes written, bytes read. */
  datatype Outcome = Outcome(code: int, out: seq<Byte>, used: nat)

  predicate GoodTrail(s: seq<Byte>, n: nat) {
    n < |s| && forall i | 1 <= i <= n :: IsTrail(s[i])
  }

  /** htmlEncodeEntities on the input `s` with `room` bytes of output space. */
  function Encode(tab: seq<Entity>, quote: int, s: seq<Byte>, room: nat): (r: Outcome)
    ensures r.used <= |s| && |r.out| <= room
    decreases |s|
  {
    if s == [] then Outcome(0, [], 0)
    else
      var n := Trailing(s[0]);
      if n < 0 then Outcome(-2, [], 0)
      else if |s| - 1 < n then Outcome(0, [], 0)
      else if !GoodTrail(s, n) then Outcome(-2, [], 0)
      else
        var e := EncodeChar(tab, quote, Value(s));
        if |e| > room then Outcome(0, [], 0)
        else
          var r := Encode(tab, quote, s[1 + n..], room - |e|);
          Outcome(r.code, e + r.out, 1 + n + r.used)
  }

  lemma {:induction false} EncodeConcat(tab: seq<Entity>, quote: int, a: seq<Char>, b: seq<Char>)
    ensures EncodeAll(tab, quote, a + b) == EncodeAll(tab, quote, a) + EncodeAll(tab, quote, b)
  {
    if a == [] {
      assert a + b == b;
    } else {
      assert (a + b)[1..] == a[1..] + b;
      EncodeConcat(tab, quote, a[1..], b);
      Seqs.Assoc(EncodeChar(tab, quote, a[0]), EncodeAll(tab, quote, a[1..]), EncodeAll(tab, quote, b));
    }
  }

  /** How many characters fit: the longest prefix whose encoding has room. */
  function Fit(tab: seq<Entity>, quote: int, cs: seq<Char>, room: nat): (k: nat)
    ensures k <= |cs|
  {
    if cs == [] then 0
    else
      var e := EncodeChar(tab, quote, cs[0]);
      if |e| > room then 0 else 1 + Fit(tab, quote, cs[1..], room - |e|)
  }

  lemma PrefixCons(tab: seq<Entity>, quote: int, cs: seq<Char>, k: nat)
    requires 0 < k <= |cs|
    ensures EncodeAll(tab, quote, cs[..k]) == EncodeChar(tab, quote, cs[0]) + EncodeAll(tab, quote, cs[1..][..k - 1])
    ensures Utf8All(cs[..k]) == Utf8(cs[0]) + Utf8All(cs[1..][..k - 1])
  {
    assert cs[..k][0] == cs[0] && cs[..k][1..] == cs[1..][..k - 1];
  }

  /** On the UTF-8 of legal characters, for every output size: success, exactly the
      characters that fit, and a consumed prefix that ends on a character boundary. */
  lemma {:induction false} EncodesWhatFits(tab: seq<Entity>, quote: int, cs: seq<Char>, room: nat)
    ensures var k := Fit(tab, quote, cs, room);
            Encode(tab, quote, Utf8All(cs), room) ==
            Outcome(0, EncodeAll(tab, quote, cs[..k]), |Utf8All(cs[..k])|)
    decreases |cs|
  {
    var k := Fit(tab, quote, cs, room);
    if cs != [] {
      EncodeFirst(tab, quote, cs[0], Utf8All(cs[1..]), room);
      var e := EncodeChar(tab, quote, cs[0]);
      if |e| <= room {
        EncodesWhatFits(tab, quote, cs[1..], room - |e|);
        FitCons(tab, quote, cs, room);
      } else {
        assert cs[..k] == [];
      }
    }
  }

  /** One more character fits when it fits itself. */
  lemma FitCons(tab: seq<Entity>, quote: int, cs: seq<Char>, room: nat)
    requires cs != [] && |EncodeChar(tab, quote, cs[0])| <= room
    ensures var e := EncodeChar(tab, quote, cs[0]); var rest := cs[1..];
            var k, j := Fit(tab, quote, cs, room), Fit(tab, quote, rest, room - |e|);
            && k == j + 1
            && EncodeAll(tab, quote, cs[..k]) == e + EncodeAll(tab, quote, rest[..j])
            && |Utf8All(cs[..k])| == |Utf8(cs[0])| + |Utf8All(rest[..j])|
  {
    PrefixCons(tab, quote, cs, Fit(tab, quote, cs, room));
  }

  lemma EncodeFirst(tab: seq<Entity>, quote: int, c: Char, rest: seq<Byte>, room: nat)
    ensures var e := EncodeChar(tab, quote, c);
            Encode(tab, quote, Utf8(c) + rest, room) ==
            if |e| > room then Outcome(0, [], 0)
            else
              var r := Encode(tab, quote, rest, room - |e|);
              Outcome(r.code, e + r.out, |Utf8(c)| + r.used)
  {
    Utf8ReadsInFront(c, rest);
    Utf8Reads(c);
    assert GoodTrail(Utf8(c) + rest, |Utf8(c)| - 1);
  }

  /** What fits cannot be extended by one more character. */
  lemma {:induction false} FitIsMaximal(tab: seq<Entity>, quote: int, cs: seq<Char>, room: nat)
    ensures var k := Fit(tab, quote, cs, room);
            && |EncodeAll(tab, quote, cs[..k])| <= room
            && (k < |cs| ==> |EncodeAll(tab, quote, cs[..k + 1])| > room)
    decreases |cs|
  {
    var k := Fit(tab, quote, cs, room);
    if cs != [] {
      var e := EncodeChar(tab, quote, cs[0]);
      if |e| <= room {
        FitIsMaximal(tab, quote, cs[1..], room - |e|);
        FitCons(tab, quote, cs, room);
        if k < |cs| {
          PrefixCons(tab, quote, cs, k + 1);
          assert |EncodeAll(tab, quote, cs[..k + 1])| == |e| + |EncodeAll(tab, quote, cs[1..][..k])|;
        }
      } else {
        assert cs[..1] == [cs[0]] && [cs[0]][1..] == [];
      }
    }
  }

  // --------------------------------------------------------------- resumption

  /** Calls the encoder once per output buffer, each time on what is left. */
  function Repeatedly(tab: seq<Entity>, quote: int, s: seq<Byte>, rooms: seq<nat>): (r: (seq<Byte>, seq<Byte>))
    decreases |rooms|
  {
    if rooms == [] then ([], s)
    else
      var r := Encode(tab, quote, s, rooms[0]);
      var (out, rest) := Repeatedly(tab, quote, s[r.used..], rooms[1..]);
      (r.out + out, rest)
  }

  /** Whatever the buffer sizes, the pieces are the encoding of the characters consumed
      and the rest is the UTF-8 of the others. */
  lemma {:induction false} Resumable(tab: seq<Entity>, quote: int, cs: seq<Char>, rooms: seq<nat>)
    ensures var k := Consumed(tab, quote, cs, rooms);
            Repeatedly(tab, quote, Utf8All(cs), rooms) == (EncodeAll(tab, quote, cs[..k]), Utf8All(cs[k..]))
    decreases |rooms|
  {
    if rooms == [] {
      assert cs[..0] == [] && cs[0..] == cs;
    } else {
      var j := Fit(tab, quote, cs, rooms[0]);
      FirstCall(tab, quote, cs, rooms);
      Resumable(tab, quote, cs[j..], rooms[1..]);
      SplitEncoded(tab, quote, cs, j, Consumed(tab, quote, cs[j..], rooms[1..]));
    }
  }

  lemma FirstCall(tab: seq<Entity>, quote: int, cs: seq<Char>, rooms: seq<nat>)
    requires rooms != []
    ensures var j := Fit(tab, quote, cs, rooms[0]);
            var r := Repeatedly(tab, quote, Utf8All(cs[j..]), rooms[1..]);
            Repeatedly(tab, quote, Utf8All(cs), rooms) == (EncodeAll(tab, quote, cs[..j]) + r.0, r.1)
  {
    EncodesWhatFits(tab, quote, cs, rooms[0]);
    SplitUtf8(cs, Fit(tab, quote, cs, rooms[0]));
  }

  /** How many characters a series of calls gets through. */
  function Consumed(tab: seq<Entity>, quote: int, cs: seq<Char>, rooms: seq<nat>): (k: nat)
    ensures k <= |cs|
    decreases |rooms|
  {
    if rooms == [] then 0
    else
      var j := Fit(tab, quote, cs, rooms[0]);
      j + Consumed(tab, quote, cs[j..], rooms[1..])
  }

  lemma SplitEncoded(tab: seq<Entity>, quote: int, cs: seq<Char>, j: nat, i: nat)
    requires j + i <= |cs|
    ensures EncodeAll(tab, quote, cs[..j + i]) == EncodeAll(tab, quote, cs[..j]) + EncodeAll(tab, quote, cs[j..][..i])
    ensures cs[j + i..] == cs[j..][i..]
  {
    assert cs[..j + i] == cs[..j] + cs[j..][..i];
    EncodeConcat(tab, quote, cs[..j], cs[j..][..i]);
  }

  lemma SplitUtf8(cs: seq<Char>, j: nat)
    requires j <= |cs|
    ensures |Utf8All(cs[..j])| <= |Utf8All(cs)|
    ensures Utf8All(cs)[..|Utf8All(cs[..j])|] == Utf8All(cs[..j])
    ensures Utf8All(cs)[|Utf8All(cs[..j])|..] == Utf8All(cs[j..])
  {
    assert cs == cs[..j] + cs[j..];
    Utf8Concat(cs[..j], cs[j..]);
  }

  /** Once nothing is left the pieces are the one-shot output. */
  lemma ResumedOutput(tab: seq<Entity>, quote: int, cs: seq<Char>, rooms: seq<nat>)
    requires Repeatedly(tab, quote, Utf8All(cs), rooms).1 == []
    ensures Repeatedly(tab, quote, Utf8All(cs), rooms).0 == EncodeAll(tab, quote, cs)
  {
    var k := Consumed(tab, quote, cs, rooms);
    Resumable(tab, quote, cs, rooms);
    NoBytesNoChars(cs[k..]);
    assert cs[..k] == cs;
  }

  lemma NoBytesNoChars(cs: seq<Char>)
    requires Utf8All(cs) == []
    ensures cs == []
  {
    if cs != [] {
      Utf8Reads(cs[0]);
    }
  }

  // ------------------------------------------------------------- reading it back

  predicate IsNameStart(b: Byte) { IsAlpha(b) || b == 0x5F || b == 0x3A }

  predicate IsNameByte(b: Byte) { IsNameStart(b) || IsDigit(b) || b == 0x2D || b == 0x2E }

  function NameRun(s: seq<Byte>): (n: nat)
    ensures n <= |s|
  {
    if s == [] || !IsNameByte(s[0]) then 0 else 1 + NameRun(s[1..])
  }

  /** htmlParseName, for names of ASCII characters. */
  function NameLength(s: seq<Byte>): (n: nat)
    ensures n <= |s|
  {
    if s == [] || !IsNameStart(s[0]) then 0 else NameRun(s)
  }

  function DigitValue(b: Byte, base: nat): int {
    if IsDigit(b) then b - 48
    else if base == 16 && 0x61 <= b <= 0x66 then b - 0x61 + 10
    else if base == 16 && 0x41 <= b <= 0x46 then b - 0x41 + 10
    else -1
  }

  /** The digit loop of htmlParseCharRef: value and number of bytes read, the closing
      semicolon included. */
  function Number(s: seq<Byte>, base: nat, acc: nat): (r: (nat, nat))
    ensures r.1 <= |s|
  {
    if s == [] then (acc, 0)
    else if s[0] == SEMI then (acc, 1)
    else if DigitValue(s[0], base) < 0 then (acc, 0)
    else
      var (v, n) := Number(s[1..], base, acc * base + DigitValue(s[0], base));
      (v, n + 1)
  }

  /** One step of reading content: the characters delivered and the bytes read. */
  function ReadStep(tab: seq<Entity>, s: seq<Byte>): (r: (seq<nat>, nat))
    requires s != []
    ensures 1 <= r.1 <= |s|
  {
    if s[0] == AMP then
      if |s| >= 3 && s[1] == HASH && (s[2] == 0x78 || s[2] == 0x58) then
        var (v, n) := Number(s[3..], 16, 0);
        (if IsChar(v) then [v] else [], 3 + n)
      else if |s| >= 2 && s[1] == HASH then
        var (v, n) := Number(s[2..], 10, 0);
        (if IsChar(v) then [v] else [], 2 + n)
      else
        var n := NameLength(s[1..]);
        var name := s[1..1 + n];
        if n == 0 then ([AMP], 1)
        else if 1 + n < |s| && s[1 + n] == SEMI && ByName(tab, name).Some? && ByName(tab, name).value.value > 0 then
          ([ByName(tab, name).value.value], n + 2)
        else ([AMP] + Widen(name), 1 + n)
    else if s[0] >= 0x80 && Trailing(s[0]) >= 0 && GoodTrail(s, Trailing(s[0])) then
      ([Value(s)], 1 + Trailing(s[0]))
    else ([s[0]], 1)
  }

  function Widen(s: seq<Byte>): seq<nat> {
    if s == [] then [] else [s[0]] + Widen(s[1..])
  }

  function Read(tab: seq<Entity>, s: seq<Byte>): seq<nat>
    decreases |s|
  {
    if s == [] then []
    else
      var (cs, n) := ReadStep(tab, s);
      cs + Read(tab, s[n..])
  }

  /** Value and end position of the digits from `q` on. */
  function NumberFrom(s: seq<Byte>, q: nat, base: nat, acc: nat): (nat, nat)
    requires q <= |s|
  {
    var r := Number(s[q..], base, acc);
    (r.0, q + r.1)
  }

  lemma NumberNext(s: seq<Byte>, q: nat, base: nat, acc: nat)
    requires q < |s| && s[q] != SEMI
    ensures var d := DigitValue(s[q], base);
            NumberFrom(s, q, base, acc) == if d < 0 then (acc, q) else NumberFrom(s, q + 1, base, acc * base + d)
  {
    assert s[q..][0] == s[q] && s[q..][1..] == s[q + 1..];
  }

  lemma NumberStops(s: seq<Byte>, q: nat, base: nat, acc: nat)
    requires q <= |s| && (q < |s| ==> s[q] == SEMI)
    ensures NumberFrom(s, q, base, acc) == (acc, if q < |s| then q + 1 else q)
  {
  }

  /** The digit loop of htmlParseCharRef from position `p`: the value and the position
      after the digits and a closing semicolon. */
  method ParseDigits(s: seq<Byte>, p: nat, base: nat) returns (val: nat, q: nat)
    requires p <= |s|
    ensures p <= q <= |s| && (val, q) == NumberFrom(s, p, base, 0)
  {
    val, q := 0, p;
    while q < |s| && s[q] != SEMI
      invariant p <= q <= |s|
      invariant NumberFrom(s, q, base, val) == NumberFrom(s, p, base, 0)
    {
      var d := DigitValue(s[q], base);
      NumberNext(s, q, base, val);
      if d < 0 {
        return;
      }
      val := val * base + d;
      q := q + 1;
    }
    NumberStops(s, q, base, val);
    if q < |s| {
      q := q + 1;
    }
  }

  /** htmlParseCharRef at an ampersand and a number sign: 0 for what is not a legal
      character. */
  method ParseCharRef(tab: seq<Entity>, s: seq<Byte>) returns (val: nat, used: nat)
    requires |s| >= 2 && s[0] == AMP && s[1] == HASH
    ensures ReadStep(tab, s) == (if val == 0 then [] else [val], used)
  {
    if |s| >= 3 && (s[2] == 0x78 || s[2] == 0x58) {
      val, used := ParseDigits(s, 3, 16);
    } else {
      val, used := ParseDigits(s, 2, 10);
    }
    if !IsChar(val) {
      val := 0;
    }
  }

  lemma {:induction false} NameRunStops(name: seq<Byte>, rest: seq<Byte>)
    requires forall i | 0 <= i < |name| :: IsAlpha(name[i]) || IsDigit(name[i])
    ensures NameRun(name + [SEMI] + rest) == |name|
  {
    var s := name + [SEMI] + rest;
    if name != [] {
      assert s[1..] == name[1..] + [SEMI] + rest;
      NameRunStops(name[1..], rest);
    }
  }

  lemma {:induction false} NumberReads(d: seq<Byte>, rest: seq<Byte>, acc: nat)
    requires forall i | 0 <= i < |d| :: IsDigit(d[i])
    ensures Number(d + [SEMI] + rest, 10, acc) == (DecValue(d, acc), |d| + 1)
  {
    var s := d + [SEMI] + rest;
    if d != [] {
      assert s[1..] == d[1..] + [SEMI] + rest;
      NumberReads(d[1..], rest, acc * 10 + DigitValue(d[0], 10));
    }
  }

  function DecValue(d: seq<Byte>, acc: nat): nat
    requires forall i | 0 <= i < |d| :: IsDigit(d[i])
  {
    if d == [] then acc else DecValue(d[1..], acc * 10 + DigitValue(d[0], 10))
  }

  lemma {:induction false} DecValueSnoc(d: seq<Byte>, b: Byte, acc: nat)
    requires forall i | 0 <= i < |d| :: IsDigit(d[i])
    requires IsDigit(b)
    ensures DecValue(d + [b], acc) == DecValue(d, acc) * 10 + DigitValue(b, 10)
  {
    if d == [] {
      assert d + [b] == [b] && [b][1..] == [];
    } else {
      assert (d + [b])[1..] == d[1..] + [b];
      DecValueSnoc(d[1..], b, acc * 10 + DigitValue(d[0], 10));
    }
  }

  lemma {:induction false} DecReads(n: nat)
    ensures DecValue(Dec(n), 0) == n
  {
    if n < 10 {
      assert Dec(n)[1..] == [];
    } else {
      DecReads(n / 10);
      DecValueSnoc(Dec(n / 10), 48 + n % 10, 0);
    }
  }

  lemma ReadNamed(tab: seq<Entity>, e: Entity, rest: seq<Byte>)
    requires TableOK(tab) && e in tab
    ensures ReadStep(tab, [AMP] + (e.name + [SEMI] + rest)) == ([e.value], |e.name| + 2)
  {
    var t := e.name + [SEMI] + rest;
    var s := [AMP] + t;
    var i :| 0 <= i < |tab| && tab[i] == e;
    assert IsWord(e.name) && IsChar(e.value);
    NameRunStops(e.name, rest);
    ByNameFinds(tab, e);
    assert s[1..] == t && t[0] == e.name[0];
    assert s[1..1 + |e.name|] == e.name && s[1 + |e.name|] == SEMI;
  }

  lemma ReadNumeric(tab: seq<Entity>, c: Char, rest: seq<Byte>)
    ensures ReadStep(tab, [AMP, HASH] + (Dec(c) + [SEMI] + rest)) == ([c], |Dec(c)| + 3)
  {
    var t := Dec(c) + [SEMI] + rest;
    var s := [AMP, HASH] + t;
    assert s[2..] == t && s[2] == Dec(c)[0] && IsDigit(s[2]);
    NumberReads(Dec(c), rest, 0);
    DecReads(c);
  }

  lemma Regroup(a: seq<Byte>, b: seq<Byte>, rest: seq<Byte>)
    ensures (a + b + [SEMI]) + rest == a + (b + [SEMI] + rest)
  {
  }

  /** Reading one encoded character, whatever follows it. */
  lemma ReadEncoded(tab: seq<Entity>, quote: int, c: Char, rest: seq<Byte>)
    requires TableOK(tab)
    ensures var e := EncodeChar(tab, quote, c);
            ReadStep(tab, e + rest) == ([c], |e|) && (e + rest)[|e|..] == rest
  {
    var e := EncodeChar(tab, quote, c);
    assert (e + rest)[|e|..] == rest;
    if !Plain(quote, c) {
      ByValueFinds(tab, c);
      match ByValue(tab, c)
      case Some(ent) =>
        Regroup([AMP], ent.name, rest);
        ReadNamed(tab, ent, rest);
      case None =>
        assert [AMP] + ([HASH] + Dec(c)) == [AMP, HASH] + Dec(c);
        Regroup([AMP, HASH], Dec(c), rest);
        ReadNumeric(tab, c, rest);
    }
  }

  lemma ReadFirst(tab: seq<Entity>, quote: int, c: Char, rest: seq<Byte>)
    requires TableOK(tab)
    ensures Read(tab, EncodeChar(tab, quote, c) + rest) == [c] + Read(tab, rest)
  {
    ReadEncoded(tab, quote, c, rest);
  }

  /** Decoding the output gives back the characters that were encoded. */
  lemma {:induction false} ReadEncodeAll(tab: seq<Entity>, quote: int, cs: seq<Char>)
    requires TableOK(tab)
    ensures Read(tab, EncodeAll(tab, quote, cs)) == cs
  {
    if cs != [] {
      var e, rest := EncodeChar(tab, quote, cs[0]), EncodeAll(tab, quote, cs[1..]);
      ReadFirst(tab, quote, cs[0], rest);
      ReadEncodeAll(tab, quote, cs[1..]);
      var tail: seq<nat> := cs[1..];
      assert Read(tab, e + rest) == [cs[0]] + tail;
    }
  }

  /** The output is pure ASCII. */
  lemma {:induction false} EncodeAscii(tab: seq<Entity>, quote: int, cs: seq<Char>)
    requires TableOK(tab)
    ensures forall i | 0 <= i < |EncodeAll(tab, quote, cs)| :: EncodeAll(tab, quote, cs)[i] < 0x80
  {
    if cs != [] {
      EncodeAscii(tab, quote, cs[1..]);
      ByValueFinds(tab, cs[0]);
      var e := EncodeChar(tab, quote, cs[0]);
      assert forall i | 0 <= i < |RefName(tab, cs[0])| :: RefName(tab, cs[0])[i] < 0x80;
      assert forall i | 0 <= i < |e| :: e[i] < 0x80;
    }
  }

  /** Main result for one call on legal text: the bytes written decode to the text of
      exactly the bytes consumed. */
  lemma EncodePreservesText(tab: seq<Entity>, quote: int, cs: seq<Char>, room: nat)
    requires TableOK(tab)
    ensures var r := Encode(tab, quote, Utf8All(cs), room); var k := Fit(tab, quote, cs, room);
            && r.code == 0 && |r.out| <= room
            && Utf8All(cs)[..r.used] == Utf8All(cs[..k])
            && Read(tab, r.out) == cs[..k]
            && (forall i | 0 <= i < |r.out| :: r.out[i] < 0x80)
  {
    var k := Fit(tab, quote, cs, room);
    EncodesWhatFits(tab, quote, cs, room);
    ReadEncodeAll(tab, quote, cs[..k]);
    EncodeAscii(tab, quote, cs[..k]);
    SplitUtf8(cs, k);
  }

  // ------------------------------------------------------- what is escaped, exactly

  /** A character is written as itself exactly when it is ASCII and none of the ampersand,
      the angle brackets and the quote in force; otherwise by its name if it has one,
      else by its number in decimal. */
  lemma EncodesExactly(tab: seq<Entity>, quote: int, c: Char)
    requires TableOK(tab)
    ensures var special := c == quote || c == 38 || c == 60 || c == 62; var e := EncodeChar(tab, quote, c);
      && (c < 0x80 && !special ==> Widen(e) == [c])
      && (c >= 0x80 || special ==> e[0] == AMP && e[|e| - 1] == SEMI)
      && (forall ent | ent in tab && ent.value == c && (c >= 0x80 || special) :: e == [AMP] + ent.name + [SEMI])
      && ((c >= 0x80 || special) && (forall ent | ent in tab :: ent.value != c) ==>
            exists d: seq<Byte> :: IsNumeral(d) && DecValue(d, 0) == c && e == [AMP, HASH] + d + [SEMI])
  {
    ByValueFinds(tab, c);
    var e := EncodeChar(tab, quote, c);
    if Plain(quote, c) {
      assert e[1..] == [];
    } else {
      SameValue(tab, c);
      if ByValue(tab, c).None? {
        NumberedByValue(tab, quote, c);
      }
    }
  }

  lemma NumberedByValue(tab: seq<Entity>, quote: int, c: Char)
    requires ByValue(tab, c).None? && !Plain(quote, c)
    ensures exists d: seq<Byte> :: IsNumeral(d) && DecValue(d, 0) == c && EncodeChar(tab, quote, c) == [AMP, HASH] + d + [SEMI]
  {
    DecReads(c);
    assert [AMP] + ([HASH] + Dec(c)) + [SEMI] == [AMP, HASH] + Dec(c) + [SEMI];
    assert IsNumeral(Dec(c));
  }

  predicate IsNumeral(d: seq<Byte>) {
    forall i | 0 <= i < |d| :: IsDigit(d[i])
  }

  lemma SameValue(tab: seq<Entity>, v: nat)
    requires TableOK(tab)
    ensures forall e, f | e in tab && f in tab && e.value == v && f.value == v :: e == f
  {
    assert forall i, j | 0 <= i < |tab| && 0 <= j < |tab| && tab[i].value == tab[j].value :: i == j;
    forall e, f | e in tab && f in tab && e.value == v && f.value == v
      ensures e == f
    {
      var i :| 0 <= i < |tab| && tab[i] == e;
      var j :| 0 <= j < |tab| && tab[j] == f;
    }
  }

  /** Bytes that occur in a reference. */
  predicate InReference(b: int) {
    0x41 <= b <= 0x5A || 0x61 <= b <= 0x7A || 0x30 <= b <= 0x39 || b == 38 || b == 35 || b == 59
  }

  lemma {:induction false} NoneRaw(tab: seq<Entity>, quote: int, cs: seq<Char>, b: Byte)
    requires TableOK(tab) && !InReference(b) && (b == 60 || b == 62 || b == quote)
    ensures b !in EncodeAll(tab, quote, cs)
  {
    if cs != [] {
      NoneRaw(tab, quote, cs[1..], b);
      NotInEncoded(tab, quote, cs[0], b);
    }
  }

  lemma NotInEncoded(tab: seq<Entity>, quote: int, c: Char, b: Byte)
    requires TableOK(tab) && !InReference(b) && (b == 60 || b == 62 || b == quote)
    ensures b !in EncodeChar(tab, quote, c)
  {
    ByValueFinds(tab, c);
    var name := RefName(tab, c);
    assert forall i | 0 <= i < |name| :: IsAlpha(name[i]) || IsDigit(name[i]) || name[i] == HASH;
  }

  /** In the output for any legal text and buffer there is no angle bracket, and no quote
      of the kind in force. */
  lemma NoRawDelimiter(tab: seq<Entity>, quote: int, cs: seq<Char>, room: nat)
    requires TableOK(tab)
    ensures var out := Encode(tab, quote, Utf8All(cs), room).out;
      && LT !in out && GT !in out
      && (forall b: Byte :: b == quote && !InReference(quote) ==> b !in out)
  {
    var k := Fit(tab, quote, cs, room);
    EncodesWhatFits(tab, quote, cs, room);
    NoneRaw(tab, quote, cs[..k], LT);
    NoneRaw(tab, quote, cs[..k], GT);
    if 0 <= quote < 256 && !InReference(quote) {
      NoneRaw(tab, quote, cs[..k], quote);
    }
  }

  /** ASCII text without ampersand, angle brackets and quote is copied as far as there is
      room. */
  lemma {:induction false} PlainCopied(tab: seq<Entity>, quote: int, s: seq<Byte>, room: nat)
    requires forall i | 0 <= i < |s| :: s[i] < 0x80 && s[i] != quote && s[i] != 38 && s[i] != 60 && s[i] != 62
    ensures var n := if |s| < room then |s| else room;
            Encode(tab, quote, s, room) == Outcome(0, s[..n], n)
    decreases |s|
  {
    if s != [] {
      assert s[..1][1..] == [];
      assert Trailing(s[0]) == 0 && Value(s) == s[0] as int && EncodeChar(tab, quote, s[0]) == [s[0]];
      if room > 0 {
        PlainCopied(tab, quote, s[1..], room - 1);
        var n := if |s| < room then |s| else room;
        assert s[..n] == [s[0]] + s[1..][..n - 1];
      }
    }
  }

  // ------------------------------------------------------------------ malformed input

  /** How many bytes must follow a leading byte of UTF-8; none can follow the others. */
  predicate Leads(d: Byte, n: nat) {
    (n == 0 && d < 0x80) || (n == 1 && 0xC0 <= d < 0xE0) || (n == 2 && 0xE0 <= d < 0xF0) || (n == 3 && 0xF0 <= d < 0xF8)
  }

  /** The bytes cannot be the beginning of a character. */
  ghost predicate Malformed(s: seq<Byte>) {
    && s != []
    && (0x80 <= s[0] < 0xC0 || 0xF8 <= s[0]
        || exists n: nat, i | Leads(s[0], n) && n < |s| && 1 <= i <= n :: !(0x80 <= s[i] < 0xC0))
  }

  /** The bytes end inside a character. */
  ghost predicate CutOff(s: seq<Byte>) {
    s != [] && exists n: nat :: Leads(s[0], n) && |s| <= n
  }

  lemma StopsHere(tab: seq<Entity>, quote: int, bad: seq<Byte>, room: nat)
    ensures Malformed(bad) ==> Encode(tab, quote, bad, room) == Outcome(-2, [], 0)
    ensures CutOff(bad) ==> Encode(tab, quote, bad, room) == Outcome(0, [], 0)
  {
    if bad != [] {
      assert forall n: nat :: Leads(bad[0], n) <==> Trailing(bad[0]) == n;
    }
  }

  /** Text followed by bytes that are no character: if there is room for the text it is
      encoded and consumed, and the call fails with -2; where the bytes may still become a
      character the call succeeds and leaves them for the next one. */
  lemma {:induction false} StopsAt(tab: seq<Entity>, quote: int, cs: seq<Char>, bad: seq<Byte>, room: nat)
    requires (Malformed(bad) || CutOff(bad)) && |EncodeAll(tab, quote, cs)| <= room
    ensures Encode(tab, quote, Utf8All(cs) + bad, room)
            == Outcome(if Malformed(bad) then -2 else 0, EncodeAll(tab, quote, cs), |Utf8All(cs)|)
  {
    StopsHere(tab, quote, bad, room - |EncodeAll(tab, quote, cs)|);
    var code := if Malformed(bad) then -2 else 0;
    StopsAfter(tab, quote, cs, bad, code, room);
  }

  lemma {:induction false} StopsAfter(tab: seq<Entity>, quote: int, cs: seq<Char>, bad: seq<Byte>, code: int, room: nat)
    requires |EncodeAll(tab, quote, cs)| <= room
    requires Encode(tab, quote, bad, room - |EncodeAll(tab, quote, cs)|) == Outcome(code, [], 0)
    ensures Encode(tab, quote, Utf8All(cs) + bad, room) == Outcome(code, EncodeAll(tab, quote, cs), |Utf8All(cs)|)
    decreases |cs|
  {
    if cs == [] {
      assert [] + bad == bad;
    } else {
      StopsAfter(tab, quote, cs[1..], bad, code, room - |EncodeChar(tab, quote, cs[0])|);
      StopsCons(tab, quote, cs, bad, code, room);
    }
  }

  lemma StopsCons(tab: seq<Entity>, quote: int, cs: seq<Char>, bad: seq<Byte>, code: int, room: nat)
    requires cs != [] && |EncodeChar(tab, quote, cs[0])| <= room
    requires Encode(tab, quote, Utf8All(cs[1..]) + bad, room - |EncodeChar(tab, quote, cs[0])|)
             == Outcome(code, EncodeAll(tab, quote, cs[1..]), |Utf8All(cs[1..])|)
    ensures Encode(tab, quote, Utf8All(cs) + bad, room) == Outcome(code, EncodeAll(tab, quote, cs), |Utf8All(cs)|)
  {
    Seqs.Assoc(Utf8(cs[0]), Utf8All(cs[1..]), bad);
    EncodeFirst(tab, quote, cs[0], Utf8All(cs[1..]) + bad, room);
  }

  // ------------------------------------------------------------------- names, short input

  /** The characters of names, and those that can begin one. */
  lemma NameBytes(b: Byte)
    ensures var c := b as char;
      && (IsNameStart(b) <==> 'A' <= c <= 'Z' || 'a' <= c <= 'z' || c == '_' || c == ':')
      && (IsNameByte(b) <==> IsNameStart(b) || '0' <= c <= '9' || c == '-' || c == '.')
  {
  }

  /** An ampersand or number sign at the very end. */
  lemma ShortReferences(tab: seq<Entity>)
    ensures ReadStep(tab, [AMP]) == ([AMP], 1)
    ensures ReadStep(tab, [AMP, HASH]) == ([], 2) && ReadStep(tab, [AMP, HASH, 0x78]) == ([], 3)
  {
    assert [AMP][1..] == [] && [AMP, HASH][2..] == [] && [AMP, HASH, 0x78][3..] == [];
  }

  // ------------------------------------------------------------ hexadecimal references

  /** The hexadecimal digits in order, in lower and upper case. */
  const LOWER: seq<Byte> := [48, 49, 50, 51, 52, 53, 54, 55, 56, 57, 97, 98, 99, 100, 101, 102]
  const UPPER: seq<Byte> := [48, 49, 50, 51, 52, 53, 54, 55, 56, 57, 65, 66, 67, 68, 69, 70]

  lemma DigitIndex(k: nat)
    requires k < 16
    ensures DigitValue(LOWER[k], 16) == k && DigitValue(UPPER[k], 16) == k
    ensures LOWER[k] != SEMI && UPPER[k] != SEMI
  {
  }

  /** Nothing else is a digit. */
  lemma NoOtherDigit(b: Byte)
    ensures DigitValue(b, 16) >= 0 <==> b in LOWER || b in UPPER
    ensures DigitValue(b, 10) >= 0 <==> b in LOWER[..10]
    ensures b in LOWER[..10] ==> DigitValue(b, 10) == DigitValue(b, 16)
  {
    if DigitValue(b, 16) >= 0 {
      var k: nat := DigitValue(b, 16);
      assert LOWER[k] == b || UPPER[k] == b;
      assert k < 10 ==> LOWER[..10][k] == LOWER[k];
    }
  }

  /** Sixteen digits, each in either case. */
  predicate Hexadecimal(digits: seq<Byte>) {
    |digits| == 16 && forall k | 0 <= k < 16 :: digits[k] == LOWER[k] || digits[k] == UPPER[k]
  }

  type HexDigit = k: nat | k < 16

  /** A number in base 16, and its digits spelled out. */
  function HexValue(ks: seq<HexDigit>, acc: nat): nat {
    if ks == [] then acc else HexValue(ks[1..], acc * 16 + ks[0])
  }

  function HexDigits(n: nat): seq<HexDigit> {
    if n < 16 then [n] else HexDigits(n / 16) + [n % 16]
  }

  function Spelled(ks: seq<HexDigit>, digits: seq<Byte>): (s: seq<Byte>)
    requires Hexadecimal(digits)
    ensures |s| == |ks|
  {
    if ks == [] then [] else [digits[ks[0]]] + Spelled(ks[1..], digits)
  }

  lemma {:induction false} HexValueSnoc(ks: seq<HexDigit>, k: HexDigit, acc: nat)
    ensures HexValue(ks + [k], acc) == HexValue(ks, acc) * 16 + k
  {
    if ks == [] {
      assert ks + [k] == [k] && [k][1..] == [];
    } else {
      assert (ks + [k])[1..] == ks[1..] + [k];
      HexValueSnoc(ks[1..], k, acc * 16 + ks[0]);
    }
  }

  lemma {:induction false} HexDigitsMean(n: nat)
    ensures HexValue(HexDigits(n), 0) == n
  {
    if n < 16 {
      assert HexDigits(n)[1..] == [];
    } else {
      HexDigitsMean(n / 16);
      HexValueSnoc(HexDigits(n / 16), n % 16, 0);
    }
  }

  lemma FirstDigit(k: HexDigit, digits: seq<Byte>, rest: seq<Byte>, acc: nat)
    requires Hexadecimal(digits)
    ensures var r := Number(rest, 16, acc * 16 + k); Number([digits[k]] + rest, 16, acc) == (r.0, r.1 + 1)
  {
    DigitIndex(k);
    assert ([digits[k]] + rest)[1..] == rest;
  }

  lemma {:induction false} SpelledReads(ks: seq<HexDigit>, digits: seq<Byte>, rest: seq<Byte>, acc: nat)
    requires Hexadecimal(digits)
    ensures Number(Spelled(ks, digits) + ([SEMI] + rest), 16, acc) == (HexValue(ks, acc), |ks| + 1)
  {
    var more := [SEMI] + rest;
    if ks == [] {
      assert [] + more == more;
    } else {
      Seqs.Assoc([digits[ks[0]]], Spelled(ks[1..], digits), more);
      FirstDigit(ks[0], digits, Spelled(ks[1..], digits) + more, acc);
      SpelledReads(ks[1..], digits, rest, acc * 16 + ks[0]);
    }
  }

  /** Every legal character can be given in hexadecimal, with digits and 'x' in either
      case. */
  lemma HexReferenceReads(tab: seq<Entity>, c: Char, digits: seq<Byte>, x: Byte, rest: seq<Byte>)
    requires Hexadecimal(digits) && (x == 0x78 || x == 0x58)
    ensures var h := Spelled(HexDigits(c), digits);
            ReadStep(tab, [AMP, HASH, x] + (h + ([SEMI] + rest))) == ([c], |h| + 4)
  {
    var t := Spelled(HexDigits(c), digits) + ([SEMI] + rest);
    SpelledReads(HexDigits(c), digits, rest, 0);
    HexDigitsMean(c);
    assert ([AMP, HASH, x] + t)[3..] == t;
  }

  // ------------------------------------------------------------ the loop itself

  /** The outcome of the whole call, seen from position `p` with `done` written. */
  function From(tab: seq<Entity>, quote: int, s: seq<Byte>, p: nat, outlen: nat, done: seq<Byte>): Outcome
    requires p <= |s| && |done| <= outlen
  {
    var t := Encode(tab, quote, s[p..], outlen - |done|);
    Outcome(t.code, done + t.out, p + t.used)
  }

  lemma FromStart(tab: seq<Entity>, quote: int, s: seq<Byte>, outlen: nat)
    ensures From(tab, quote, s, 0, outlen, []) == Encode(tab, quote, s, outlen)
  {
    assert s[0..] == s;
    assert [] + Encode(tab, quote, s, outlen).out == Encode(tab, quote, s, outlen).out;
  }

  lemma FromStop(tab: seq<Entity>, quote: int, s: seq<Byte>, p: nat, outlen: nat, done: seq<Byte>, code: int)
    requires p <= |s| && |done| <= outlen && Encode(tab, quote, s[p..], outlen - |done|) == Outcome(code, [], 0)
    ensures From(tab, quote, s, p, outlen, done) == Outcome(code, done, p)
  {
    assert done + [] == done;
  }

  lemma EncodeGood(tab: seq<Entity>, quote: int, t: seq<Byte>, room: nat)
    requires t != [] && 0 <= Trailing(t[0]) < |t| && GoodTrail(t, Trailing(t[0]))
    ensures var n := Trailing(t[0]); var e := EncodeChar(tab, quote, Value(t));
            Encode(tab, quote, t, room) ==
            if |e| > room then Outcome(0, [], 0)
            else
              var r := Encode(tab, quote, t[1 + n..], room - |e|);
              Outcome(r.code, e + r.out, 1 + n + r.used)
  {
  }

  lemma FromFull(tab: seq<Entity>, quote: int, s: seq<Byte>, p: nat, outlen: nat, done: seq<Byte>)
    requires p < |s| && |done| <= outlen && 0 <= Trailing(s[p]) < |s| - p && GoodTrail(s[p..], Trailing(s[p]))
    requires |done| + |EncodeChar(tab, quote, Value(s[p..]))| > outlen
    ensures From(tab, quote, s, p, outlen, done) == Outcome(0, done, p)
  {
    EncodeGood(tab, quote, s[p..], outlen - |done|);
    FromStop(tab, quote, s, p, outlen, done, 0);
  }

  lemma FromMore(tab: seq<Entity>, quote: int, s: seq<Byte>, p: nat, outlen: nat, done: seq<Byte>, n: nat, e: seq<Byte>)
    requires p < |s| && n == Trailing(s[p]) && n < |s| - p && GoodTrail(s[p..], n)
    requires e == EncodeChar(tab, quote, Value(s[p..])) && |done| + |e| <= outlen
    ensures From(tab, quote, s, p, outlen, done) == From(tab, quote, s, p + 1 + n, outlen, done + e)
  {
    EncodeGood(tab, quote, s[p..], outlen - |done|);
    assert s[p..][1 + n..] == s[p + 1 + n..];
    Seqs.Assoc(done, e, Encode(tab, quote, s[p + 1 + n..], outlen - |done + e|).out);
  }

  /** The inner loop: shifts in the continuation bytes, or reports a bad one. */
  method ReadTrailing(s: seq<Byte>, p: nat) returns (ok: bool, c: nat)
    requires p < |s| && 0 <= Trailing(s[p]) < |s| - p
    ensures ok == GoodTrail(s[p..], Trailing(s[p]))
    ensures ok ==> c == Value(s[p..])
  {
    var n := Trailing(s[p]);
    c := Lead(s[p]);
    ghost var tail := s[p..][1..1 + n];
    for i := 0 to n
      invariant forall j | 1 <= j <= i :: IsTrail(s[p..][j])
      invariant Gather(c, tail[i..]) == Value(s[p..])
    {
      var d := s[p + 1 + i];
      assert s[p..][1 + i] == d;
      if !IsTrail(d) {
        return false, c;
      }
      assert tail[i..][0] == d && tail[i..][1..] == tail[i + 1..];
      c := c * 64 + d % 64;
    }
    assert tail[n..] == [];
    ok := true;
  }

  /** Writes `e` at `at`; there is room by the test before it. */
  method Emit(out: array<Byte>, at: nat, e: seq<Byte>)
    requires at + |e| <= out.Length
    modifies out
    ensures out[..at + |e|] == old(out[..at]) + e
  {
    for k := 0 to |e|
      invariant out[..at] == old(out[..at])
      invariant out[at..at + k] == e[..k]
    {
      out[at + k] := e[k];
      assert out[at..at + k + 1] == out[at..at + k] + [e[k]];
    }
    assert out[..at + |e|] == out[..at] + out[at..at + |e|];
  }

  /** Decodes the character at `p`: 1 when there is one, 0 when it is cut off, -2 when
      the bytes cannot start one. */
  method NextChar(tab: seq<Entity>, quote: int, s: seq<Byte>, p: nat) returns (code: int, n: nat, c: nat)
    requires p < |s|
    ensures code == 1 ==> n == Trailing(s[p]) < |s| - p && GoodTrail(s[p..], n) && c == Value(s[p..])
    ensures code != 1 ==> forall room: nat :: Encode(tab, quote, s[p..], room) == Outcome(code, [], 0)
  {
    var d := s[p];
    assert s[p..][0] == d;
    n, c := 0, 0;
    if Trailing(d) < 0 {
      return -2, n, c;
    }
    n := Trailing(d);
    if |s| - p - 1 < n {
      return 0, n, c;
    }
    var ok: bool;
    ok, c := ReadTrailing(s, p);
    code := if ok then 1 else -2;
  }

  /** One character: 1 to go on, otherwise the result of the whole call. */
  method EncodeNext(tab: seq<Entity>, out: array<Byte>, outlen: nat, s: seq<Byte>, quote: int, at: nat, p: nat)
    returns (next: int, at': nat, p': nat)
    requires at <= outlen <= out.Length && p < |s|
    modifies out
    ensures p <= p' <= |s| && at' <= outlen
    ensures next == 1 ==> p < p' && From(tab, quote, s, p, outlen, old(out[..at])) == From(tab, quote, s, p', outlen, out[..at'])
    ensures next != 1 ==> From(tab, quote, s, p, outlen, old(out[..at])) == Outcome(next, out[..at'], p')
  {
    ghost var done := out[..at];
    var n: nat, c: nat;
    next, n, c := NextChar(tab, quote, s, p);
    at', p' := at, p;
    if next != 1 {
      FromStop(tab, quote, s, p, outlen, done, next);
    } else {
      next, at', p' := PutEncoded(tab, out, outlen, s, quote, at, p, n, EncodeChar(tab, quote, c));
    }
  }

  /** Writes the encoded character at `p` if there is room for it. */
  method PutEncoded(tab: seq<Entity>, out: array<Byte>, outlen: nat, s: seq<Byte>, quote: int, at: nat, p: nat, n: nat, e: seq<Byte>)
    returns (next: int, at': nat, p': nat)
    requires at <= outlen <= out.Length && p < |s| && n == Trailing(s[p]) < |s| - p && GoodTrail(s[p..], n)
    requires e == EncodeChar(tab, quote, Value(s[p..]))
    modifies out
    ensures p <= p' <= |s| && at' <= outlen && (next == 0 || next == 1)
    ensures next == 1 ==> p < p' && From(tab, quote, s, p, outlen, old(out[..at])) == From(tab, quote, s, p', outlen, out[..at'])
    ensures next != 1 ==> From(tab, quote, s, p, outlen, old(out[..at])) == Outcome(next, out[..at'], p')
  {
    ghost var done := out[..at];
    if at + |e| > outlen {
      FromFull(tab, quote, s, p, outlen, done);
      return 0, at, p;
    }
    FromMore(tab, quote, s, p, outlen, done, n, e);
    Emit(out, at, e);
    next, at', p' := 1, at + |e|, p + 1 + n;
    assert out[..at'] == done + e;
  }

  /** htmlEncodeEntities: never writes outside the first `outlen` places. */
  method EncodeEntities(tab: seq<Entity>, out: array<Byte>, outlen: nat, s: seq<Byte>, quote: int)
    returns (code: int, written: nat, processed: nat)
    requires outlen <= out.Length
    modifies out
    ensures written <= outlen && processed <= |s|
    ensures Outcome(code, out[..written], processed) == Encode(tab, quote, s, outlen)
  {
    written, processed := 0, 0;
    ghost var whole := Encode(tab, quote, s, outlen);
    FromStart(tab, quote, s, outlen);
    while processed < |s|
      invariant processed <= |s| && written <= outlen
      invariant whole == From(tab, quote, s, processed, outlen, out[..written])
      decreases |s| - processed
    {
      var next: int;
      next, written, processed := EncodeNext(tab, out, outlen, s, quote, written, processed);
      if next != 1 {
        return next, written, processed;
      }
    }
    assert s[processed..] == [];
    FromStop(tab, quote, s, processed, outlen, out[..written], 0);
    code := 0;
  }
}
