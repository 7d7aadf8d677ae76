/** Identifier rewriting used by catalog resolution: public-identifier
    normalization (section 6.2 of the OASIS XML Catalogs draft of 6 August 2001)
    and unwrapping of "urn:publicid:" names (RFC 3151). */
module CatalogUrn {

  import opened Optional
  import Seqs

  const URN_PUBID := "urn:publicid:"

  /** Capacity of the fixed buffer that receives an unwrapped URN. */
  const URN_BUFFER: nat := 2000

  predicate HasPrefix(s: string, p: string) {
    |p| <= |s| && s[..|p|] == p
  }

  // ---------------------------------------------------------------- unwrapping

  /** The character an "%XY" escape stands for, if it is one of the eight known ones. */
  function EscapedChar(hi: char, lo: char): Option<char> {
    if hi == '2' && lo == 'B' then Some('+')
    else if hi == '3' && lo == 'A' then Some(':')
    else if hi == '2' && lo == 'F' then Some('/')
    else if hi == '3' && lo == 'B' then Some(';')
    else if hi == '2' && lo == '7' then Some('\'')
    else if hi == '3' && lo == 'F' then Some('?')
    else if hi == '2' && lo == '3' then Some('#')
    else if hi == '2' && lo == '5' then Some('%')
    else None
  }

  /** One step of the unwrapping loop: what is written and how much is read. */
  function UnwrapStep(s: string): (r: (string, nat))
    requires s != ""
    ensures 1 <= |r.0| <= 2 && 1 <= r.1 <= |s|
  {
    match s[0]
    case '+' => (" ", 1)
    case ':' => ("//", 1)
    case ';' => ("::", 1)
    case '%' =>
      if |s| >= 3 && EscapedChar(s[1], s[2]).Some? then ([EscapedChar(s[1], s[2]).value], 3)
      else ("%", 1)
    case c => ([c], 1)
  }

  /** Unwraps `s` when `i` characters are already in the buffer; stops, like the
      source, once fewer than four places are left. */
  function UnwrapFrom(s: string, i: nat): string
    decreases |s|
  {
    if s == "" || i > URN_BUFFER - 4 then ""
    else
      var (o, k) := UnwrapStep(s);
      o + UnwrapFrom(s[k..], i + |o|)
  }

  function Unwrap(urn: string): string
    requires HasPrefix(urn, URN_PUBID)
  {
    UnwrapFrom(urn[|URN_PUBID|..], 0)
  }

  /** xmlCatalogUnWrapURN: fills a 2000-byte buffer and never leaves it. */
  method UnwrapURN(urn: string) returns (r: Option<string>)
    ensures HasPrefix(urn, URN_PUBID) ==> r == Some(Unwrap(urn))
    ensures !HasPrefix(urn, URN_PUBID) ==> r == None
  {
    if !HasPrefix(urn, URN_PUBID) {
      return None;
    }
    var text := UnwrapBody(urn[|URN_PUBID|..]);
    r := Some(text);
  }

  /** Stores one step's output, one character at a time. */
  method Put(buf: array<char>, i: nat, o: string)
    requires 1 <= |o| <= 2 && i + |o| <= buf.Length
    modifies buf
    ensures buf[..i + |o|] == old(buf[..i]) + o
  {
    buf[i] := o[0];
    if |o| == 2 {
      buf[i + 1] := o[1];
    }
  }

  /** The whole result, seen from position `p` with `done` in the buffer. */
  function UnwrapRest(body: string, p: nat, done: string): string
    requires p <= |body|
  {
    done + UnwrapFrom(body[p..], |done|)
  }

  lemma UnwrapFromAdvance(body: string, p: nat, done: string)
    requires p < |body| && |done| <= URN_BUFFER - 4
    ensures var (o, k) := UnwrapStep(body[p..]);
            UnwrapRest(body, p, done) == UnwrapRest(body, p + k, done + o)
  {
    var i := |done|;
    var (o, k) := UnwrapStep(body[p..]);
    assert body[p..][k..] == body[p + k..];
    Seqs.Assoc(done, o, UnwrapFrom(body[p + k..], i + |o|));
  }

  /** The loop of xmlCatalogUnWrapURN over the part after the prefix. */
  method UnwrapBody(body: string) returns (r: string)
    ensures r == UnwrapFrom(body, 0)
  {
    var result := new char[URN_BUFFER];
    var i: nat := 0;
    var p: nat := 0;
    ghost var whole := UnwrapRest(body, 0, "");
    assert body[p..] == body && whole == "" + UnwrapFrom(body, 0);
    assert result[..i] == "";
    while p < |body| && i <= URN_BUFFER - 4
      invariant p <= |body|
      invariant i <= URN_BUFFER - 2
      invariant UnwrapRest(body, p, result[..i]) == whole
      decreases |body| - p
    {
      var (o, k) := UnwrapStep(body[p..]);
      UnwrapFromAdvance(body, p, result[..i]);
      ghost var done := result[..i];
      Put(result, i, o);
      i := i + |o|;
      assert result[..i] == done + o;
      p := p + k;
    }
    assert result[..i] + "" == result[..i];
    r := result[..i];
  }

  // ------------------------------------------------- the inverse of unwrapping

  function WrapChar(c: char): string {
    match c
    case ' ' => "+"
    case '+' => "%2B"
    case ':' => "%3A"
    case '/' => "%2F"
    case ';' => "%3B"
    case '\'' => "%27"
    case '?' => "%3F"
    case '#' => "%23"
    case '%' => "%25"
    case _ => [c]
  }

  /** The transcription of RFC 3151 from public identifier to URN body. */
  function Wrap(p: string): string {
    if p == "" then ""
    else if |p| >= 2 && p[0] == '/' && p[1] == '/' then ":" + Wrap(p[2..])
    else if |p| >= 2 && p[0] == ':' && p[1] == ':' then ";" + Wrap(p[2..])
    else WrapChar(p[0]) + Wrap(p[1..])
  }

  /** How many characters of `p` the first step of `Wrap` consumes. */
  function WrapTake(p: string): nat
    requires p != ""
  {
    if |p| >= 2 && p[0] == p[1] && (p[0] == '/' || p[0] == ':') then 2 else 1
  }

  lemma WrapOneStep(p: string)
    requires p != ""
    ensures Wrap(p) != ""
    ensures UnwrapStep(Wrap(p)).0 == p[..WrapTake(p)]
    ensures Wrap(p)[UnwrapStep(Wrap(p)).1..] == Wrap(p[WrapTake(p)..])
  {
    if WrapTake(p) == 2 {
      var first := if p[0] == '/' then ":" else ";";
      assert Wrap(p) == first + Wrap(p[2..]);
      assert Wrap(p)[1..] == Wrap(p[2..]);
      assert p[..2] == [p[0], p[1]];
    } else {
      var w := WrapChar(p[0]);
      assert Wrap(p) == w + Wrap(p[1..]);
      assert |w| == 1 || |w| == 3;
      assert forall k | 0 <= k < |w| :: Wrap(p)[k] == w[k];
      assert Wrap(p)[|w|..] == Wrap(p[1..]);
      assert p[..1] == [p[0]];
      if |w| == 3 {
        assert w[0] == '%' && EscapedChar(w[1], w[2]) == Some(p[0]);
      }
    }
  }

  lemma UnwrapWrapStep(p: string, i: nat)
    requires p != "" && i <= URN_BUFFER - 4
    ensures var t := WrapTake(p); UnwrapFrom(Wrap(p), i) == p[..t] + UnwrapFrom(Wrap(p[t..]), i + t)
  {
    WrapOneStep(p);
  }

  lemma PrefixExtends(a: string, r: string, p: string)
    requires r <= p
    ensures a + r <= a + p && (a + r == a + p <==> r == p)
  {
    assert (a + r)[|a|..] == r && (a + p)[|a|..] == p;
  }

  /** Unwrapping undoes wrapping; only the buffer bound can cut the result, and
      then what is returned is still a prefix of the identifier. */
  lemma {:induction false} UnwrapInvertsWrap(p: string, i: nat)
    ensures UnwrapFrom(Wrap(p), i) <= p
    ensures i + |p| <= URN_BUFFER - 3 ==> UnwrapFrom(Wrap(p), i) == p
    ensures UnwrapFrom(Wrap(p), i) == p || i + |UnwrapFrom(Wrap(p), i)| > URN_BUFFER - 4
    decreases |p|
  {
    if p == "" || i > URN_BUFFER - 4 {
      assert UnwrapFrom(Wrap(p), i) == "";
    } else {
      var t := WrapTake(p);
      UnwrapWrapStep(p, i);
      UnwrapInvertsWrap(p[t..], i + t);
      CutBehind(p, t, i, UnwrapFrom(Wrap(p[t..]), i + t), UnwrapFrom(Wrap(p), i));
    }
  }

  /** What holds of the rest holds of the whole. */
  lemma CutBehind(p: string, t: nat, i: nat, u: string, r: string)
    requires t <= |p| && r == p[..t] + u && u <= p[t..]
    requires i + |p| <= URN_BUFFER - 3 ==> u == p[t..]
    requires u == p[t..] || i + t + |u| > URN_BUFFER - 4
    ensures r <= p && (i + |p| <= URN_BUFFER - 3 ==> r == p) && (r == p || i + |r| > URN_BUFFER - 4)
  {
    PrefixExtends(p[..t], u, p[t..]);
    assert p == p[..t] + p[t..];
  }

  lemma UnwrapWrap(p: string)
    requires |p| <= URN_BUFFER - 3
    ensures HasPrefix(URN_PUBID + Wrap(p), URN_PUBID)
    ensures Unwrap(URN_PUBID + Wrap(p)) == p
  {
    assert (URN_PUBID + Wrap(p))[|URN_PUBID|..] == Wrap(p);
    UnwrapInvertsWrap(p, 0);
  }

  /** The escapes that are understood, and no others: any other '%' stands for itself. */
  const ESCAPES: seq<(string, string)> :=
    [("2B", "+"), ("3A", ":"), ("2F", "/"), ("3B", ";"), ("27", "'"), ("3F", "?"), ("23", "#"), ("25", "%")]

  lemma EscapesAre(hi: char, lo: char, c: char)
    ensures EscapedChar(hi, lo) == Some(c) <==> ([hi, lo], [c]) in ESCAPES
  {
    assert ESCAPES[0] == ("2B", "+") && ESCAPES[1] == ("3A", ":") && ESCAPES[2] == ("2F", "/") && ESCAPES[3] == ("3B", ";");
    assert ESCAPES[4] == ("27", "'") && ESCAPES[5] == ("3F", "?") && ESCAPES[6] == ("23", "#") && ESCAPES[7] == ("25", "%");
    var s := [hi, lo];
    assert s[0] == hi && s[1] == lo && [c][0] == c;
  }

  // ------------------------------------------------------- termination measure

  /** Weights chosen so that every unwrapping step loses weight even though ':'
      and ';' are replaced by two characters. */
  function CharWeight(c: char): nat {
    match c
    case ';' => 7
    case '%' => 6
    case ':' => 3
    case _ => 1
  }

  function Weight(s: string): nat {
    if s == "" then 0 else CharWeight(s[0]) + Weight(s[1..])
  }

  lemma {:induction false} WeightConcat(a: string, b: string)
    ensures Weight(a + b) == Weight(a) + Weight(b)
  {
    if a == "" {
      assert a + b == b;
    } else {
      WeightConcat(a[1..], b);
      assert (a + b)[1..] == a[1..] + b;
    }
  }

  lemma StepWeight(s: string)
    requires s != ""
    ensures Weight(UnwrapStep(s).0) + Weight(s[UnwrapStep(s).1..]) <= Weight(s)
  {
    var (o, k) := UnwrapStep(s);
    if |o| == 2 {
      assert o[1..] == [o[1]] && o[1..][1..] == "";
      assert Weight(o) == CharWeight(o[0]) + CharWeight(o[1]);
    } else {
      assert o[1..] == "";
      assert Weight(o) == CharWeight(o[0]);
    }
    if k == 3 {
      assert s[1..][1..][1..] == s[3..];
      assert Weight(s[1..]) == CharWeight(s[1]) + Weight(s[1..][1..]);
    }
  }

  lemma {:induction false} UnwrapFromWeight(s: string, i: nat)
    ensures Weight(UnwrapFrom(s, i)) <= Weight(s)
    decreases |s|
  {
    if s != "" && i <= URN_BUFFER - 4 {
      var (o, k) := UnwrapStep(s);
      StepWeight(s);
      UnwrapFromWeight(s[k..], i + |o|);
      WeightConcat(o, UnwrapFrom(s[k..], i + |o|));
    }
  }

  lemma {:induction false} WeightAtLeastLength(s: string)
    ensures Weight(s) >= |s|
  {
    if s != "" {
      WeightAtLeastLength(s[1..]);
    }
  }

  /** Unwrapping may lengthen the text, but always loses weight, at least one unit
      for each character of the prefix. */
  lemma UnwrapLosesWeight(urn: string)
    requires HasPrefix(urn, URN_PUBID)
    ensures Weight(Unwrap(urn)) + |URN_PUBID| <= Weight(urn)
  {
    var body := urn[|URN_PUBID|..];
    assert urn == URN_PUBID + body;
    WeightConcat(URN_PUBID, body);
    WeightAtLeastLength(URN_PUBID);
    UnwrapFromWeight(body, 0);
  }

  // ------------------------------------------------------------- normalization

  predicate IsBlank(c: char) {
    c == ' ' || c == '\t' || c == '\n' || c == '\r'
  }

  /** The scan that decides whether an identifier needs no work. */
  predicate ScanNormal(s: string, white: bool) {
    if s == "" then !white
    else if !IsBlank(s[0]) then ScanNormal(s[1..], false)
    else s[0] == ' ' && !white && ScanNormal(s[1..], true)
  }

  /** The copying loop: `started` when something was already written, `white`
      when blanks are pending. */
  function Collapse(s: string, started: bool, white: bool): string {
    if s == "" then ""
    else if IsBlank(s[0]) then Collapse(s[1..], started, white || started)
    else (if white then " " else "") + [s[0]] + Collapse(s[1..], true, false)
  }

  function Normalize(s: string): string {
    if ScanNormal(s, true) then s else Collapse(s, false, false)
  }

  /** xmlCatalogNormalizePublic; `None` stands for "already normalized". */
  method NormalizePublic(pubID: string) returns (r: Option<string>)
    ensures r.Some? ==> r.value == Normalize(pubID)
    ensures r.None? ==> pubID == Normalize(pubID)
    ensures r.None? <==> ScanNormal(pubID, true)
  {
    var ok, white := true, true;
    var p: nat := 0;
    while p < |pubID| && ok
      invariant p <= |pubID|
      invariant ok ==> (ScanNormal(pubID, true) == ScanNormal(pubID[p..], white))
      invariant !ok ==> !ScanNormal(pubID, true)
    {
      if !IsBlank(pubID[p]) {
        white := false;
      } else if pubID[p] == ' ' && !white {
        white := true;
      } else {
        ok := false;
      }
      p := p + 1;
    }
    if ok {
      assert pubID[p..] == "";
    }
    if ok && !white {
      return None;
    }
    var q := "";
    white := false;
    p := 0;
    while p < |pubID|
      invariant p <= |pubID|
      invariant white ==> q != ""
      invariant q + Collapse(pubID[p..], q != "", white) == Collapse(pubID, false, false)
    {
      var rest := Collapse(pubID[p + 1..], true, false);
      if IsBlank(pubID[p]) {
        if q != "" {
          white := true;
        }
      } else {
        ghost var whole := q + ((if white then " " else "") + [pubID[p]] + rest);
        if white {
          q := q + " ";
          white := false;
        }
        q := q + [pubID[p]];
        assert q + rest == whole;
      }
      p := p + 1;
    }
    assert pubID[p..] == "";
    r := Some(q);
  }

  // What normalization means: the blank-separated words, joined by one space.

  function Word(s: string): (w: string)
    ensures |w| <= |s| && w == s[..|w|]
    ensures forall i | 0 <= i < |w| :: !IsBlank(w[i])
    ensures |w| == |s| || IsBlank(s[|w|])
  {
    if s == "" || IsBlank(s[0]) then "" else [s[0]] + Word(s[1..])
  }

  function Words(s: string): seq<string>
    decreases |s|
  {
    if s == "" then []
    else if IsBlank(s[0]) then Words(s[1..])
    else [Word(s)] + Words(s[|Word(s)|..])
  }

  function Join(ws: seq<string>): string {
    if ws == [] then ""
    else if |ws| == 1 then ws[0]
    else ws[0] + " " + Join(ws[1..])
  }

  /** Each word preceded by a space, or only the later ones. */
  function Joined(ws: seq<string>, started: bool): string {
    if ws == [] then ""
    else (if started then " " else "") + ws[0] + Joined(ws[1..], true)
  }

  lemma {:induction false} JoinedIsJoin(ws: seq<string>)
    ensures Joined(ws, false) == Join(ws)
    ensures ws != [] ==> Joined(ws, true) == " " + Join(ws)
  {
    if |ws| > 1 {
      JoinedIsJoin(ws[1..]);
    } else if |ws| == 1 {
      assert ws[1..] == [];
    }
  }

  /** Inside a word, the copy finishes the word and then continues with the rest. */
  lemma {:induction false} CollapseWord(s: string)
    ensures Collapse(s, true, false) == Word(s) + Collapse(s[|Word(s)|..], true, true)
    decreases |s|
  {
    if s == "" {
    } else if IsBlank(s[0]) {
      assert s[|Word(s)|..] == s;
    } else {
      CollapseWord(s[1..]);
      var w := Word(s[1..]);
      var tail := Collapse(s[1..][|w|..], true, true);
      assert s[|Word(s)|..] == s[1..][|w|..];
      assert "" + [s[0]] + (w + tail) == ([s[0]] + w) + tail;
    }
  }

  lemma {:induction false} CollapseJoins(s: string, started: bool)
    ensures Collapse(s, started, started) == Joined(Words(s), started)
    decreases |s|
  {
    if s == "" {
    } else if IsBlank(s[0]) {
      CollapseJoins(s[1..], started);
    } else {
      var w := Word(s[1..]);
      var after := s[|Word(s)|..];
      CollapseWord(s[1..]);
      assert after == s[1..][|w|..];
      CollapseJoins(after, true);
      var lead := if started then " " else "";
      var tail := Collapse(after, true, true);
      assert lead + [s[0]] + (w + tail) == lead + ([s[0]] + w) + tail;
    }
  }

  /** A string passes the scan exactly when it already is its words joined. */
  lemma {:induction false} ScanMeansNormal(s: string)
    ensures ScanNormal(s, true) ==> Collapse(s, false, false) == s && s != ""
    ensures ScanNormal(s, false) ==> Collapse(s, true, false) == s
    ensures ScanNormal(s, true) ==> Collapse(s, true, true) == " " + s
    decreases |s|
  {
    if s != "" {
      ScanMeansNormal(s[1..]);
    }
  }

  /** Section 6.2: the normal form is the identifier's words joined by single spaces. */
  lemma NormalizeJoinsWords(s: string)
    ensures Normalize(s) == Join(Words(s))
  {
    CollapseJoins(s, false);
    JoinedIsJoin(Words(s));
    ScanMeansNormal(s);
  }

  predicate IsWord(w: string) {
    w != "" && forall i | 0 <= i < |w| :: !IsBlank(w[i])
  }

  lemma {:induction false} WordInFront(w: string, rest: string)
    requires forall i | 0 <= i < |w| :: !IsBlank(w[i])
    requires rest != "" ==> IsBlank(rest[0])
    ensures Word(w + rest) == w
  {
    if w == "" {
      assert w + rest == rest;
    } else {
      assert (w + rest)[1..] == w[1..] + rest;
      WordInFront(w[1..], rest);
    }
  }

  lemma {:induction false} WordsAreWords(s: string)
    ensures forall w | w in Words(s) :: IsWord(w)
    decreases |s|
  {
    if s != "" {
      WordsAreWords(if IsBlank(s[0]) then s[1..] else s[|Word(s)|..]);
    }
  }

  lemma WordsInFront(w: string, rest: string)
    requires IsWord(w) && (rest != "" ==> IsBlank(rest[0]))
    ensures Words(w + rest) == [w] + Words(rest)
  {
    WordInFront(w, rest);
    assert (w + rest)[|w|..] == rest;
  }

  lemma WordsSpaced(w: string, t: string)
    requires IsWord(w)
    ensures Words(w + (" " + t)) == [w] + Words(t)
  {
    WordsInFront(w, " " + t);
    assert (" " + t)[1..] == t;
  }

  lemma {:induction false} WordsOfJoin(ws: seq<string>)
    requires forall w | w in ws :: IsWord(w)
    ensures Words(Join(ws)) == ws
  {
    if |ws| == 1 {
      WordsInFront(ws[0], "");
      assert ws[0] + "" == ws[0];
    } else if |ws| > 1 {
      assert forall v | v in ws[1..] :: v in ws;
      WordsOfJoin(ws[1..]);
      WordsSpaced(ws[0], Join(ws[1..]));
      Seqs.Assoc(ws[0], " ", Join(ws[1..]));
    }
  }

  /** Two identifiers have the same normal form exactly when they have the same words. */
  lemma NormalizeSameWords(a: string, b: string)
    ensures Normalize(a) == Normalize(b) <==> Words(a) == Words(b)
  {
    NormalizeJoinsWords(a);
    NormalizeJoinsWords(b);
    WordsAreWords(a);
    WordsAreWords(b);
    WordsOfJoin(Words(a));
    WordsOfJoin(Words(b));
  }

  lemma {:induction false} CollapseScans(s: string, started: bool, white: bool)
    requires white ==> started
    ensures var c := Collapse(s, started, white);
            c != "" ==> ScanNormal(c, !started)
    ensures !white && started ==> ScanNormal(Collapse(s, started, white), false)
    decreases |s|
  {
    if s != "" {
      var rest := Collapse(s[1..], true, false);
      if IsBlank(s[0]) {
        CollapseScans(s[1..], started, white || started);
      } else {
        CollapseScans(s[1..], true, false);
        var c := Collapse(s, started, white);
        if white {
          assert c[1..] == [s[0]] + rest;
          assert c[1..][1..] == rest;
          assert ScanNormal(c[1..], true);
        } else {
          assert c[1..] == rest;
        }
      }
    }
  }

  /** The blanks are the space, the tab, the line feed and the carriage return: any of
      them separates words as a space does, and every other character is kept. */
  lemma BlanksSeparate(a: string, w: char, b: string)
    ensures w in {' ', '\t', '\n', '\r'} ==> Normalize(a + [w] + b) == Normalize(a + " " + b)
    ensures w !in {' ', '\t', '\n', '\r'} ==> Normalize([w]) == [w]
  {
    if w in {' ', '\t', '\n', '\r'} {
      BlankIsSpace(a, w, b);
      NormalizeSameWords(a + [w] + b, a + " " + b);
    } else {
      assert [w][1..] == "" && ScanNormal([w][1..], false);
    }
  }

  lemma {:induction false} BlankIsSpace(a: string, w: char, b: string)
    requires IsBlank(w)
    ensures Words(a + [w] + b) == Words(a + " " + b)
    decreases |a|
  {
    var s, t := a + [w] + b, a + " " + b;
    if a == "" {
      assert s[1..] == b && t[1..] == b;
    } else if IsBlank(a[0]) {
      assert s[1..] == a[1..] + [w] + b && t[1..] == a[1..] + " " + b;
      BlankIsSpace(a[1..], w, b);
    } else {
      WordStops(a, w, b);
      WordStops(a, ' ', b);
      var n := |Word(a)|;
      assert s[n..] == a[n..] + [w] + b && t[n..] == a[n..] + " " + b;
      BlankIsSpace(a[n..], w, b);
    }
  }

  lemma {:induction false} WordStops(a: string, w: char, b: string)
    requires IsBlank(w)
    ensures Word(a + [w] + b) == Word(a)
  {
    if a != "" {
      assert (a + [w] + b)[1..] == a[1..] + [w] + b;
      WordStops(a[1..], w, b);
    }
  }

  lemma NormalizeIdempotent(s: string)
    ensures Normalize(Normalize(s)) == Normalize(s)
    ensures Normalize(s) == "" || ScanNormal(Normalize(s), true)
  {
    CollapseScans(s, false, false);
  }

  lemma {:induction false} CollapseWeight(s: string, started: bool, white: bool)
    ensures Weight(Collapse(s, started, white)) <= Weight(s) + (if white then 1 else 0)
    decreases |s|
  {
    if s != "" {
      if IsBlank(s[0]) {
        CollapseWeight(s[1..], started, white || started);
      } else {
        var rest := Collapse(s[1..], true, false);
        CollapseWeight(s[1..], true, false);
        WeightConcat([s[0]], rest);
        assert [s[0]][1..] == "";
        if white {
          WeightConcat(" ", [s[0]] + rest);
          assert " " + [s[0]] + rest == " " + ([s[0]] + rest);
        } else {
          assert "" + [s[0]] + rest == [s[0]] + rest;
        }
      }
    }
  }

  lemma NormalizeWeight(s: string)
    ensures Weight(Normalize(s)) <= Weight(s)
  {
    CollapseWeight(s, false, false);
  }
}
