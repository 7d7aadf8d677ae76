/** Character escaping of the canonicalizer (section 2.3 of Canonical XML 1.0). */
module C14nEscape {

  import opened Optional
  import Seqs

  datatype Mode = ForAttr | ForComment | ForInstruction | ForText

  /** The reference written for `c`, or "" when `c` stands for itself. */
  function ReferenceFor(c: char, m: Mode): (r: string)
    ensures |r| <= 4 && ';' !in r
  {
    if c == '<' && (m.ForAttr? || m.ForText?) then "lt"
    else if c == '>' && m.ForText? then "gt"
    else if c == '&' && (m.ForAttr? || m.ForText?) then "amp"
    else if c == '"' && m.ForAttr? then "quot"
    else if c == '\t' && m.ForAttr? then "#x9"
    else if c == '\n' && m.ForAttr? then "#xA"
    else if c == '\r' then "#xD"
    else ""
  }

  function EscapeChar(c: char, m: Mode): (r: string)
    ensures 1 <= |r| <= 6
  {
    if ReferenceFor(c, m) == "" then [c] else "&" + ReferenceFor(c, m) + ";"
  }

  function Escape(s: string, m: Mode): string {
    if s == "" then "" else EscapeChar(s[0], m) + Escape(s[1..], m)
  }

  lemma {:induction false} EscapeSnoc(s: string, c: char, m: Mode)
    ensures Escape(s + [c], m) == Escape(s, m) + EscapeChar(c, m)
  {
    if s == "" {
      assert s + [c] == [c] && [c][1..] == "";
      assert Escape([c], m) == EscapeChar(c, m) + "";
    } else {
      assert (s + [c])[1..] == s[1..] + [c];
      EscapeSnoc(s[1..], c, m);
      Seqs.Assoc(EscapeChar(s[0], m), Escape(s[1..], m), EscapeChar(c, m));
    }
  }

  lemma EscapeNext(input: string, cur: nat, m: Mode)
    requires cur < |input|
    ensures Escape(input[..cur + 1], m) == Escape(input[..cur], m) + EscapeChar(input[cur], m)
  {
    assert input[..cur + 1] == input[..cur] + [input[cur]];
    EscapeSnoc(input[..cur], input[cur], m);
  }

  /** Writes one escape at `*out++`; the caller must have room for it. */
  method Put(buffer: array<char>, out: nat, o: string)
    requires out + |o| <= buffer.Length
    modifies buffer
    ensures buffer[..out + |o|] == old(buffer[..out]) + o
  {
    for k := 0 to |o|
      invariant buffer[..out] == old(buffer[..out])
      invariant buffer[out..out + k] == o[..k]
    {
      buffer[out + k] := o[k];
      assert buffer[out..out + k + 1] == buffer[out..out + k] + [o[k]];
    }
    assert buffer[..out + |o|] == buffer[..out] + buffer[out..out + |o|];
  }

  /** One character of the loop. */
  method PutEscaped(buffer: array<char>, out: nat, c: char, m: Mode) returns (out': nat)
    requires out + 10 <= buffer.Length
    modifies buffer
    ensures out' <= out + 6 && buffer[..out'] == old(buffer[..out]) + EscapeChar(c, m)
  {
    var o := EscapeChar(c, m);
    Put(buffer, out, o);
    out' := out + |o|;
  }

  /** growBufferReentrant: doubles the buffer and keeps what was written. */
  method Grow(buffer: array<char>, out: nat) returns (bigger: array<char>)
    requires out <= buffer.Length
    ensures fresh(bigger) && bigger.Length == 2 * buffer.Length
    ensures bigger[..out] == buffer[..out]
  {
    bigger := new char[2 * buffer.Length];
    for k := 0 to out
      invariant bigger[..k] == buffer[..k]
    {
      bigger[k] := buffer[k];
    }
  }

  /** xmlC11NNormalizeString.  The margin of ten places that triggers growth covers
      every escape and the terminator: all writes below are in bounds. */
  method NormalizeString(input: string, m: Mode) returns (r: string)
    ensures r == Escape(input, m)
  {
    var buffer := new char[1000];
    var out: nat, cur: nat := 0, 0;
    assert buffer[..0] == Escape(input[..0], m);
    while cur < |input|
      invariant cur <= |input| && fresh(buffer)
      invariant buffer.Length >= 1000 && out <= buffer.Length - 4
      invariant buffer[..out] == Escape(input[..cur], m)
    {
      if out > buffer.Length - 10 {
        buffer := Grow(buffer, out);
      }
      EscapeNext(input, cur, m);
      out := PutEscaped(buffer, out, input[cur], m);
      cur := cur + 1;
    }
    assert input[..cur] == input;
    r := buffer[..out];
    buffer[out] := '\0';
  }

  // ----------------------------------------------------------- reading it back

  /** The text up to the first ';'. */
  function RefName(s: string): (r: string)
    ensures |r| <= |s| && r == s[..|r|]
  {
    if s == "" || s[0] == ';' then "" else [s[0]] + RefName(s[1..])
  }

  function HexDigit(c: char): Option<nat> {
    if '0' <= c <= '9' then Some((c as int) - ('0' as int))
    else if 'a' <= c <= 'f' then Some((c as int) - ('a' as int) + 10)
    else if 'A' <= c <= 'F' then Some((c as int) - ('A' as int) + 10)
    else None
  }

  function Hex(s: string, acc: nat): Option<nat> {
    if s == "" then Some(acc)
    else if HexDigit(s[0]).None? then None
    else Hex(s[1..], 16 * acc + HexDigit(s[0]).value)
  }

  /** The character a reference `&name;` stands for in XML. */
  function Referent(name: string): Option<char> {
    if name == "lt" then Some('<')
    else if name == "gt" then Some('>')
    else if name == "amp" then Some('&')
    else if name == "quot" then Some('"')
    else if name == "apos" then Some('\'')
    else if |name| > 2 && name[0] == '#' && name[1] == 'x' then
      match Hex(name[2..], 0)
      case None => None
      case Some(v) => if v < 0xD800 then Some(v as char) else None
    else None
  }

  /** Decodes references; a bare '&' or an unknown reference is an error. */
  function Unescape(s: string): Option<string>
    decreases |s|
  {
    if s == "" then Some("")
    else if s[0] != '&' then
      match Unescape(s[1..])
      case None => None
      case Some(t) => Some([s[0]] + t)
    else
      var name := RefName(s[1..]);
      if 1 + |name| == |s| || Referent(name).None? then None
      else
        match Unescape(s[|name| + 2..])
        case None => None
        case Some(t) => Some([Referent(name).value] + t)
  }

  lemma {:induction false} RefNameStops(name: string, rest: string)
    requires ';' !in name
    ensures RefName(name + ";" + rest) == name
  {
    var s := name + ";" + rest;
    if name == "" {
      assert s[0] == ';';
    } else {
      assert s[0] == name[0] && s[1..] == name[1..] + ";" + rest;
      RefNameStops(name[1..], rest);
    }
  }

  lemma UnescapeReference(name: string, rest: string)
    requires ';' !in name && Referent(name).Some?
    ensures Unescape("&" + name + ";" + rest) ==
            if Unescape(rest).Some? then Some([Referent(name).value] + Unescape(rest).value) else None
  {
    var s := "&" + name + ";" + rest;
    assert s[1..] == name + ";" + rest;
    RefNameStops(name, rest);
    assert s[|name| + 2..] == rest;
  }

  lemma HexOneDigit(c: char)
    requires HexDigit(c).Some?
    ensures Hex([c], 0) == HexDigit(c)
  {
    assert [c][1..] == "";
  }

  lemma ReferenceMeans(c: char, m: Mode)
    requires ReferenceFor(c, m) != ""
    ensures Referent(ReferenceFor(c, m)) == Some(c)
  {
    if c == '\t' {
      HexOneDigit('9');
      assert "#x9"[2..] == "9";
    } else if c == '\n' {
      HexOneDigit('A');
      assert "#xA"[2..] == "A";
    } else if c == '\r' {
      HexOneDigit('D');
      assert "#xD"[2..] == "D";
    }
  }

  /** In attribute and text modes decoding the output returns the input. */
  lemma {:induction false} UnescapeEscape(s: string, m: Mode)
    requires m.ForAttr? || m.ForText?
    ensures Unescape(Escape(s, m)) == Some(s)
  {
    if s != "" {
      UnescapeEscape(s[1..], m);
      var e, rest := EscapeChar(s[0], m), Escape(s[1..], m);
      if ReferenceFor(s[0], m) == "" {
        assert (e + rest)[0] == s[0] && (e + rest)[1..] == rest;
      } else {
        ReferenceMeans(s[0], m);
        UnescapeReference(ReferenceFor(s[0], m), rest);
      }
      assert [s[0]] + s[1..] == s;
    }
  }

  /** Hence two different strings are never written alike ... */
  lemma EscapeInjective(s: string, t: string, m: Mode)
    requires m.ForAttr? || m.ForText?
    requires Escape(s, m) == Escape(t, m)
    ensures s == t
  {
    UnescapeEscape(s, m);
    UnescapeEscape(t, m);
  }

  /** ... which fails in comment and instruction modes, where '&' stays raw. */
  lemma EscapeNotInjective(m: Mode)
    requires m.ForComment? || m.ForInstruction?
    ensures "\r" != "&#xD;" && Escape("\r", m) == Escape("&#xD;", m)
  {
    var t := "&#xD;";
    assert "\r"[1..] == "";
    assert Escape("\r", m) == "&#xD;" + "";
    NothingToEscape(t, m);
  }

  lemma {:induction false} NothingToEscape(s: string, m: Mode)
    requires forall i | 0 <= i < |s| :: EscapeChar(s[i], m) == [s[i]]
    ensures Escape(s, m) == s
  {
    if s != "" {
      assert forall i | 0 <= i < |s[1..]| :: s[1..][i] == s[i + 1];
      NothingToEscape(s[1..], m);
    }
  }

  /** What may not appear raw in the output of a mode. */
  predicate Delimiter(c: char, m: Mode) {
    match m
    case ForAttr => c == '<' || c == '"' || c == '\t' || c == '\n' || c == '\r'
    case ForText => c == '<' || c == '>' || c == '\r'
    case _ => c == '\r'
  }

  lemma {:induction false} NoRawDelimiter(s: string, m: Mode)
    ensures forall i | 0 <= i < |Escape(s, m)| :: !Delimiter(Escape(s, m)[i], m)
  {
    if s != "" {
      NoRawDelimiter(s[1..], m);
      var e := EscapeChar(s[0], m);
      assert forall i | 0 <= i < |e| :: !Delimiter(e[i], m);
    }
  }
}
