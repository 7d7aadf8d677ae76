/** Reading a start tag of the output back, and exactly when that is possible: the
    source writes namespace URIs as they are, without escaping them. */
module C14nText {

  import opened Optional
  import opened SortedList
  import opened C14nEscape
  import opened C14nTree
  import opened C14nMeaning
  import Seqs

  // ------------------------------------------------------------------ a reader

  /** The text before the first `c`. */
  function UpTo(s: string, c: char): (r: string)
    ensures |r| <= |s| && r == s[..|r|] && c !in r
    ensures |r| < |s| ==> s[|r|] == c
  {
    if s == "" || s[0] == c then "" else [s[0]] + UpTo(s[1..], c)
  }

  predicate IsSpace(c: char) {
    c == ' ' || c == '\t' || c == '\n' || c == '\r'
  }

  /** Attribute-value normalization: literal white space reads as spaces. */
  function Spaced(s: string): (r: string)
    ensures |r| == |s|
  {
    if s == "" then "" else [if IsSpace(s[0]) then ' ' else s[0]] + Spaced(s[1..])
  }

  /** What stands between quotes, as an XML reader takes it. */
  function ReadValue(raw: string): Option<string> {
    if '<' in raw then None else Unescape(Spaced(raw))
  }

  /** A value up to its closing quote, and the text after it. */
  function ReadQuoted(s: string): (r: Option<(string, string)>)
    ensures r.Some? ==> |r.value.1| < |s|
  {
    var raw := UpTo(s, '"');
    if |raw| == |s| || ReadValue(raw).None? then None else Some((ReadValue(raw).value, s[|raw| + 1..]))
  }

  datatype Pair = Pair(name: string, value: string)

  /** The attributes and declarations of a tag, and what follows them. */
  function ReadPairs(s: string): (r: Option<(seq<Pair>, string)>)
    ensures r.Some? ==> |r.value.1| <= |s|
    decreases |s|
  {
    if s == "" || s[0] != ' ' then Some(([], s))
    else
      var name := UpTo(s[1..], '=');
      var k := |name| + 2;
      if k >= |s| || s[k] != '"' then None
      else
        match ReadQuoted(s[k + 1..])
        case None => None
        case Some((v, rest)) =>
          match ReadPairs(rest)
          case None => None
          case Some((ps, tail)) => Some(([Pair(name, v)] + ps, tail))
  }

  /** The name of a tag ends at a space or at its '>'. */
  function ReadName(s: string): (r: string)
    ensures |r| <= |s| && r == s[..|r|]
  {
    if s == "" || s[0] == ' ' || s[0] == '>' then "" else [s[0]] + ReadName(s[1..])
  }

  datatype StartTag = StartTag(name: string, pairs: seq<Pair>)

  function ReadStart(s: string): (r: Option<(StartTag, string)>)
    ensures r.Some? ==> |r.value.1| < |s|
  {
    if s == "" || s[0] != '<' then None
    else
      var name := ReadName(s[1..]);
      match ReadPairs(s[1 + |name|..])
      case None => None
      case Some((ps, tail)) =>
        if tail == "" || tail[0] != '>' then None else Some((StartTag(name, ps), tail[1..]))
  }

  // -------------------------------------------------------- what a value reads as

  /** Characters a value may contain literally and be read as it is. */
  predicate Clean(s: string) {
    forall i | 0 <= i < |s| :: s[i] != '"' && s[i] != '<' && s[i] != '&' && s[i] != '\t' && s[i] != '\n' && s[i] != '\r'
  }

  lemma {:induction false} SpacedClean(s: string)
    requires forall i | 0 <= i < |s| :: s[i] != '\t' && s[i] != '\n' && s[i] != '\r'
    ensures Spaced(s) == s
  {
    if s != "" {
      SpacedClean(s[1..]);
    }
  }

  lemma {:induction false} CleanUnescapes(s: string)
    requires '&' !in s
    ensures Unescape(s) == Some(s)
  {
    if s != "" {
      CleanUnescapes(s[1..]);
      assert [s[0]] + s[1..] == s;
    }
  }

  /** Decoding never lengthens, and shortens what contains a reference. */
  lemma {:induction false} UnescapeShortens(s: string)
    ensures Unescape(s).Some? ==> |Unescape(s).value| <= |s|
    ensures Unescape(s).Some? && '&' in s ==> |Unescape(s).value| < |s|
    decreases |s|
  {
    if s != "" {
      if s[0] == '&' {
        var name := RefName(s[1..]);
        if 1 + |name| < |s| {
          UnescapeShortens(s[|name| + 2..]);
        }
      } else {
        UnescapeShortens(s[1..]);
        assert s == [s[0]] + s[1..];
      }
    }
  }

  lemma {:induction false} SpacedAt(s: string, i: nat)
    requires i < |s|
    ensures Spaced(s)[i] == if IsSpace(s[i]) then ' ' else s[i]
  {
    if i > 0 {
      SpacedAt(s[1..], i - 1);
    }
  }

  lemma SpacedKeeps(s: string)
    ensures '&' in Spaced(s) <==> '&' in s
    ensures Spaced(s) == s ==> forall i | 0 <= i < |s| :: s[i] != '\t' && s[i] != '\n' && s[i] != '\r'
  {
    forall i | 0 <= i < |s|
      ensures Spaced(s)[i] == if IsSpace(s[i]) then ' ' else s[i]
    {
      SpacedAt(s, i);
    }
    if '&' in s {
      var i :| 0 <= i < |s| && s[i] == '&';
      assert Spaced(s)[i] == '&';
    }
  }

  /** A value reads as itself exactly when it is clean. */
  lemma ValueReadsIff(raw: string)
    requires '"' !in raw
    ensures ReadValue(raw) == Some(raw) <==> Clean(raw)
  {
    SpacedKeeps(raw);
    if Clean(raw) {
      SpacedClean(raw);
      CleanUnescapes(raw);
    } else if '<' !in raw && '&' in raw {
      UnescapeShortens(Spaced(raw));
    } else if '<' !in raw {
      CleanUnescapes(Spaced(raw));
    }
  }

  lemma {:induction false} UpToStops(s: string, c: char, rest: string)
    requires c !in s
    ensures UpTo(s + [c] + rest, c) == s
  {
    var t := s + [c] + rest;
    if s != "" {
      assert t[1..] == s[1..] + [c] + rest;
      UpToStops(s[1..], c, rest);
    }
  }

  lemma {:induction false} UpToBefore(s: string, c: char, rest: string)
    requires c in s
    ensures |UpTo(s + rest, c)| < |s|
  {
    if s[0] != c {
      assert (s + rest)[1..] == s[1..] + rest;
      assert s == [s[0]] + s[1..];
      UpToBefore(s[1..], c, rest);
    }
  }

  lemma QuotedReads(raw: string, rest: string)
    requires '"' !in raw
    ensures ReadQuoted(raw + "\"" + rest) == if ReadValue(raw).None? then None else Some((ReadValue(raw).value, rest))
  {
    var s := raw + "\"" + rest;
    UpToStops(raw, '"', rest);
    assert s[|raw| + 1..] == rest;
  }

  /** Whatever follows: a URI that is not clean is read as something else or not at all. */
  lemma UncleanReadsOther(href: string, rest: string)
    requires !Clean(href)
    ensures var r := ReadQuoted(href + "\"" + rest); r.None? || r.value.0 != href
  {
    var s := href + "\"" + rest;
    if '"' in href {
      Seqs.Assoc(href, "\"", rest);
      UpToBefore(href, '"', "\"" + rest);
      var raw := UpTo(s, '"');
      UnescapeShortens(Spaced(raw));
    } else {
      QuotedReads(href, rest);
      ValueReadsIff(href);
    }
  }

  /** Attribute values are escaped, so they always read as themselves. */
  lemma EscapedReads(value: string, rest: string)
    ensures ReadQuoted(Escape(value, ForAttr) + "\"" + rest) == Some((value, rest))
  {
    var raw := Escape(value, ForAttr);
    NoRawDelimiter(value, ForAttr);
    SpacedClean(raw);
    UnescapeEscape(value, ForAttr);
    QuotedReads(raw, rest);
  }

  // --------------------------------------------------------- tags read back

  function DeclName(ns: Ns): string {
    if ns.prefix == "" then "xmlns" else "xmlns:" + ns.prefix
  }

  function AttrName(a: Attribute): string {
    (if a.ns.Some? && a.ns.value.prefix != "" then a.ns.value.prefix + ":" else "") + a.name
  }

  function DeclPairs(ds: seq<Ns>): seq<Pair> {
    if ds == [] then [] else [Pair(DeclName(ds[0]), ds[0].href)] + DeclPairs(ds[1..])
  }

  function AttrPairs(as': seq<Attribute>): seq<Pair> {
    if as' == [] then [] else [Pair(AttrName(as'[0]), as'[0].value)] + AttrPairs(as'[1..])
  }

  lemma PairReads(name: string, body: string, s: string)
    requires '=' !in name && s == " " + name + "=\"" + body
    ensures ReadPairs(s) ==
      match ReadQuoted(body)
      case None => None
      case Some((v, rest)) =>
        (match ReadPairs(rest)
         case None => None
         case Some((ps, tail)) => Some(([Pair(name, v)] + ps, tail)))
  {
    assert s[1..] == name + "=" + ("\"" + body);
    UpToStops(name, '=', "\"" + body);
    assert s[|name| + 2] == '"' && s[|name| + 3..] == body;
  }

  /** A declaration in front of anything. */
  lemma DeclReads(ns: Ns, rest: string)
    requires '=' !in ns.prefix
    ensures ReadPairs(ShowDecl(ns) + rest) ==
      match ReadQuoted(ns.href + "\"" + rest)
      case None => None
      case Some((v, more)) =>
        (match ReadPairs(more)
         case None => None
         case Some((ps, tail)) => Some(([Pair(DeclName(ns), v)] + ps, tail)))
  {
    var name, body := DeclName(ns), ns.href + "\"" + rest;
    assert ShowDecl(ns) + rest == " " + name + "=\"" + body;
    PairReads(name, body, ShowDecl(ns) + rest);
  }

  lemma AttrReads(a: Attribute, rest: string)
    requires '=' !in AttrName(a)
    ensures ReadPairs(ShowAttr(a) + rest) ==
      match ReadPairs(rest)
      case None => None
      case Some((ps, tail)) => Some(([Pair(AttrName(a), a.value)] + ps, tail))
  {
    var name, body := AttrName(a), Escape(a.value, ForAttr) + "\"" + rest;
    assert ShowAttr(a) + rest == " " + name + "=\"" + body;
    PairReads(name, body, ShowAttr(a) + rest);
    EscapedReads(a.value, rest);
  }

  predicate EndsPairs(tail: string) {
    tail == "" || tail[0] != ' '
  }

  lemma {:induction false} AttrsRead(as': seq<Attribute>, tail: string)
    requires EndsPairs(tail) && forall a | a in as' :: '=' !in AttrName(a)
    ensures ReadPairs(ShowAttrs(as') + tail) == Some((AttrPairs(as'), tail))
  {
    if as' == [] {
      assert "" + tail == tail;
    } else {
      assert as'[0] in as' && forall a | a in as'[1..] :: a in as';
      AttrsRead(as'[1..], tail);
      Seqs.Assoc(ShowAttr(as'[0]), ShowAttrs(as'[1..]), tail);
      AttrReads(as'[0], ShowAttrs(as'[1..]) + tail);
    }
  }

  lemma CleanFirst(d: Ns, more: string)
    requires '=' !in d.prefix && Clean(d.href)
    ensures ReadPairs(ShowDecl(d) + more) ==
      match ReadPairs(more)
      case None => None
      case Some((qs, tail)) => Some(([Pair(DeclName(d), d.href)] + qs, tail))
  {
    DeclReads(d, more);
    QuotedReads(d.href, more);
    ValueReadsIff(d.href);
  }

  lemma UncleanFirst(d: Ns, more: string)
    requires '=' !in d.prefix && !Clean(d.href)
    ensures var r := ReadPairs(ShowDecl(d) + more);
      r.Some? ==> r.value.0 != [] && r.value.0[0].value != d.href
  {
    DeclReads(d, more);
    UncleanReadsOther(d.href, more);
  }

  /** The printed declarations, followed by anything that reads back, read back as they
      were exactly when every URI among them is clean. */
  lemma {:induction false} DeclsReadIff(ds: seq<Ns>, rest: string, ps: seq<Pair>, tail: string)
    requires ReadPairs(rest) == Some((ps, tail)) && forall d | d in ds :: '=' !in d.prefix
    ensures ReadPairs(ShowDecls(ds) + rest) == Some((DeclPairs(ds) + ps, tail)) <==> forall d | d in ds :: Clean(d.href)
  {
    if ds == [] {
      assert "" + rest == rest && [] + ps == ps;
    } else {
      var d, more, p := ds[0], ShowDecls(ds[1..]) + rest, Pair(DeclName(ds[0]), ds[0].href);
      var qs := DeclPairs(ds[1..]) + ps;
      assert d in ds && forall x | x in ds :: x == d || x in ds[1..];
      assert forall x | x in ds[1..] :: x in ds;
      DeclsReadIff(ds[1..], rest, ps, tail);
      Seqs.Assoc(ShowDecl(d), ShowDecls(ds[1..]), rest);
      assert DeclPairs(ds) + ps == [p] + qs by {
        Seqs.Assoc([p], DeclPairs(ds[1..]), ps);
      }
      if Clean(d.href) {
        CleanFirst(d, more);
        Prepended(p, qs, tail, ReadPairs(more));
      } else {
        UncleanFirst(d, more);
        assert ([p] + qs)[0].value == d.href;
      }
    }
  }

  /** Prepending a pair to what was read. */
  lemma Prepended(p: Pair, qs: seq<Pair>, tail: string, r: Option<(seq<Pair>, string)>)
    ensures (match r case None => None case Some((ps, t)) => Some(([p] + ps, t))) == Some(([p] + qs, tail))
            <==> r == Some((qs, tail))
  {
    if r.Some? {
      assert ([p] + r.value.0)[1..] == r.value.0 && ([p] + qs)[1..] == qs;
    }
  }

  /** A tag's name can be told from what follows it. */
  predicate NameOK(name: string) {
    ' ' !in name && '>' !in name
  }

  lemma {:induction false} NameReads(name: string, rest: string)
    requires NameOK(name) && (rest == "" || rest[0] == ' ' || rest[0] == '>')
    ensures ReadName(name + rest) == name
  {
    if name == "" {
      assert name + rest == rest;
    } else {
      assert (name + rest)[1..] == name[1..] + rest;
      NameReads(name[1..], rest);
    }
  }

  /** Names contain none of the characters that delimit them. */
  ghost predicate NamesOK(qname: string, decls: seq<Ns>, attrs: seq<Attribute>) {
    && NameOK(qname)
    && (forall d | d in decls :: '=' !in d.prefix)
    && (forall a | a in attrs :: '=' !in AttrName(a))
  }

  lemma PairsStart(decls: seq<Ns>, attrs: seq<Attribute>, rest: string)
    ensures var t := ShowDecls(decls) + (ShowAttrs(attrs) + (">" + rest)); t != "" && (t[0] == ' ' || t[0] == '>')
  {
    if decls != [] {
      assert ShowDecl(decls[0])[0] == ' ';
    } else if attrs != [] {
      assert ShowAttr(attrs[0])[0] == ' ';
    }
  }

  lemma StartTextIs(qname: string, decls: seq<Ns>, attrs: seq<Attribute>, rest: string)
    ensures StartText(true, qname, decls, attrs) + rest
            == "<" + (qname + (ShowDecls(decls) + (ShowAttrs(attrs) + (">" + rest))))
  {
    FiveParts("<" + qname, ShowDecls(decls), ShowAttrs(attrs), ">", rest);
    Seqs.Assoc("<", qname, ShowDecls(decls) + (ShowAttrs(attrs) + (">" + rest)));
  }

  lemma FiveParts(a: string, b: string, c: string, d: string, e: string)
    ensures a + b + c + d + e == a + (b + (c + (d + e)))
  {
    Seqs.Assoc(a + b + c, d, e);
    Seqs.Assoc(a + b, c, d + e);
    Seqs.Assoc(a, b, c + (d + e));
  }

  /** Once the name ends, the tag is read as its pairs are. */
  lemma StartReads(name: string, t: string, ps: seq<Pair>, tail: string)
    requires NameOK(name) && t != "" && (t[0] == ' ' || t[0] == '>')
    requires tail != "" && tail[0] == '>'
    ensures ReadStart("<" + (name + t)) == Some((StartTag(name, ps), tail[1..])) <==> ReadPairs(t) == Some((ps, tail))
  {
    var s := "<" + (name + t);
    assert s[1..] == name + t;
    NameReads(name, t);
    assert s[1 + |name|..] == t;
    TagOfPairs(name, ReadPairs(t), ps, tail);
  }

  /** A start tag in the output, whatever follows it, reads back as the name, the
      declarations and the attributes that were printed exactly when every namespace URI
      it declares is clean. */
  lemma StartTagReadsIff(qname: string, decls: seq<Ns>, attrs: seq<Attribute>, rest: string)
    requires NamesOK(qname, decls, attrs)
    ensures ReadStart(StartText(true, qname, decls, attrs) + rest)
            == Some((StartTag(qname, DeclPairs(decls) + AttrPairs(attrs)), rest))
            <==> forall d | d in decls :: Clean(d.href)
  {
    var tail := ">" + rest;
    var more := ShowAttrs(attrs) + tail;
    StartTextIs(qname, decls, attrs, rest);
    PairsStart(decls, attrs, rest);
    AttrsRead(attrs, tail);
    DeclsReadIff(decls, more, AttrPairs(attrs), tail);
    assert tail[1..] == rest;
    StartReads(qname, ShowDecls(decls) + more, DeclPairs(decls) + AttrPairs(attrs), tail);
  }

  /** From the pairs to the tag and back. */
  lemma TagOfPairs(name: string, r: Option<(seq<Pair>, string)>, ps: seq<Pair>, tail: string)
    requires tail != "" && tail[0] == '>'
    ensures (match r
             case None => None
             case Some((qs, t)) => if t == "" || t[0] != '>' then None else Some((StartTag(name, qs), t[1..])))
            == Some((StartTag(name, ps), tail[1..]))
            <==> r == Some((ps, tail))
  {
    if r.Some? && r.value.1 != "" {
      var t := r.value.1;
      assert t == [t[0]] + t[1..] && tail == [tail[0]] + tail[1..];
    }
  }

  // ------------------------------------------------------ namespaces from the text

  predicate IsDeclName(name: string) {
    name == "xmlns" || (|name| >= 6 && name[..6] == "xmlns:")
  }

  /** The declarations among the pairs of a tag. */
  function ReadDecls(ps: seq<Pair>): seq<Ns> {
    if ps == [] then []
    else if IsDeclName(ps[0].name) then
      [Ns(0, if ps[0].name == "xmlns" then "" else ps[0].name[6..], ps[0].value)] + ReadDecls(ps[1..])
    else ReadDecls(ps[1..])
  }

  /** A declaration without its identity. */
  function Plain(ds: seq<Ns>): (r: seq<Ns>)
    ensures |r| == |ds| && forall i | 0 <= i < |r| :: r[i].prefix == ds[i].prefix && r[i].href == ds[i].href
  {
    if ds == [] then [] else [Ns(0, ds[0].prefix, ds[0].href)] + Plain(ds[1..])
  }

  lemma {:induction false} NoDecls(attrs: seq<Attribute>)
    requires forall a | a in attrs :: !IsDeclName(AttrName(a))
    ensures ReadDecls(AttrPairs(attrs)) == []
  {
    if attrs != [] {
      assert attrs[0] in attrs && forall a | a in attrs[1..] :: a in attrs;
      NoDecls(attrs[1..]);
      assert AttrPairs(attrs)[1..] == AttrPairs(attrs[1..]);
    }
  }

  lemma {:induction false} DeclsAmongPairs(ds: seq<Ns>, attrs: seq<Attribute>)
    requires forall a | a in attrs :: !IsDeclName(AttrName(a))
    ensures ReadDecls(DeclPairs(ds) + AttrPairs(attrs)) == Plain(ds)
  {
    var ps := DeclPairs(ds) + AttrPairs(attrs);
    if ds == [] {
      NoDecls(attrs);
      assert ps == AttrPairs(attrs);
    } else {
      DeclsAmongPairs(ds[1..], attrs);
      assert ps[1..] == DeclPairs(ds[1..]) + AttrPairs(attrs);
      var name := DeclName(ds[0]);
      assert ds[0].prefix != "" ==> name[..6] == "xmlns:" && name[6..] == ds[0].prefix && |name| > 5;
    }
  }

  lemma PlainBinds(ds: seq<Ns>, p: string)
    ensures Search(Plain(ds), p) == Search(ds, p) && Binding(Plain(ds), p) == Binding(ds, p)
  {
    PlainFound(ds, p);
  }

  lemma {:induction false} PlainFound(ds: seq<Ns>, p: string)
    ensures SearchFrom(Plain(ds), p) == SearchFrom(ds, p)
  {
    if ds != [] {
      PlainFound(ds[1..], p);
      assert Plain(ds)[1..] == Plain(ds[1..]);
    }
  }
}
