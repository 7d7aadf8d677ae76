/** A reader for the whole canonical text, and what it finds there: the elements, texts,
    comments and instructions of the document, in order. */
module C14nReader {

  import opened Optional
  import opened C14nEscape
  import opened C14nTree
  import opened C14nMeaning
  import opened C14nText
  import opened C14nScopes
  import Seqs

  // ------------------------------------------------------------------ the reader

  /** What an XML parser reports; text comes one character at a time. */
  datatype Event =
    | Opened(tag: StartTag)
    | Closed(name: string)
    | Letter(c: char)
    | Remark(text: string)
    | Directive(target: string, content: string)

  /** The text before the first `mark`. */
  function Until(s: string, mark: string): (r: Option<string>)
    ensures r.Some? ==> |r.value| + |mark| <= |s|
  {
    if mark <= s then Some("")
    else if s == "" then None
    else
      match Until(s[1..], mark)
      case None => None
      case Some(t) => Some([s[0]] + t)
  }

  function SkipSpaces(s: string): (r: string)
    ensures |r| <= |s| && forall c | c in r :: c in s
    ensures s != "" && IsSpace(s[0]) ==> |r| < |s|
  {
    if s != "" && IsSpace(s[0]) then SkipSpaces(s[1..]) else s
  }

  /** The target of an instruction ends at a space. */
  function TargetOf(s: string): (r: string)
    ensures |r| <= |s|
  {
    if s == "" || IsSpace(s[0]) then "" else [s[0]] + TargetOf(s[1..])
  }

  function ReadEvent(s: string): (r: Option<(Event, string)>)
    requires s != ""
    ensures r.Some? ==> |r.value.1| < |s|
  {
    if s[0] == '&' then
      var name := RefName(s[1..]);
      if 1 + |name| == |s| || Referent(name).None? then None
      else Some((Letter(Referent(name).value), s[|name| + 2..]))
    else if s[0] != '<' then
      Some((Letter(if s[0] == '\r' then '\n' else s[0]), s[1..]))
    else if "</" <= s then
      var name := ReadName(s[2..]);
      if 2 + |name| == |s| || s[2 + |name|] != '>' then None else Some((Closed(name), s[|name| + 3..]))
    else if "<!--" <= s then
      match Until(s[4..], "-->")
      case None => None
      case Some(t) => Some((Remark(t), s[|t| + 7..]))
    else if "<?" <= s then
      match Until(s[2..], "?>")
      case None => None
      case Some(t) =>
        Some((DirectiveIn(t), s[|t| + 4..]))
    else
      match ReadStart(s)
      case None => None
      case Some((tag, rest)) => Some((Opened(tag), rest))
  }

  function ReadAll(s: string): Option<seq<Event>>
    decreases |s|
  {
    if s == "" then Some([])
    else
      match ReadEvent(s)
      case None => None
      case Some((e, rest)) => Prepend([e], ReadAll(rest))
  }

  function Prepend(es: seq<Event>, r: Option<seq<Event>>): Option<seq<Event>> {
    match r
    case None => None
    case Some(more) => Some(es + more)
  }

  // ------------------------------------------------------- what the document says

  function Letters(s: string): (r: seq<Event>)
    ensures |r| == |s| && forall i | 0 <= i < |s| :: r[i] == Letter(s[i])
  {
    if s == "" then [] else [Letter(s[0])] + Letters(s[1..])
  }

  /** Outside the document element a line break separates comments and instructions
      from it. */
  function Apart(e: Event, pos: Position): seq<Event> {
    match pos
    case Before => [e, Letter('\n')]
    case Inside => [e]
    case After => [Letter('\n'), e]
  }

  /** A name as it is written in a tag. */
  function Written(prefix: string, name: string): string {
    if prefix == "" then name else prefix + ":" + name
  }

  function TagOf(o: Options, e: Elem, anc: seq<Elem>): StartTag {
    StartTag(Written(e.prefix, e.name), DeclPairs(PrintedDecls(o, e, anc)) + AttrPairs(PrintedAttrs(o, e, anc)))
  }

  function Says(o: Options, n: Node, anc: seq<Elem>, pos: Position): seq<Event>
    decreases n, 1
  {
    match n
    case Element(_, prefix, name, _, _, children) =>
      [Opened(TagOf(o, n, anc))] + SaysAll(o, children, [n] + anc) + [Closed(Written(prefix, name))]
    case Text(_, content) => Letters(content)
    case CData(_, content) => Letters(content)
    case Instruction(_, target, content) => Apart(Directive(target, content), pos)
    case Comment(_, content) => if o.comments then Apart(Remark(content), pos) else []
    case EntityRef(_) => []
    case Declaration(_) => []
  }

  function SaysAll(o: Options, ns: seq<Node>, anc: seq<Elem>): seq<Event>
    decreases ns, 0
  {
    if ns == [] then [] else Says(o, ns[0], anc, Inside) + SaysAll(o, ns[1..], anc)
  }

  /** The children of the document: what follows the document element comes after it. */
  function SaysDocument(o: Options, ns: seq<Node>, pos: Position): seq<Event>
    decreases |ns|
  {
    if ns == [] then []
    else Says(o, ns[0], [], pos) + SaysDocument(o, ns[1..], if ns[0].Element? then After else pos)
  }

  // ------------------------------------------------------------- what can be read

  predicate MarkAt(s: string, mark: string, i: nat) {
    i <= |s| && mark <= s[i..]
  }

  ghost predicate NoMark(s: string, mark: string) {
    forall i: nat :: !MarkAt(s, mark, i)
  }

  /** A comment or instruction is written without escaping, but for carriage returns. */
  ghost predicate Literal(s: string, mark: string) {
    NoMark(s, mark) && '\r' !in s
  }

  /** A reader skips the space in front of the content of an instruction. */
  ghost predicate DirectiveOK(content: string) {
    Literal(content, "?>") && (content != "" ==> !IsSpace(content[0]))
  }

  predicate TargetOK(target: string) {
    forall i | 0 <= i < |target| :: !IsSpace(target[i]) && target[i] != '?'
  }

  ghost predicate Legible(o: Options, n: Node, anc: seq<Elem>)
    decreases n, 1
  {
    match n
    case Element(_, _, _, _, _, children) => CleanScopes([n] + anc) && LegibleAll(o, children, [n] + anc)
    case Instruction(_, _, content) => DirectiveOK(content)
    case Comment(_, content) => o.comments ==> Literal(content, "-->")
    case _ => true
  }

  ghost predicate LegibleAll(o: Options, ns: seq<Node>, anc: seq<Elem>)
    decreases ns, 0
  {
    ns == [] || (Legible(o, ns[0], anc) && LegibleAll(o, ns[1..], anc))
  }

  predicate Initial(name: string) {
    name != "" && name[0] != '/' && name[0] != '!' && name[0] != '?'
  }

  /** Names are free of the characters that end them or begin other markup. */
  ghost predicate ProperlyNamed(n: Node, anc: seq<Elem>)
    decreases n, 1
  {
    match n
    case Element(_, prefix, name, _, _, children) =>
      Named([n] + anc) && Initial(QName(prefix, name)) && AllNamed(children, [n] + anc)
    case Instruction(_, target, _) => TargetOK(target)
    case _ => true
  }

  ghost predicate AllNamed(ns: seq<Node>, anc: seq<Elem>)
    decreases ns, 0
  {
    ns == [] || (ProperlyNamed(ns[0], anc) && AllNamed(ns[1..], anc))
  }

  // -------------------------------------------------------------------- leaf nodes

  lemma ReadOne(s: string, e: Event, rest: string)
    requires s != "" && ReadEvent(s) == Some((e, rest))
    ensures ReadAll(s) == Prepend([e], ReadAll(rest))
  {
  }

  lemma PrependMore(a: seq<Event>, b: seq<Event>, r: Option<seq<Event>>)
    ensures Prepend(a, Prepend(b, r)) == Prepend(a + b, r)
  {
    if r.Some? {
      assert a + (b + r.value) == (a + b) + r.value;
    }
  }

  /** One escaped character of a text. */
  lemma LetterReads(c: char, rest: string)
    ensures ReadAll(EscapeChar(c, ForText) + rest) == Prepend([Letter(c)], ReadAll(rest))
  {
    var name := ReferenceFor(c, ForText);
    var s := EscapeChar(c, ForText) + rest;
    if name == "" {
      assert s[0] == c && s[1..] == rest;
    } else {
      ReferenceMeans(c, ForText);
      assert s[1..] == name + ";" + rest;
      RefNameStops(name, rest);
      assert s[|name| + 2..] == rest;
    }
    ReadOne(s, Letter(c), rest);
  }

  lemma NothingSaid(r: Option<seq<Event>>)
    ensures Prepend([], r) == r
  {
    if r.Some? {
      assert [] + r.value == r.value;
    }
  }

  lemma {:induction false} TextReads(content: string, rest: string)
    ensures ReadAll(Escape(content, ForText) + rest) == Prepend(Letters(content), ReadAll(rest))
  {
    if content == "" {
      assert "" + rest == rest;
      NothingSaid(ReadAll(rest));
    } else {
      var more := Escape(content[1..], ForText);
      Seqs.Assoc(EscapeChar(content[0], ForText), more, rest);
      LetterReads(content[0], more + rest);
      TextReads(content[1..], rest);
      PrependMore([Letter(content[0])], Letters(content[1..]), ReadAll(rest));
    }
  }

  /** What marks the end of a comment or an instruction cannot overlap its content. */
  predicate Marks(mark: string) {
    mark == "-->" || mark == "?>"
  }

  lemma {:induction false} UntilStops(s: string, mark: string, rest: string)
    requires Marks(mark) && NoMark(s, mark)
    ensures Until(s + mark + rest, mark) == Some(s)
  {
    var t := s + mark + rest;
    if s == "" {
      assert t == mark + rest;
    } else {
      assert t[1..] == s[1..] + mark + rest;
      forall i: nat
        ensures !MarkAt(s[1..], mark, i)
      {
        assert !MarkAt(s, mark, i + 1);
        assert i <= |s[1..]| ==> s[1..][i..] == s[i + 1..];
      }
      UntilStops(s[1..], mark, rest);
      NotHere(s, mark, rest);
      assert [s[0]] + s[1..] == s;
    }
  }

  lemma NotHere(s: string, mark: string, rest: string)
    requires Marks(mark) && s != "" && NoMark(s, mark)
    ensures !(mark <= s + mark + rest)
  {
    var t := s + mark + rest;
    assert !MarkAt(s, mark, 0) && s[0..] == s;
    if |s| >= |mark| {
      assert t[..|mark|] == s[..|mark|];
    } else {
      assert t[|mark| - 1] == mark[|mark| - 1 - |s|];
    }
  }

  lemma {:induction false} UntilBefore(s: string, mark: string, rest: string, i: nat)
    requires mark != "" && MarkAt(s, mark, i)
    ensures Until(s + rest, mark).Some? && |Until(s + rest, mark).value| <= i
  {
    var t := s + rest;
    if i == 0 {
      assert s[0..] == s && t[..|mark|] == s[..|mark|];
    } else if !(mark <= t) {
      assert t[1..] == s[1..] + rest;
      assert s[1..][i - 1..] == s[i..];
      UntilBefore(s[1..], mark, rest, i - 1);
    }
  }

  /** Without carriage returns nothing is escaped. */
  lemma PlainContent(s: string, m: Mode)
    requires (m.ForComment? || m.ForInstruction?) && '\r' !in s
    ensures Escape(s, m) == s
  {
    forall i | 0 <= i < |s|
      ensures EscapeChar(s[i], m) == [s[i]]
    {
      assert s[i] in s;
    }
    NothingToEscape(s, m);
  }

  /** What is read up to the end mark is the content exactly when it is literal. */
  lemma LiteralReads(s: string, m: Mode, mark: string, rest: string)
    requires Marks(mark) && (m.ForComment? || m.ForInstruction?)
    ensures Until(Escape(s, m) + mark + rest, mark) == Some(s) <==> Literal(s, mark)
  {
    var e := Escape(s, m);
    if Literal(s, mark) {
      PlainContent(s, m);
      UntilStops(s, mark, rest);
    } else if '\r' in s {
      NoRawDelimiter(s, m);
      ReadsNoReturn(e, mark, rest);
    } else {
      PlainContent(s, m);
      var i: nat :| MarkAt(s, mark, i);
      Seqs.Assoc(s, mark, rest);
      UntilBefore(s, mark, mark + rest, i);
    }
  }

  lemma {:induction false} UntilWithin(s: string, mark: string, rest: string)
    requires mark != ""
    ensures var r := Until(s + mark + rest, mark); r.Some? && r.value <= s
  {
    var t := s + mark + rest;
    if s == "" {
      assert t == mark + rest;
    } else if !(mark <= t) {
      assert t[1..] == s[1..] + mark + rest;
      UntilWithin(s[1..], mark, rest);
    }
  }

  lemma ReadsNoReturn(e: string, mark: string, rest: string)
    requires mark != "" && forall i | 0 <= i < |e| :: e[i] != '\r'
    ensures var r := Until(e + mark + rest, mark); r.Some? && '\r' !in r.value
  {
    UntilWithin(e, mark, rest);
  }

  // --------------------------------------------------- pieces of text, put together

  /** Not read as something that begins with `es`. */
  predicate Misses(r: Option<seq<Event>>, es: seq<Event>) {
    r.Some? ==> !(es <= r.value)
  }

  /** In front of anything, `text` reads as `es` exactly when it is `legible`. */
  ghost predicate ReadsAs(text: string, es: seq<Event>, legible: bool) {
    forall rest: string ::
      if legible then ReadAll(text + rest) == Prepend(es, ReadAll(rest)) else Misses(ReadAll(text + rest), es)
  }

  lemma Joined(a: string, es: seq<Event>, p: bool, b: string, fs: seq<Event>, q: bool)
    requires ReadsAs(a, es, p) && ReadsAs(b, fs, q)
    ensures ReadsAs(a + b, es + fs, p && q)
  {
    forall rest: string
      ensures if p && q then ReadAll(a + b + rest) == Prepend(es + fs, ReadAll(rest))
              else Misses(ReadAll(a + b + rest), es + fs)
    {
      Seqs.Assoc(a, b, rest);
      if p && q {
        PrependMore(es, fs, ReadAll(rest));
      } else if p {
        MissesBehind(es, fs, ReadAll(b + rest));
      } else {
        MissesLonger(es, fs, ReadAll(a + (b + rest)));
      }
    }
  }

  lemma MissesBehind(es: seq<Event>, fs: seq<Event>, r: Option<seq<Event>>)
    requires Misses(r, fs)
    ensures Misses(Prepend(es, r), es + fs)
  {
    if r.Some? && |fs| <= |r.value| {
      var head := r.value[..|fs|];
      assert (es + r.value)[..|es + fs|] == es + head;
      assert (es + fs)[|es|..] == fs && (es + head)[|es|..] == head;
    }
  }

  lemma MissesLonger(es: seq<Event>, fs: seq<Event>, r: Option<seq<Event>>)
    requires Misses(r, es)
    ensures Misses(r, es + fs)
  {
  }

  lemma NothingReads()
    ensures ReadsAs("", [], true)
  {
    forall rest: string
      ensures ReadAll("" + rest) == Prepend([], ReadAll(rest))
    {
      assert "" + rest == rest;
      NothingSaid(ReadAll(rest));
    }
  }

  lemma LettersRead(content: string)
    ensures ReadsAs(Escape(content, ForText), Letters(content), true)
  {
    forall rest: string
      ensures ReadAll(Escape(content, ForText) + rest) == Prepend(Letters(content), ReadAll(rest))
    {
      TextReads(content, rest);
    }
  }

  lemma LineReads()
    ensures ReadsAs("\n", [Letter('\n')], true)
  {
    forall rest: string
      ensures ReadAll("\n" + rest) == Prepend([Letter('\n')], ReadAll(rest))
    {
      var s := "\n" + rest;
      assert s[1..] == rest;
      ReadOne(s, Letter('\n'), rest);
    }
  }

  /** A piece read as one event, or as another one. */
  lemma OneReads(text: string, e: Event, legible: bool)
    requires text != ""
    requires forall rest: string ::
      if legible then ReadEvent(text + rest) == Some((e, rest))
      else ReadEvent(text + rest).Some? ==> ReadEvent(text + rest).value.0 != e
    ensures ReadsAs(text, [e], legible)
  {
    forall rest: string
      ensures if legible then ReadAll(text + rest) == Prepend([e], ReadAll(rest)) else Misses(ReadAll(text + rest), [e])
    {
      var s := text + rest;
      if legible {
        ReadOne(s, e, rest);
      } else if ReadAll(s).Some? {
        var (f, more) := ReadEvent(s).value;
        ReadOne(s, f, more);
        assert ReadAll(s).value[0] == f;
      }
    }
  }

  lemma RemarkReads(content: string)
    ensures ReadsAs("<!--" + Escape(content, ForComment) + "-->", [Remark(content)], Literal(content, "-->"))
  {
    var e := Escape(content, ForComment);
    var text := "<!--" + e + "-->";
    forall rest: string
      ensures var r := ReadEvent(text + rest);
        if Literal(content, "-->") then r == Some((Remark(content), rest))
        else r.Some? ==> r.value.0 != Remark(content)
    {
      var s := text + rest;
      assert s[4..] == e + "-->" + rest;
      assert "<!--" <= s && s[0] == '<' && s[1] == '!';
      LiteralReads(content, ForComment, "-->", rest);
      if Literal(content, "-->") {
        PlainContent(content, ForComment);
        assert s[|content| + 7..] == rest;
      }
    }
    OneReads(text, Remark(content), Literal(content, "-->"));
  }

  // ---------------------------------------------------------------- instructions

  lemma {:induction false} TargetStops(target: string, more: string)
    requires TargetOK(target) && (more == "" || IsSpace(more[0]))
    ensures TargetOf(target + more) == target
  {
    if target == "" {
      assert target + more == more;
    } else {
      assert (target + more)[1..] == target[1..] + more;
      TargetStops(target[1..], more);
    }
  }

  lemma {:induction false} SkippedStarts(s: string)
    ensures SkipSpaces(s) != "" ==> !IsSpace(SkipSpaces(s)[0])
  {
    if s != "" && IsSpace(s[0]) {
      SkippedStarts(s[1..]);
    }
  }

  /** What stands between the target and the end mark. */
  function Between(content: string): string {
    if content == "" then "" else " " + content
  }

  lemma ContentSkipped(content: string)
    ensures content != "" && IsSpace(content[0]) ==> SkipSpaces(Between(content)) != content
    ensures content == "" || !IsSpace(content[0]) ==> SkipSpaces(Between(content)) == content
  {
    SkippedStarts(Between(content));
    assert content != "" ==> Between(content)[1..] == content;
  }

  lemma NoMarkIn(target: string, content: string)
    requires TargetOK(target)
    ensures NoMark(target + Between(content), "?>") <==> NoMark(content, "?>")
  {
    var t, n := target + Between(content), if content == "" then |target| else |target| + 1;
    assert t[n..] == content;
    if !NoMark(content, "?>") {
      var i: nat :| MarkAt(content, "?>", i);
      assert t[n + i..] == content[i..];
      assert MarkAt(t, "?>", n + i);
    }
    if !NoMark(t, "?>") {
      var i: nat :| MarkAt(t, "?>", i);
      assert t[i] == '?' && t[i..] == t[i..];
      assert i >= n;
      assert t[i..] == content[i - n..];
      assert MarkAt(content, "?>", i - n);
    }
  }

  function DirectiveIn(t: string): Event {
    var target := TargetOf(t);
    Directive(target, SkipSpaces(t[|target|..]))
  }

  lemma DirectiveText(target: string, content: string, rest: string)
    requires TargetOK(target)
    ensures Until(target + Between(Escape(content, ForInstruction)) + "?>" + rest, "?>") == Some(target + Between(content))
            <==> Literal(content, "?>")
  {
    var t := target + Between(content);
    assert forall i | 0 <= i < |target| :: target[i] != '\r';
    NoMarkIn(target, content);
    if '\r' in content {
      var e := target + Between(Escape(content, ForInstruction));
      NoRawDelimiter(content, ForInstruction);
      assert forall i | 0 <= i < |e| :: e[i] != '\r';
      ReadsNoReturn(e, "?>", rest);
      var i :| 0 <= i < |content| && content[i] == '\r';
      assert t[|target| + 1 + i] == '\r';
    } else {
      PlainContent(content, ForInstruction);
      if NoMark(content, "?>") {
        UntilStops(t, "?>", rest);
      } else {
        var i: nat :| MarkAt(t, "?>", i);
        Seqs.Assoc(t, "?>", rest);
        UntilBefore(t, "?>", "?>" + rest, i);
      }
    }
  }

  /** What is read of an instruction that is not literal is another one. */
  lemma DirectiveOther(target: string, content: string, t: string)
    requires TargetOK(target) && content != ""
    requires ('\r' in content && '\r' !in t) || (t <= target + Between(content) && t != target + Between(content))
    ensures DirectiveIn(t) != Directive(target, content)
  {
    var more := t[|TargetOf(t)|..];
    assert forall c | c in more :: c in t;
    if TargetOf(t) == target && t <= target + Between(content) {
      assert |more| <= |Between(content)|;
      assert more != "" ==> more[0] == ' ';
    }
  }

  lemma DirectiveEvent(target: string, content: string, rest: string)
    requires TargetOK(target)
    ensures var r := Until(target + Between(Escape(content, ForInstruction)) + "?>" + rest, "?>");
      if DirectiveOK(content) then r == Some(target + Between(content)) && DirectiveIn(r.value) == Directive(target, content)
      else r.Some? ==> DirectiveIn(r.value) != Directive(target, content)
  {
    var r := Until(target + Between(Escape(content, ForInstruction)) + "?>" + rest, "?>");
    DirectiveText(target, content, rest);
    ContentSkipped(content);
    TargetStops(target, Between(content));
    assert (target + Between(content))[|target|..] == Between(content);
    if !Literal(content, "?>") {
      DirectiveBounds(target, content, rest);
      DirectiveOther(target, content, r.value);
    }
  }

  lemma DirectiveBounds(target: string, content: string, rest: string)
    requires TargetOK(target) && !Literal(content, "?>")
    ensures var r := Until(target + Between(Escape(content, ForInstruction)) + "?>" + rest, "?>");
      content != "" && r.Some? && (if '\r' in content then '\r' !in r.value else r.value <= target + Between(content))
  {
    var e := target + Between(Escape(content, ForInstruction));
    assert NoMark("", "?>");
    NoRawDelimiter(content, ForInstruction);
    assert forall i | 0 <= i < |e| :: e[i] != '\r';
    ReadsNoReturn(e, "?>", rest);
    UntilWithin(e, "?>", rest);
    if '\r' !in content {
      PlainContent(content, ForInstruction);
    }
  }

  lemma DirectiveRead(e: string, rest: string)
    ensures var r := Until(e + "?>" + rest, "?>"); var s := "<?" + e + "?>" + rest;
      && (r.None? ==> ReadEvent(s) == None)
      && (r.Some? ==> |r.value| + 4 <= |s| && ReadEvent(s) == Some((DirectiveIn(r.value), s[|r.value| + 4..])))
  {
    var t := e + "?>" + rest;
    Seqs.Assoc("<?", e, "?>");
    Seqs.Assoc("<?", e + "?>", rest);
    DirectiveStarts(t);
  }

  lemma DirectiveStarts(t: string)
    ensures var s := "<?" + t; s[2..] == t && "<?" <= s && s[0] == '<' && s[1] == '?'
  {
  }

  lemma DirectiveReads(target: string, content: string)
    requires TargetOK(target)
    ensures ReadsAs("<?" + target + Between(Escape(content, ForInstruction)) + "?>", [Directive(target, content)], DirectiveOK(content))
  {
    var e := target + Between(Escape(content, ForInstruction));
    var text := "<?" + e + "?>";
    forall rest: string
      ensures var r := ReadEvent(text + rest);
        if DirectiveOK(content) then r == Some((Directive(target, content), rest))
        else r.Some? ==> r.value.0 != Directive(target, content)
    {
      DirectiveRead(e, rest);
      DirectiveEvent(target, content, rest);
      if DirectiveOK(content) {
        PlainContent(content, ForInstruction);
        Behind(text, rest);
      }
    }
    OneReads(text, Directive(target, content), DirectiveOK(content));
    Seqs.Assoc("<?", target, Between(Escape(content, ForInstruction)));
  }

  lemma Behind(text: string, rest: string)
    ensures (text + rest)[|text|..] == rest
  {
  }

  // ------------------------------------------------------------------- leaf nodes

  lemma ApartReads(text: string, e: Event, legible: bool, pos: Position)
    requires ReadsAs(text, [e], legible)
    ensures ReadsAs((if pos == After then "\n" else "") + text + (if pos == Before then "\n" else ""), Apart(e, pos), legible)
  {
    LineReads();
    match pos
    case Before =>
      Joined(text, [e], legible, "\n", [Letter('\n')], true);
      assert [e] + [Letter('\n')] == [e, Letter('\n')];
      assert "" + text + "\n" == text + "\n";
    case Inside =>
      assert "" + text + "" == text;
    case After =>
      Joined("\n", [Letter('\n')], true, text, [e], legible);
      assert [Letter('\n')] + [e] == [Letter('\n'), e];
      assert "\n" + text + "" == "\n" + text;
  }

  lemma InstructionReads(target: string, content: string, pos: Position)
    requires TargetOK(target)
    ensures ReadsAs(ShowInstruction(target, content, pos), Apart(Directive(target, content), pos), DirectiveOK(content))
  {
    var text := "<?" + target + Between(Escape(content, ForInstruction)) + "?>";
    DirectiveReads(target, content);
    ApartReads(text, Directive(target, content), DirectiveOK(content), pos);
    InstructionShown(target, content, pos, text);
  }

  lemma InstructionShown(target: string, content: string, pos: Position, text: string)
    requires text == "<?" + target + Between(Escape(content, ForInstruction)) + "?>"
    ensures ShowInstruction(target, content, pos)
            == (if pos == After then "\n" else "") + text + (if pos == Before then "\n" else "")
  {
    var between := Between(Escape(content, ForInstruction));
    var a, z := if pos == After then "\n" else "", if pos == Before then "\n" else "";
    EscapeNotEmpty(content);
    InstructionParts(target, between, a, z);
    assert a + "<?" == if pos == After then "\n<?" else "<?";
    assert "?>" + z == if pos == Before then "?>\n" else "?>";
  }

  lemma InstructionParts(target: string, between: string, a: string, z: string)
    ensures a + ("<?" + target + between + "?>") + z == (a + "<?") + target + between + ("?>" + z)
  {
    FiveParts(a, "<?", target, between, "?>");
    Seqs.Assoc("<?" + target, between, "?>");
    Seqs.Assoc("<?", target, between + "?>");
    Seqs.Assoc((a + "<?") + target + between, "?>", z);
  }

  lemma EscapeNotEmpty(content: string)
    ensures content != "" <==> Escape(content, ForInstruction) != ""
  {
  }

  lemma CommentReads(content: string, pos: Position)
    ensures ReadsAs(ShowComment(content, pos), Apart(Remark(content), pos), Literal(content, "-->"))
  {
    var text := "<!--" + Escape(content, ForComment) + "-->";
    RemarkReads(content);
    ApartReads(text, Remark(content), Literal(content, "-->"), pos);
    assert ShowComment(content, pos) == (if pos == After then "\n" else "") + text + (if pos == Before then "\n" else "");
  }

  // --------------------------------------------------------------------- elements

  lemma {:induction false} DeclPairAt(ds: seq<Ns>, k: nat)
    requires k < |ds|
    ensures |DeclPairs(ds)| == |ds| && DeclPairs(ds)[k] == Pair(DeclName(ds[k]), ds[k].href)
  {
    if k > 0 {
      DeclPairAt(ds[1..], k - 1);
    } else if |ds| > 1 {
      DeclPairAt(ds[1..], 0);
    }
  }

  lemma MisreadDiffers(ds: seq<Ns>, ps: seq<Pair>, k: nat, more: seq<Pair>)
    requires Misread(ds, ps, k)
    ensures ps != DeclPairs(ds) + more
  {
    DeclPairAt(ds, k);
  }

  /** A start tag that declares a URI which is not clean is not read as printed. */
  lemma OpenMisreads(name: string, ds: seq<Ns>, as': seq<Attribute>, rest: string)
    requires NamesOK(name, ds, as') && !CleanDecls(ds)
    ensures var r := ReadStart(StartText(true, name, ds, as') + rest);
      r.Some? ==> r.value.0.pairs != DeclPairs(ds) + AttrPairs(as')
  {
    var more := ShowAttrs(as') + (">" + rest);
    StartTextIs(name, ds, as', rest);
    PairsStart(ds, as', rest);
    StartPairs(name, ShowDecls(ds) + more);
    var k := DeclsMisread(ds, more);
    var r := ReadPairs(ShowDecls(ds) + more);
    if r.Some? {
      MisreadDiffers(ds, r.value.0, k, AttrPairs(as'));
    }
  }

  lemma OpenEvent(name: string, ds: seq<Ns>, as': seq<Attribute>, rest: string)
    requires NamesOK(name, ds, as') && Initial(name)
    ensures var tag := StartTag(name, DeclPairs(ds) + AttrPairs(as')); var s := StartText(true, name, ds, as') + rest;
      if CleanDecls(ds) then ReadEvent(s) == Some((Opened(tag), rest))
      else ReadEvent(s).Some? ==> ReadEvent(s).value.0 != Opened(tag)
  {
    var s := StartText(true, name, ds, as') + rest;
    StartTextIs(name, ds, as', rest);
    assert s[0] == '<' && s[1] == name[0];
    StartTagReadsIff(name, ds, as', rest);
    if !CleanDecls(ds) {
      OpenMisreads(name, ds, as', rest);
    }
  }

  lemma OpenReads(name: string, ds: seq<Ns>, as': seq<Attribute>)
    requires NamesOK(name, ds, as') && Initial(name)
    ensures ReadsAs(StartText(true, name, ds, as'), [Opened(StartTag(name, DeclPairs(ds) + AttrPairs(as')))], CleanDecls(ds))
  {
    var text, e := StartText(true, name, ds, as'), Opened(StartTag(name, DeclPairs(ds) + AttrPairs(as')));
    forall rest: string
      ensures if CleanDecls(ds) then ReadEvent(text + rest) == Some((e, rest))
              else ReadEvent(text + rest).Some? ==> ReadEvent(text + rest).value.0 != e
    {
      OpenEvent(name, ds, as', rest);
    }
    OneReads(text, e, CleanDecls(ds));
  }

  lemma CloseReads(name: string)
    requires NameOK(name)
    ensures ReadsAs(EndText(true, name), [Closed(name)], true)
  {
    var text := EndText(true, name);
    forall rest: string
      ensures ReadEvent(text + rest) == Some((Closed(name), rest))
    {
      var s := text + rest;
      assert s[2..] == name + (">" + rest);
      assert "</" <= s && s[0] == '<';
      NameReads(name, ">" + rest);
      assert s[2 + |name|] == '>' && s[|name| + 3..] == rest;
    }
    OneReads(text, Closed(name), true);
  }

  lemma JoinedMiss(a: string, es: seq<Event>, b: string, fs: seq<Event>)
    requires ReadsAs(a, es, false)
    ensures ReadsAs(a + b, es + fs, false)
  {
    forall rest: string
      ensures Misses(ReadAll(a + b + rest), es + fs)
    {
      Seqs.Assoc(a, b, rest);
      MissesLonger(es, fs, ReadAll(a + (b + rest)));
    }
  }

  /** The printed declarations of an element are clean exactly when its bindings are. */
  lemma CleanHere(o: Options, e: Elem, anc: seq<Elem>)
    requires AllVisible(o) && CleanScopes(anc)
    ensures CleanDecls(PrintedDecls(o, e, anc)) <==> CleanScopes([e] + anc)
  {
    if CleanDecls(PrintedDecls(o, e, anc)) {
      BindingsClean(o, e, anc);
    }
    if CleanScopes([e] + anc) {
      PrintedClean(o, e, anc);
    }
  }

  /** The tags around the content of an element. */
  lemma ElementReads(o: Options, e: Elem, anc: seq<Elem>, content: string, said: seq<Event>, legible: bool)
    requires AllVisible(o) && CleanScopes(anc) && Named([e] + anc) && Initial(QName(e.prefix, e.name))
    requires CleanScopes([e] + anc) ==> ReadsAs(content, said, legible)
    ensures var q := QName(e.prefix, e.name);
      ReadsAs(TagText(o, e, anc) + content + EndText(true, q), [Opened(TagOf(o, e, anc))] + said + [Closed(q)],
              CleanScopes([e] + anc) && legible)
  {
    var q, open, es := QName(e.prefix, e.name), TagText(o, e, anc), [Opened(TagOf(o, e, anc))];
    assert ([e] + anc)[0] == e;
    TagNamed(o, e, anc);
    OpenReads(q, PrintedDecls(o, e, anc), PrintedAttrs(o, e, anc));
    CleanHere(o, e, anc);
    if CleanScopes([e] + anc) {
      CloseReads(q);
      Joined(open, es, true, content, said, legible);
      Joined(open + content, es + said, legible, EndText(true, q), [Closed(q)], true);
    } else {
      JoinedMiss(open, es, content, said);
      JoinedMiss(open + content, es + said, EndText(true, q), [Closed(q)]);
    }
  }

  // --------------------------------------------------------------- the whole tree

  /** Below the document element nothing changes the place. */
  lemma {:induction false} InsideStays(o: Options, n: Node, anc: seq<Elem>, place: Place)
    requires !place.parentIsDoc && Render(o, n, anc, place).Done?
    ensures Render(o, n, anc, place).place == place
    decreases n, 1
  {
    if n.Element? {
      AllInsideStay(o, n.children, [n] + anc, place);
    }
  }

  lemma {:induction false} AllInsideStay(o: Options, ns: seq<Node>, anc: seq<Elem>, place: Place)
    requires !place.parentIsDoc && RenderList(o, ns, anc, place).Done?
    ensures RenderList(o, ns, anc, place).place == place
    decreases ns, 0
  {
    if ns != [] {
      InsideStays(o, ns[0], anc, place);
      AllInsideStay(o, ns[1..], anc, place);
    }
  }

  /** Every node reads as what it says, in its place, exactly when it is legible. */
  lemma {:induction false} NodeReads(o: Options, n: Node, anc: seq<Elem>, place: Place)
    requires AllVisible(o) && CleanScopes(anc) && ProperlyNamed(n, anc) && Render(o, n, anc, place).Done?
    requires place.parentIsDoc || place.pos == Inside
    ensures ReadsAs(Show(Render(o, n, anc, place).value), Says(o, n, anc, place.pos), Legible(o, n, anc))
    decreases n, 1
  {
    match n
    case Element(_, prefix, name, _, _, children) =>
      var inner := if place.parentIsDoc then Place(Inside, false) else place;
      var rs := RenderList(o, children, [n] + anc, inner).value;
      if CleanScopes([n] + anc) {
        NodesRead(o, children, [n] + anc, inner);
      }
      ElementReads(o, n, anc, ShowAll(rs), SaysAll(o, children, [n] + anc), LegibleAll(o, children, [n] + anc));
    case Text(_, content) =>
      LettersRead(content);
    case CData(_, content) =>
      LettersRead(content);
    case Instruction(_, target, content) =>
      InstructionReads(target, content, place.pos);
    case Comment(_, content) =>
      CommentReads(content, place.pos);
      NothingReads();
    case Declaration(_) =>
      NothingReads();
  }

  lemma {:induction false} NodesRead(o: Options, ns: seq<Node>, anc: seq<Elem>, place: Place)
    requires AllVisible(o) && CleanScopes(anc) && AllNamed(ns, anc) && RenderList(o, ns, anc, place).Done?
    requires place == Place(Inside, false)
    ensures ReadsAs(ShowAll(RenderList(o, ns, anc, place).value), SaysAll(o, ns, anc), LegibleAll(o, ns, anc))
    decreases ns, 0
  {
    if ns == [] {
      NothingReads();
    } else {
      var first := Render(o, ns[0], anc, place);
      InsideStays(o, ns[0], anc, place);
      NodeReads(o, ns[0], anc, place);
      NodesRead(o, ns[1..], anc, place);
      Joined(Show(first.value), Says(o, ns[0], anc, Inside), Legible(o, ns[0], anc),
             ShowAll(RenderList(o, ns[1..], anc, place).value), SaysAll(o, ns[1..], anc), LegibleAll(o, ns[1..], anc));
    }
  }

  lemma {:induction false} ChildrenRead(o: Options, ns: seq<Node>, pos: Position)
    requires AllVisible(o) && AllNamed(ns, []) && RenderList(o, ns, [], Place(pos, true)).Done?
    ensures ReadsAs(ShowAll(RenderList(o, ns, [], Place(pos, true)).value), SaysDocument(o, ns, pos), LegibleAll(o, ns, []))
    decreases |ns|
  {
    if ns == [] {
      NothingReads();
    } else {
      var first, next := Render(o, ns[0], [], Place(pos, true)), if ns[0].Element? then After else pos;
      NodeReads(o, ns[0], [], Place(pos, true));
      ChildrenRead(o, ns[1..], next);
      Joined(Show(first.value), Says(o, ns[0], [], pos), Legible(o, ns[0], []),
             ShowAll(RenderList(o, ns[1..], [], Place(next, true)).value), SaysDocument(o, ns[1..], next),
             LegibleAll(o, ns[1..], []));
    }
  }

  /** The canonical text of a fully visible document reads back, as a whole, as its
      elements with their printed declarations and attributes, its text, its comments if
      asked for and its instructions, in order and with the line breaks that belong
      outside the document element, exactly when it is legible. */
  lemma CanonicalReadsIff(o: Options, children: seq<Node>)
    requires AllVisible(o) && AllNamed(children, []) && Canonical(o, children).Some?
    ensures ReadAll(Canonical(o, children).value) == Some(SaysDocument(o, children, Before)) <==> LegibleAll(o, children, [])
  {
    var text, said := Canonical(o, children).value, SaysDocument(o, children, Before);
    ChildrenRead(o, children, Before);
    assert text + "" == text && said + [] == said;
    assert ReadAll("") == Some([]);
  }
}
