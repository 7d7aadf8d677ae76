/** The tree builder behind the SAX2 callbacks and its text accelerator.

    Nodes live in a table and refer to each other by index, as the source's nodes do
    by pointer; appending text writes into the buffer of an existing node.  Node 0 is
    the document.  The counters `nodelen` and `nodemem` cache the length and the
    capacity of the last text node. */
module SaxText {

  import opened Bytes
  import opened Optional

  const MAX_TEXT_LENGTH: nat := 10000000
  const SIZE_MAX: nat := 0xFFFF_FFFF_FFFF_FFFF

  type Str = s: seq<Byte> | 0 !in s

  /** Where a text node keeps its characters: inside the node itself, in the
      dictionary, or in a buffer of its own that ends the text with a 0. */
  datatype Storage = Inline(text: Str) | Interned(text: Str) | Buffer(buf: seq<Byte>)

  /** A `Branch` is an element, or the document, whose name is empty.  `Fixed` is a
      text node under another name than the standard one: nothing is joined to it. */
  datatype Node =
    | Branch(name: string, children: seq<nat>)
    | Text(content: Storage)
    | Fixed(chars: Str)
    | CData(chars: Str)
    | Comment(chars: Str)

  /** `stack` lists the open nodes, outermost first; the document is at the bottom,
      and the source's current node is NULL when nothing else is open. */
  datatype Ctx = Ctx(nodes: seq<Node>, stack: seq<nat>, nodelen: int, nodemem: int)

  const EMPTY := Ctx([Branch("", [])], [0], 0, 0)

  /** The characters of a terminated buffer. */
  function CString(buf: seq<Byte>): (s: Str)
    ensures |s| <= |buf| && s == buf[..|s|]
    ensures |s| < |buf| ==> buf[|s|] == 0
  {
    if buf == [] || buf[0] == 0 then [] else [buf[0]] + CString(buf[1..])
  }

  function TextOf(c: Storage): Str {
    if c.Buffer? then CString(c.buf) else c.text
  }

  // ------------------------------------------------------------ the callbacks

  /** Open nodes can have children, and last children are in the table. */
  predicate Wired(c: Ctx) {
    && c.stack != []
    && (forall i | 0 <= i < |c.stack| :: c.stack[i] < |c.nodes| && c.nodes[c.stack[i]].Branch?)
    && (Kids(c) != [] ==> Last(Kids(c)) < |c.nodes|)
  }

  function Last<T>(s: seq<T>): T
    requires s != []
  {
    s[|s| - 1]
  }

  /** The children of the innermost open node. */
  function Kids(c: Ctx): seq<nat>
    requires c.stack != [] && Last(c.stack) < |c.nodes| && c.nodes[Last(c.stack)].Branch?
  {
    c.nodes[Last(c.stack)].children
  }

  /** The last child, if text can be appended to it. */
  function Coalescable(c: Ctx): Option<nat>
    requires Wired(c)
  {
    if |c.stack| > 1 && Kids(c) != [] && c.nodes[Last(Kids(c))].Text? then Some(Last(Kids(c))) else None
  }

  /** Adds a node as the last child of the innermost open one. */
  function AddChild(c: Ctx, n: Node): Ctx
    requires Wired(c)
  {
    var p := Last(c.stack);
    c.(nodes := c.nodes[p := c.nodes[p].(children := Kids(c) + [|c.nodes|])] + [n])
  }

  /** xmlSAX2StartElementNs. */
  function StartElement(c: Ctx, name: string): Ctx
    requires Wired(c)
  {
    AddChild(c, Branch(name, [])).(stack := c.stack + [|c.nodes|], nodemem := -1)
  }

  /** xmlSAX2EndElementNs. */
  function EndElement(c: Ctx): Ctx {
    c.(stack := if |c.stack| <= 1 then c.stack else c.stack[..|c.stack| - 1], nodemem := -1)
  }

  /** The parser's choices and the two bytes that follow the text in the input. */
  datatype Hints = Hints(dictNames: bool, compact: bool, next: Byte, after: Byte)

  predicate IsBlank(b: Byte) {
    b == 0x20 || b == 9 || b == 10 || b == 13
  }

  /** xmlSAX2TextNode: how a new text node stores its characters. */
  function NewStorage(h: Hints, text: Str): Storage {
    var tagNext := h.next == 60 && h.after != 33;
    if h.dictNames && |text| < 16 && h.compact then Inline(text)
    else if h.dictNames && |text| <= 3 && (h.next == 34 || h.next == 39 || tagNext) then Interned(text)
    else if h.dictNames && text != [] && |text| < 60 && tagNext && (forall i | 0 <= i < |text| :: IsBlank(text[i])) then
      Interned(text)
    else Buffer(text + [0])
  }

  /** Content that may be written: strings stored elsewhere are copied first. */
  function Writable(c: Storage, nodelen: int, nodemem: int): Storage {
    if c.Inline? || (nodemem == nodelen + 1 && c.Interned?) then Buffer(TextOf(c) + [0]) else c
  }

  /** realloc: keeps the old bytes; `junk` is what the new space happens to hold. */
  function Resize(buf: seq<Byte>, size: nat, junk: Byte): (r: seq<Byte>)
    ensures |r| == size
    ensures forall i | 0 <= i < |buf| && i < size :: r[i] == buf[i]
  {
    if size <= |buf| then buf[..size] else buf + seq(size - |buf|, _ => junk)
  }

  /** memcpy of `text` and a terminator at offset `at`. */
  function Splice(buf: seq<Byte>, at: nat, text: seq<Byte>): seq<Byte>
    requires at + |text| < |buf|
  {
    buf[..at] + text + [0] + buf[at + |text| + 1..]
  }

  /** The accelerated append writes inside memory the node owns: the content is a
      buffer of at least `nodemem` bytes with room for a terminator. */
  predicate SafeAppend(content: Storage, nodelen: int, nodemem: int) {
    content.Buffer? && 0 <= nodelen < nodemem <= |content.buf|
  }

  /** The new content and capacity of the accelerated append. */
  function Appended(content: Storage, nodelen: int, nodemem: int, text: Str, junk: Byte): (Storage, int)
    requires SafeAppend(content, nodelen, nodemem)
  {
    var grow := nodelen + |text| >= nodemem;
    var mem := if grow then (nodemem + |text|) * 2 else nodemem;
    var buf := if grow then Resize(content.buf, mem, junk) else content.buf;
    (Buffer(Splice(buf, nodelen, text)), mem)
  }

  function SetText(c: Ctx, k: nat, content: Storage): Ctx
    requires k < |c.nodes|
  {
    c.(nodes := c.nodes[k := Text(content)])
  }

  /** The append path of xmlSAX2Characters; over-long text is refused after the
      content was made writable. */
  function Append(c: Ctx, k: nat, text: Str, junk: Byte): Ctx
    requires k < |c.nodes| && c.nodes[k].Text?
    requires SafeAppend(Writable(c.nodes[k].content, c.nodelen, c.nodemem), c.nodelen, c.nodemem)
  {
    var content := Writable(c.nodes[k].content, c.nodelen, c.nodemem);
    if c.nodelen + |text| > MAX_TEXT_LENGTH || c.nodelen > SIZE_MAX - |text| || c.nodemem + |text| > SIZE_MAX / 2 then
      SetText(c, k, content)
    else
      var (all, mem) := Appended(content, c.nodelen, c.nodemem, text, junk);
      SetText(c, k, all).(nodelen := c.nodelen + |text|, nodemem := mem)
  }

  /** xmlTextConcat: always an exact new buffer. */
  function Concat(c: Ctx, k: nat, text: Str): Ctx
    requires k < |c.nodes| && c.nodes[k].Text?
  {
    var all := TextOf(c.nodes[k].content) + text;
    SetText(c, k, Buffer(all + [0])).(nodelen := |all|, nodemem := |all| + 1)
  }

  /** xmlSAX2Characters.  The append path tests `nodemem` against 0 only. */
  function Characters(c: Ctx, text: Str, h: Hints, junk: Byte): Ctx
    requires Wired(c) && Accelerated(c)
  {
    if |c.stack| == 1 then c
    else
      match Coalescable(c)
      case None => AddChild(c, Text(NewStorage(h, text))).(nodelen := |text|, nodemem := |text| + 1)
      case Some(k) =>
        if c.nodemem != 0 then
          WritableSafe(c, k);
          Append(c, k, text, junk)
        else Concat(c, k, text)
  }

  /** xmlSAX2Comment. */
  function AddComment(c: Ctx, text: Str): Ctx
    requires Wired(c)
  {
    AddChild(c, Comment(text))
  }

  /** xmlSAX2CDataBlock: adjacent blocks are joined. */
  function CDataBlock(c: Ctx, text: Str): Ctx
    requires Wired(c)
  {
    if |c.stack| == 1 then c
    else if Kids(c) != [] && c.nodes[Last(Kids(c))].CData? then
      var k := Last(Kids(c));
      c.(nodes := c.nodes[k := CData(c.nodes[k].chars + text)])
    else AddChild(c, CData(text))
  }

  /** The first reference to an entity that is text: the parser hands the entity's own
      node over under another name and zeroes both counters. */
  function EntityFirst(c: Ctx, text: Str): Ctx
    requires Wired(c)
  {
    if |c.stack| == 1 then c else AddChild(c, Fixed(text)).(nodelen := 0, nodemem := 0)
  }

  /** A later reference: the parser copies the text, which xmlAddChild joins to a last
      text node, and zeroes both counters. */
  function EntityText(c: Ctx, text: Str): Ctx
    requires Wired(c)
  {
    if |c.stack| == 1 then c
    else
      (match Coalescable(c)
       case Some(k) => Concat(c, k, text)
       case None => AddChild(c, Text(Buffer(text + [0])))).(nodelen := 0, nodemem := 0)
  }

  // ------------------------------------------------------------ the accelerator

  /** The counters describe this content. */
  ghost predicate Describes(content: Storage, nodelen: int, nodemem: int) {
    && nodelen == |TextOf(content)| && nodelen < nodemem
    && (if content.Buffer? then nodemem <= |content.buf| else nodemem == nodelen + 1)
  }

  /** Whenever the append path can be taken, the counters describe the node; in
      particular the -1 left by element boundaries is never seen there. */
  ghost predicate Accelerated(c: Ctx)
    requires Wired(c)
  {
    Coalescable(c).Some? && c.nodemem != 0 ==> Describes(c.nodes[Coalescable(c).value].content, c.nodelen, c.nodemem)
  }

  /** The capacity fits the `int` field that holds it. */
  predicate Bounded(c: Ctx) {
    -1 <= c.nodemem && (c.nodemem <= 4 * MAX_TEXT_LENGTH || c.nodemem == c.nodelen + 1)
  }

  lemma WritableSafe(c: Ctx, k: nat)
    requires Wired(c) && Accelerated(c) && Coalescable(c) == Some(k) && c.nodemem != 0
    ensures SafeAppend(Writable(c.nodes[k].content, c.nodelen, c.nodemem), c.nodelen, c.nodemem)
    ensures TextOf(Writable(c.nodes[k].content, c.nodelen, c.nodemem)) == TextOf(c.nodes[k].content)
  {
    CStringOf(TextOf(c.nodes[k].content));
  }

  lemma CStringOf(s: Str)
    ensures CString(s + [0]) == s
  {
    assert s + [0] == s + [0] + [];
    CStringPrefix(s, []);
  }

  lemma {:induction false} CStringPrefix(s: Str, rest: seq<Byte>)
    ensures CString(s + [0] + rest) == s
  {
    var b := s + [0] + rest;
    if s != [] {
      assert b[1..] == s[1..] + [0] + rest;
      CStringPrefix(s[1..], rest);
      assert s == [s[0]] + s[1..];
    }
  }

  /** Writing `text` after `before` leaves a buffer that reads as both. */
  lemma SpliceText(buf: seq<Byte>, before: Str, text: Str)
    requires |before| + |text| < |buf| && buf[..|before|] == before
    ensures CString(Splice(buf, |before|, text)) == before + text
  {
    var both: Str := before + text;
    var tail := buf[|before| + |text| + 1..];
    assert Splice(buf, |before|, text) == both + [0] + tail;
    CStringPrefix(both, tail);
  }

  /** The append writes exactly the text after what was there, whatever the new space
      held before. */
  lemma AppendedText(content: Storage, nodelen: int, nodemem: int, text: Str, junk: Byte)
    requires SafeAppend(content, nodelen, nodemem) && nodelen == |TextOf(content)|
    ensures var (all, mem) := Appended(content, nodelen, nodemem, text, junk);
      && TextOf(all) == TextOf(content) + text
      && nodelen + |text| < mem <= |all.buf|
  {
    var before := TextOf(content);
    var mem := (nodemem + |text|) * 2;
    if nodelen + |text| >= nodemem {
      var wide := Resize(content.buf, mem, junk);
      assert wide[..nodelen] == before;
      SpliceText(wide, before, text);
    } else {
      SpliceText(content.buf, before, text);
    }
  }
}
