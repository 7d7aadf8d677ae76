/** The document tree as the canonicalizer sees it, the orders it sorts by, and
    the canonical form as a function of the tree (XML_C14N_1_0 mode). */
module C14nTree {

  import opened Optional
  import opened SortedList
  import opened C14nEscape

  // -------------------------------------------------------------------- trees

  /** A namespace declaration; `prefix == ""` is the default namespace. */
  datatype Ns = Ns(id: nat, prefix: string, href: string)

  datatype Attribute = Attribute(id: nat, ns: Option<Ns>, name: string, value: string)

  datatype Node =
    | Element(id: nat, prefix: string, name: string, nsDef: seq<Ns>, attrs: seq<Attribute>, children: seq<Node>)
    | Text(id: nat, content: string)
    | CData(id: nat, content: string)
    | Instruction(id: nat, target: string, content: string)
    | Comment(id: nat, content: string)
    | EntityRef(id: nat)
    | Declaration(id: nat)

  type Elem = n: Node | n.Element? witness Element(0, "", "e", [], [], [])

  const XML_NAMESPACE := "http://www.w3.org/XML/1998/namespace"
  const NO_DEFAULT := Ns(0, "", "")

  /** The caller's choices: which nodes are visible (node, parent), whether
      comments are kept, and which namespace URIs count as relative. */
  datatype Options = Options(visible: (nat, nat) -> bool, comments: bool, relative: string -> bool, doc: nat)

  // ------------------------------------------------------------- comparators

  /** xmlStrcmp, up to the size of the result. */
  function StrCmp(a: string, b: string): int {
    if a == "" && b == "" then 0
    else if a == "" then -1
    else if b == "" then 1
    else if a[0] != b[0] then (a[0] as int) - (b[0] as int)
    else StrCmp(a[1..], b[1..])
  }

  lemma {:induction false} StrCmpOrder(a: string, b: string, c: string)
    ensures StrCmp(a, b) == 0 <==> a == b
    ensures StrCmp(a, b) < 0 <==> StrCmp(b, a) > 0
    ensures StrCmp(a, b) < 0 && StrCmp(b, c) < 0 ==> StrCmp(a, c) < 0
    decreases |a|
  {
    if a != "" && b != "" && a[0] == b[0] {
      StrCmpOrder(a[1..], b[1..], if c == "" then "" else c[1..]);
      assert a == [a[0]] + a[1..] && b == [b[0]] + b[1..];
    }
  }

  /** xmlC14NNsCompare. */
  function NsCompare(a: Ns, b: Ns): int {
    if a == b then 0 else StrCmp(a.prefix, b.prefix)
  }

  /** xmlC14NAttrsCompare; equality of `ns` values is equality of pointers. */
  function AttrCompare(a: Attribute, b: Attribute): int {
    if a == b then 0
    else if a.ns == b.ns then StrCmp(a.name, b.name)
    else if a.ns.None? then -1
    else if b.ns.None? then 1
    else if a.ns.value.prefix == "" then -1
    else if b.ns.value.prefix == "" then 1
    else
      var ret := StrCmp(a.ns.value.href, b.ns.value.href);
      if ret == 0 then StrCmp(a.name, b.name) else ret
  }

  // ------------------------------------------------ declarations and scoping

  /** All declarations on an ancestor-or-self chain, nearest first. */
  function Decls(chain: seq<Elem>): seq<Ns> {
    if chain == [] then [] else chain[0].nsDef + Decls(chain[1..])
  }

  /** xmlSearchNs: the place of the nearest declaration of a prefix.  The prefix
      "xml" belongs to the document and is never found on an element. */
  function Search(l: seq<Ns>, prefix: string): Option<nat> {
    if prefix == "xml" then None else SearchFrom(l, prefix)
  }

  function SearchFrom(l: seq<Ns>, prefix: string): (r: Option<nat>)
    ensures r.Some? ==> r.value < |l| && l[r.value].prefix == prefix
                        && forall j | 0 <= j < r.value :: l[j].prefix != prefix
    ensures r.None? ==> forall j | 0 <= j < |l| :: l[j].prefix != prefix
  {
    if l == [] then None
    else if l[0].prefix == prefix then Some(0)
    else
      var r := SearchFrom(l[1..], prefix);
      if r.None? then None else
        assert forall j | 0 < j < r.value + 1 :: l[j] == l[1..][j - 1];
        Some(r.value + 1)
  }

  /** xmlC14NIsXmlNs. */
  predicate IsXmlNs(ns: Ns) {
    ns.prefix == "xml" && ns.href == XML_NAMESPACE
  }

  function ParentId(o: Options, anc: seq<Elem>): nat {
    if anc == [] then o.doc else anc[0].id
  }

  predicate Visible(o: Options, n: Node, anc: seq<Elem>) {
    o.visible(n.id, ParentId(o, anc))
  }

  // -------------------------------------------------- the stack of rendered namespaces

  /** The live part of the stack and the two marks that delimit the last frame. */
  datatype NsStack = NsStack(tab: seq<Ns>, prevStart: nat, prevEnd: nat)

  predicate EmptyDefault(ns: Ns) {
    ns.prefix == "" && ns.href == ""
  }

  /** The downward scan of xmlC14NVisibleNsStackFind over `tab[start..i]`. */
  predicate FindFrom(tab: seq<Ns>, start: nat, i: nat, ns: Ns)
    requires i <= |tab|
    decreases i
  {
    if i <= start then EmptyDefault(ns)
    else if tab[i - 1].prefix == ns.prefix then tab[i - 1].href == ns.href
    else FindFrom(tab, start, i - 1, ns)
  }

  predicate Find(s: NsStack, ns: Ns) {
    FindFrom(s.tab, if EmptyDefault(ns) then 0 else s.prevStart, |s.tab|, ns)
  }

  /** Declaration `i` of the chain is the one in force and is to be rendered. */
  predicate Renders(o: Options, e: nat, l: seq<Ns>, i: nat)
    requires i < |l|
  {
    Search(l, l[i].prefix) == Some(i) && !IsXmlNs(l[i]) && o.visible(l[i].id, e)
  }

  /** The namespaces an element pushes when it is visible, in chain order. */
  function PushesFrom(o: Options, e: nat, l: seq<Ns>, i: nat): seq<Ns>
    requires i <= |l|
    decreases |l| - i
  {
    if i == |l| then []
    else (if Renders(o, e, l, i) then [l[i]] else []) + PushesFrom(o, e, l, i + 1)
  }

  function Pushes(o: Options, e: Elem, anc: seq<Elem>): seq<Ns> {
    PushesFrom(o, e.id, Decls([e] + anc), 0)
  }

  /** The stack while the children of `anc[0]` are processed. */
  function StackAt(o: Options, anc: seq<Elem>): NsStack {
    if anc == [] then NsStack([], 0, 0)
    else
      var s := StackAt(o, anc[1..]);
      if Visible(o, anc[0], anc[1..]) then
        var tab := s.tab + Pushes(o, anc[0], anc[1..]);
        NsStack(tab, s.prevEnd, |tab|)
      else s
  }

  // ----------------------------------------------------------- the two axes

  function Unrendered(s: NsStack, ps: seq<Ns>): seq<Ns> {
    if ps == [] then []
    else (if Find(s, ps[0]) then [] else [ps[0]]) + Unrendered(s, ps[1..])
  }

  predicate HasDefault(ps: seq<Ns>) {
    exists i | 0 <= i < |ps| :: ps[i].prefix == ""
  }

  /** The declarations printed for an element: those not found on the stack, sorted
      by prefix, after an explicit xmlns="" where one is called for. */
  function PrintedDecls(o: Options, e: Elem, anc: seq<Elem>): seq<Ns> {
    var s := StackAt(o, anc);
    var ps := Pushes(o, e, anc);
    (if Visible(o, e, anc) && !HasDefault(ps) && !Find(s, NO_DEFAULT) then [NO_DEFAULT] else [])
    + InsertAll([], Unrendered(s, ps), NsCompare)
  }

  function VisibleAttrs(o: Options, e: nat, attrs: seq<Attribute>): seq<Attribute> {
    if attrs == [] then []
    else (if o.visible(attrs[0].id, e) then [attrs[0]] else []) + VisibleAttrs(o, e, attrs[1..])
  }

  predicate IsXmlAttr(a: Attribute) {
    a.ns.Some? && IsXmlNs(a.ns.value)
  }

  function ImportFrom(list: seq<Attribute>, attrs: seq<Attribute>): seq<Attribute>
    decreases |attrs|
  {
    if attrs == [] then list
    else if IsXmlAttr(attrs[0]) && !Contains(list, attrs[0], AttrCompare) then
      ImportFrom(Insert(list, attrs[0], AttrCompare), attrs[1..])
    else ImportFrom(list, attrs[1..])
  }

  /** The xml: attributes inherited by an element whose parent is not visible. */
  function ImportXml(list: seq<Attribute>, anc: seq<Elem>): seq<Attribute>
    decreases |anc|
  {
    if anc == [] then list else ImportXml(ImportFrom(list, anc[0].attrs), anc[1..])
  }

  /** The parent is not visible; the document has no parent and stands for its own. */
  predicate ParentHidden(o: Options, anc: seq<Elem>) {
    if anc == [] then !o.visible(o.doc, o.doc) else !Visible(o, anc[0], anc[1..])
  }

  function PrintedAttrs(o: Options, e: Elem, anc: seq<Elem>): seq<Attribute> {
    var own := InsertAll([], VisibleAttrs(o, e.id, e.attrs), AttrCompare);
    if Visible(o, e, anc) && ParentHidden(o, anc) then ImportXml(own, anc) else own
  }

  // --------------------------------------------------------- the canonical form

  datatype Rendered =
    | Tag(shown: bool, qname: string, decls: seq<Ns>, attrs: seq<Attribute>, content: seq<Rendered>)
    | Raw(text: string)

  datatype Position = Before | Inside | After

  /** Where in the document we are: decides the line breaks around comments and
      processing instructions outside the document element. */
  datatype Place = Place(pos: Position, parentIsDoc: bool)

  datatype Outcome<T> = Failed | Done(value: T, place: Place)

  function QName(prefix: string, name: string): string {
    if prefix != "" then prefix + ":" + name else name
  }

  predicate RelativeDecl(o: Options, decls: seq<Ns>) {
    exists i | 0 <= i < |decls| :: decls[i].href != "" && o.relative(decls[i].href)
  }

  function ShowInstruction(target: string, content: string, pos: Position): string {
    (if pos == After then "\n<?" else "<?") + target
    + (if content != "" then " " + Escape(content, ForInstruction) else "")
    + (if pos == Before then "?>\n" else "?>")
  }

  function ShowComment(content: string, pos: Position): string {
    (if pos == After then "\n<!--" else "<!--") + Escape(content, ForComment)
    + (if pos == Before then "-->\n" else "-->")
  }

  /** The canonical form of a node below the elements `anc`. */
  function Render(o: Options, n: Node, anc: seq<Elem>, place: Place): Outcome<Rendered>
    decreases n, 1
  {
    match n
    case Element(_, prefix, name, nsDef, _, children) =>
      if RelativeDecl(o, nsDef) then Failed
      else
        var shown := Visible(o, n, anc);
        var root := shown && place.parentIsDoc;
        var inner := if root then Place(Inside, false) else place;
        (match RenderList(o, children, [n] + anc, inner)
         case Failed => Failed
         case Done(content, after) =>
           Done(Tag(shown, QName(prefix, name), PrintedDecls(o, n, anc), PrintedAttrs(o, n, anc), content),
                if root then Place(After, true) else after))
    case Text(_, content) => Done(Raw(if Visible(o, n, anc) then Escape(content, ForText) else ""), place)
    case CData(_, content) => Done(Raw(if Visible(o, n, anc) then Escape(content, ForText) else ""), place)
    case Instruction(_, target, content) =>
      Done(Raw(if Visible(o, n, anc) then ShowInstruction(target, content, place.pos) else ""), place)
    case Comment(_, content) =>
      Done(Raw(if Visible(o, n, anc) && o.comments then ShowComment(content, place.pos) else ""), place)
    case EntityRef(_) => Failed
    case Declaration(_) => Done(Raw(""), place)
  }

  function RenderList(o: Options, ns: seq<Node>, anc: seq<Elem>, place: Place): Outcome<seq<Rendered>>
    decreases ns, 0
  {
    if ns == [] then Done([], place)
    else
      match Render(o, ns[0], anc, place)
      case Failed => Failed
      case Done(r, place') =>
        match RenderList(o, ns[1..], anc, place')
        case Failed => Failed
        case Done(rs, place'') => Done([r] + rs, place'')
  }

  // ------------------------------------------------------------ as characters

  function ShowDecl(ns: Ns): string {
    (if ns.prefix != "" then " xmlns:" + ns.prefix + "=\"" else " xmlns=\"") + ns.href + "\""
  }

  function ShowDecls(decls: seq<Ns>): string {
    if decls == [] then "" else ShowDecl(decls[0]) + ShowDecls(decls[1..])
  }

  function ShowAttr(a: Attribute): string {
    " " + (if a.ns.Some? && a.ns.value.prefix != "" then a.ns.value.prefix + ":" else "")
    + a.name + "=\"" + Escape(a.value, ForAttr) + "\""
  }

  function ShowAttrs(attrs: seq<Attribute>): string {
    if attrs == [] then "" else ShowAttr(attrs[0]) + ShowAttrs(attrs[1..])
  }

  function StartText(shown: bool, qname: string, decls: seq<Ns>, attrs: seq<Attribute>): string {
    (if shown then "<" + qname else "") + ShowDecls(decls) + ShowAttrs(attrs) + (if shown then ">" else "")
  }

  function EndText(shown: bool, qname: string): string {
    if shown then "</" + qname + ">" else ""
  }

  function Show(r: Rendered): string
    decreases r, 1
  {
    match r
    case Raw(text) => text
    case Tag(shown, qname, decls, attrs, content) =>
      StartText(shown, qname, decls, attrs) + ShowAll(content) + EndText(shown, qname)
  }

  function ShowAll(rs: seq<Rendered>): string
    decreases rs, 0
  {
    if rs == [] then "" else Show(rs[0]) + ShowAll(rs[1..])
  }

  /** The canonical text of a document, or `None` when it has none. */
  function Canonical(o: Options, children: seq<Node>): Option<string> {
    match RenderList(o, children, [], Place(Before, true))
    case Failed => None
    case Done(rs, _) => Some(ShowAll(rs))
  }
}
