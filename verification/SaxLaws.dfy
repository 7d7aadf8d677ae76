/** Every run of callbacks builds the tree a naive builder would build. */
module SaxLaws {

  import opened Bytes
  import opened Optional
  import opened SaxText

  // ----------------------------------------------------------- the naive builder

  datatype Tree =
    | Elem(name: string, kids: seq<Tree>)
    | Chars(text: Str)
    | Fixture(text: Str)
    | Section(text: Str)
    | Remark(text: Str)

  /** An open node and the finished children it has so far. */
  datatype Frame = Frame(name: string, kids: seq<Tree>)

  /** `limited`: over-long text is refused, as it is except right after an entity. */
  datatype Naive = Naive(frames: seq<Frame>, limited: bool)

  datatype Op =
    | Start(name: string)
    | End
    | Characters(text: Str, hints: Hints, junk: Byte)
    | Comment(text: Str)
    | CData(text: Str)
    | FirstEntity(text: Str)
    | Entity(text: Str)

  function Put(frames: seq<Frame>, t: Tree): seq<Frame>
    requires frames != []
  {
    var f := Last(frames);
    frames[|frames| - 1 := f.(kids := f.kids + [t])]
  }

  function Replace(frames: seq<Frame>, t: Tree): seq<Frame>
    requires frames != [] && Last(frames).kids != []
  {
    var f := Last(frames);
    frames[|frames| - 1 := f.(kids := f.kids[..|f.kids| - 1] + [t])]
  }

  /** The finished child before the insertion point. */
  function LastKid(frames: seq<Frame>): Option<Tree> {
    if frames == [] || Last(frames).kids == [] then None else Some(Last(Last(frames).kids))
  }

  /** Joins `text` to a last text child no longer than `max` allows, or adds one. */
  function PutText(frames: seq<Frame>, text: Str, max: Option<nat>): seq<Frame>
    requires frames != []
  {
    match LastKid(frames)
    case Some(Chars(s)) =>
      if max.Some? && |s| + |text| > max.value then frames else Replace(frames, Chars(s + text))
    case _ => Put(frames, Chars(text))
  }

  /** One callback, with text nodes growing up to `max`. */
  function Step(n: Naive, op: Op, max: Option<nat>): (r: Naive)
    requires n.frames != []
    ensures r.frames != []
  {
    var fs := n.frames;
    match op
    case Start(name) => Naive(fs + [Frame(name, [])], true)
    case End =>
      if |fs| == 1 then Naive(fs, true)
      else Naive(Put(fs[..|fs| - 1], Elem(Last(fs).name, Last(fs).kids)), true)
    case Characters(text, _, _) =>
      if |fs| == 1 then n else Naive(PutText(fs, text, if n.limited then max else None), true)
    case Comment(text) => n.(frames := Put(fs, Remark(text)))
    case CData(text) =>
      if |fs| == 1 then n
      else (match LastKid(fs)
            case Some(Section(s)) => n.(frames := Replace(fs, Section(s + text)))
            case _ => n.(frames := Put(fs, Section(text))))
    case FirstEntity(text) => if |fs| == 1 then n else Naive(Put(fs, Fixture(text)), false)
    case Entity(text) => if |fs| == 1 then n else Naive(PutText(fs, text, None), false)
  }

  function Run(ops: seq<Op>, max: Option<nat>): (r: Naive)
    ensures r.frames != []
  {
    if ops == [] then Naive([Frame("", [])], false)
    else Step(Run(ops[..|ops| - 1], max), ops[|ops| - 1], max)
  }

  // -------------------------------------------------- reading the tree back

  /** The tree below node `n`; children are always younger than their parent. */
  function TreeOf(nodes: seq<Node>, n: nat): Tree
    requires n < |nodes|
    decreases |nodes| - n, 1, 0
  {
    match nodes[n]
    case Branch(name, kids) => Elem(name, Forest(nodes, kids, n))
    case Text(content) => Chars(TextOf(content))
    case Fixed(text) => Fixture(text)
    case CData(text) => Section(text)
    case Comment(text) => Remark(text)
  }

  function Forest(nodes: seq<Node>, kids: seq<nat>, parent: nat): seq<Tree>
    requires parent < |nodes|
    decreases |nodes| - parent, 0, |kids|
  {
    if kids == [] then []
    else
      var k := Last(kids);
      Forest(nodes, kids[..|kids| - 1], parent) + (if parent < k < |nodes| then [TreeOf(nodes, k)] else [])
  }

  /** All of node `n`'s tree lies in the table between `n` and `hi`. */
  ghost predicate Within(nodes: seq<Node>, n: nat, hi: nat)
    decreases hi - n
  {
    n < hi <= |nodes| && (nodes[n].Branch? ==> ForestWithin(nodes, nodes[n].children, n, hi))
  }

  ghost predicate ForestWithin(nodes: seq<Node>, kids: seq<nat>, parent: nat, hi: nat)
    requires parent < hi
    decreases hi - parent, 0
  {
    forall j | 0 <= j < |kids| :: parent < kids[j] && kids[j] < hi && Within(nodes, kids[j], hi)
  }

  /** The open nodes nest, and finished children are disjoint runs of the table. */
  ghost predicate FrameOK(nodes: seq<Node>, n: nat) {
    && n < |nodes| && nodes[n].Branch?
    && (nodes[n].children != [] ==>
          var kids := nodes[n].children;
          n < Last(kids) < |nodes| && ForestWithin(nodes, Init(kids), n, Last(kids)))
  }

  function Init<T>(s: seq<T>): seq<T>
    requires s != []
  {
    s[..|s| - 1]
  }

  ghost predicate Nests(nodes: seq<Node>, outer: nat, inner: nat) {
    && outer < inner && outer < |nodes| && nodes[outer].Branch?
    && nodes[outer].children != [] && Last(nodes[outer].children) == inner
  }

  /** The open node at `i`: its last child is the next open node, or a finished one. */
  ghost predicate FrameAt(nodes: seq<Node>, stack: seq<nat>, i: nat)
    requires i < |stack|
  {
    && FrameOK(nodes, stack[i])
    && (if i + 1 < |stack| then Nests(nodes, stack[i], stack[i + 1])
        else nodes[stack[i]].children != [] ==> Within(nodes, Last(nodes[stack[i]].children), |nodes|))
  }

  ghost predicate Shape(c: Ctx) {
    c.stack != [] && forall i | 0 <= i < |c.stack| :: FrameAt(c.nodes, c.stack, i)
  }

  ghost predicate Inv(c: Ctx) {
    Shape(c) && Wired(c) && Accelerated(c) && Bounded(c)
  }

  /** The finished children of the open node at `i`: all but the one still open. */
  ghost function ViewOf(c: Ctx, i: nat): Frame
    requires i < |c.stack| && c.stack[i] < |c.nodes| && c.nodes[c.stack[i]].Branch?
  {
    var n := c.nodes[c.stack[i]];
    Frame(n.name, Forest(c.nodes, if i == |c.stack| - 1 || n.children == [] then n.children else Init(n.children), c.stack[i]))
  }

  ghost function View(c: Ctx): Naive
    requires Wired(c)
  {
    Naive(seq(|c.stack|, i requires 0 <= i < |c.stack| => ViewOf(c, i)), c.nodemem != 0)
  }

  // --------------------------------------------------------- unchanged parts

  ghost predicate Agree(a: seq<Node>, b: seq<Node>, lo: nat, hi: nat) {
    hi <= |a| && hi <= |b| && forall i | lo <= i < hi :: a[i] == b[i]
  }

  lemma {:induction false} WithinWider(nodes: seq<Node>, n: nat, lo: nat, hi: nat)
    requires Within(nodes, n, lo) && lo <= hi <= |nodes|
    ensures Within(nodes, n, hi)
    decreases hi - n, 0
  {
    if nodes[n].Branch? {
      ForestWithinWider(nodes, nodes[n].children, n, lo, hi);
    }
  }

  lemma {:induction false} ForestWithinWider(nodes: seq<Node>, kids: seq<nat>, parent: nat, lo: nat, hi: nat)
    requires parent < lo <= hi <= |nodes| && ForestWithin(nodes, kids, parent, lo)
    ensures ForestWithin(nodes, kids, parent, hi)
    decreases hi - parent, 0, 0
  {
    forall j | 0 <= j < |kids| ensures Within(nodes, kids[j], hi) {
      WithinWider(nodes, kids[j], lo, hi);
    }
  }

  /** A finished tree depends on its own run of the table only. */
  lemma {:induction false} SameTree(a: seq<Node>, b: seq<Node>, n: nat, hi: nat)
    requires Within(a, n, hi) && Agree(a, b, n, hi)
    ensures Within(b, n, hi) && TreeOf(b, n) == TreeOf(a, n)
    decreases hi - n, 1, 0
  {
    if a[n].Branch? {
      SameForest(a, b, a[n].children, n, hi);
    }
  }

  lemma {:induction false} SameForest(a: seq<Node>, b: seq<Node>, kids: seq<nat>, parent: nat, hi: nat)
    requires parent < hi && ForestWithin(a, kids, parent, hi) && Agree(a, b, parent + 1, hi)
    ensures ForestWithin(b, kids, parent, hi) && Forest(b, kids, parent) == Forest(a, kids, parent)
    decreases hi - parent, 0, |kids|
  {
    if kids != [] {
      SameForest(a, b, Init(kids), parent, hi);
      SameTree(a, b, Last(kids), hi);
      assert ForestWithin(b, kids, parent, hi) by {
        forall j | 0 <= j < |kids| ensures Within(b, kids[j], hi) {
          assert j < |kids| - 1 ==> Init(kids)[j] == kids[j];
        }
      }
    }
  }

  lemma ForestAdd(nodes: seq<Node>, kids: seq<nat>, parent: nat, k: nat)
    requires parent < k < |nodes|
    ensures Forest(nodes, kids + [k], parent) == Forest(nodes, kids, parent) + [TreeOf(nodes, k)]
  {
    assert Init(kids + [k]) == kids;
  }

  lemma {:induction false} StackAscends(c: Ctx, i: nat, j: nat)
    requires Shape(c) && i <= j < |c.stack|
    ensures c.stack[i] <= c.stack[j] && (i < j ==> c.stack[i] < c.stack[j])
    decreases j - i
  {
    if i < j {
      assert FrameAt(c.nodes, c.stack, j - 1);
      StackAscends(c, i, j - 1);
    }
  }

  /** Open nodes below the innermost keep their shape and their finished children when
      only the innermost and younger nodes change. */
  lemma LowerFrame(c: Ctx, d: Ctx, i: nat)
    requires Shape(c) && i < |c.stack| - 1 && |c.stack| <= |d.stack| && c.stack == d.stack[..|c.stack|]
    requires |c.nodes| <= |d.nodes| && Agree(c.nodes, d.nodes, 0, Last(c.stack))
    ensures FrameAt(d.nodes, d.stack, i) && FrameAt(c.nodes, c.stack, i) && ViewOf(d, i) == ViewOf(c, i)
  {
    StackAscends(c, i, i + 1);
    StackAscends(c, i + 1, |c.stack| - 1);
    assert FrameAt(c.nodes, c.stack, i) && FrameAt(c.nodes, c.stack, i + 1);
    SameForest(c.nodes, d.nodes, Init(c.nodes[c.stack[i]].children), c.stack[i], c.stack[i + 1]);
  }

  // ------------------------------------------------------- the kinds of change

  /** The innermost open node. */
  lemma Top(c: Ctx)
    requires Shape(c)
    ensures FrameAt(c.nodes, c.stack, |c.stack| - 1)
  {
  }

  /** The children of the innermost open node, as trees. */
  lemma TopView(c: Ctx)
    requires Shape(c) && Wired(c)
    ensures Last(View(c).frames).kids == Forest(c.nodes, Kids(c), Last(c.stack))
    ensures Kids(c) == [] ==> LastKid(View(c).frames) == None
    ensures Kids(c) != [] ==> LastKid(View(c).frames) == Some(TreeOf(c.nodes, Last(Kids(c))))
  {
    Top(c);
  }

  predicate Childless(n: Node) {
    n.Branch? ==> n.children == []
  }

  lemma KidsWithin(c: Ctx)
    requires Shape(c) && Wired(c)
    ensures Last(c.stack) < |c.nodes| && ForestWithin(c.nodes, Kids(c), Last(c.stack), |c.nodes|)
  {
    Top(c);
    var p := Last(c.stack);
    var kids := Kids(c);
    if kids != [] {
      ForestWithinWider(c.nodes, Init(kids), p, Last(kids), |c.nodes|);
      forall j | 0 <= j < |kids| ensures p < kids[j] < |c.nodes| && Within(c.nodes, kids[j], |c.nodes|) {
        assert j < |kids| - 1 ==> Init(kids)[j] == kids[j];
      }
    }
  }

  /** The list of children that gets a new member, seen from the new table. */
  lemma AddedKids(c: Ctx, n: Node)
    requires Shape(c) && Wired(c) && Childless(n)
    ensures var nodes := AddChild(c, n).nodes; var p := Last(c.stack); var k := |c.nodes|;
      && Agree(c.nodes, nodes, 0, p) && p < k && nodes[p] == c.nodes[p].(children := Kids(c) + [k])
      && ForestWithin(nodes, Kids(c), p, k) && Within(nodes, k, k + 1)
      && Forest(nodes, Kids(c), p) == Forest(c.nodes, Kids(c), p)
  {
    KidsWithin(c);
    SameForest(c.nodes, AddChild(c, n).nodes, Kids(c), Last(c.stack), |c.nodes|);
  }

  /** Adding a node changes the innermost open node only. */
  lemma AddChildTop(c: Ctx, n: Node, d: Ctx)
    requires Shape(c) && Wired(c) && Childless(n) && d == AddChild(c, n)
    ensures var p := Last(c.stack); var k := |c.nodes|;
      && Agree(c.nodes, d.nodes, 0, p) && d.nodes[p] == c.nodes[p].(children := Kids(c) + [k])
      && FrameOK(d.nodes, p) && Within(d.nodes, k, k + 1)
      && Forest(d.nodes, Kids(c), p) == Forest(c.nodes, Kids(c), p)
  {
    AddedKids(c, n);
    assert Init(Kids(c) + [|c.nodes|]) == Kids(c);
  }

  lemma AddChildFrame(c: Ctx, n: Node, d: Ctx)
    requires Shape(c) && Wired(c) && Childless(n) && d == AddChild(c, n)
    ensures FrameAt(d.nodes, d.stack, |d.stack| - 1)
  {
    AddChildTop(c, n, d);
    assert Last(d.nodes[Last(c.stack)].children) == |c.nodes| && |d.nodes| == |c.nodes| + 1;
  }

  lemma AddChildTrees(c: Ctx, n: Node, d: Ctx)
    requires Shape(c) && Wired(c) && Childless(n) && d == AddChild(c, n)
    ensures Forest(d.nodes, Kids(c) + [|c.nodes|], Last(c.stack)) == Forest(c.nodes, Kids(c), Last(c.stack)) + [TreeOf(d.nodes, |c.nodes|)]
  {
    AddChildTop(c, n, d);
    ForestAdd(d.nodes, Kids(c), Last(c.stack), |c.nodes|);
  }

  lemma AddChildView(c: Ctx, n: Node, d: Ctx)
    requires Shape(c) && Wired(c) && Childless(n) && d == AddChild(c, n)
    ensures Shape(d) && Wired(d) && Agree(c.nodes, d.nodes, 0, Last(c.stack))
    ensures Kids(d) == Kids(c) + [|c.nodes|]
    ensures View(d).frames == Put(View(c).frames, TreeOf(d.nodes, |c.nodes|))
  {
    AddChildTop(c, n, d);
    AddChildFrame(c, n, d);
    SameBelow(c, d);
    var m := |c.stack|;
    assert ViewOf(d, m - 1) == ViewOf(c, m - 1).(kids := ViewOf(c, m - 1).kids + [TreeOf(d.nodes, |c.nodes|)]) by {
      AddChildTrees(c, n, d);
    }
  }

  /** A change confined to the innermost open node and younger ones. */
  lemma SameBelow(c: Ctx, d: Ctx)
    requires Shape(c) && Wired(c) && c.stack == d.stack
    requires |c.nodes| <= |d.nodes| && Agree(c.nodes, d.nodes, 0, Last(c.stack))
    requires FrameAt(d.nodes, d.stack, |d.stack| - 1)
    ensures Shape(d) && Wired(d)
    ensures View(d).frames == View(c).frames[|c.stack| - 1 := ViewOf(d, |c.stack| - 1)]
  {
    forall i | 0 <= i < |c.stack| - 1
      ensures FrameAt(d.nodes, d.stack, i) && FrameAt(c.nodes, c.stack, i) && ViewOf(d, i) == ViewOf(c, i)
    {
      LowerFrame(c, d, i);
    }
    assert Shape(d);
    ShapeWired(d);
    assert View(d).frames == View(c).frames[|c.stack| - 1 := ViewOf(d, |c.stack| - 1)];
  }

  lemma ShapeWired(c: Ctx)
    requires Shape(c)
    ensures Wired(c)
  {
    Top(c);
    forall i | 0 <= i < |c.stack| ensures c.stack[i] < |c.nodes| && c.nodes[c.stack[i]].Branch? {
      assert FrameAt(c.nodes, c.stack, i);
    }
  }

  /** The open node that gets an element: the element is not finished yet. */
  lemma StartFrame(c: Ctx, name: string, d: Ctx)
    requires Shape(c) && Wired(c) && d == StartElement(c, name)
    ensures FrameAt(d.nodes, d.stack, |c.stack| - 1) && FrameAt(d.nodes, d.stack, |c.stack|)
    ensures Agree(c.nodes, d.nodes, 0, Last(c.stack))
    ensures ViewOf(d, |c.stack| - 1) == ViewOf(c, |c.stack| - 1) && ViewOf(d, |c.stack|) == Frame(name, [])
  {
    AddChildTop(c, Branch(name, []), AddChild(c, Branch(name, [])));
    assert Init(Kids(c) + [|c.nodes|]) == Kids(c);
  }

  lemma StartLower(c: Ctx, name: string, d: Ctx)
    requires Shape(c) && Wired(c) && d == StartElement(c, name)
    ensures forall i | 0 <= i < |c.stack| :: FrameAt(d.nodes, d.stack, i) && ViewOf(d, i) == ViewOf(c, i)
  {
    var m := |c.stack|;
    StartFrame(c, name, d);
    assert c.stack == d.stack[..m];
    forall i | 0 <= i < m
      ensures FrameAt(d.nodes, d.stack, i) && ViewOf(d, i) == ViewOf(c, i)
    {
      if i < m - 1 {
        LowerFrame(c, d, i);
      }
    }
  }

  lemma StartShape(c: Ctx, name: string, d: Ctx)
    requires Shape(c) && Wired(c) && d == StartElement(c, name)
    ensures Shape(d) && Wired(d)
  {
    StartFrame(c, name, d);
    StartLower(c, name, d);
    ShapeWired(d);
  }

  lemma StartView(c: Ctx, name: string, d: Ctx)
    requires Shape(c) && Wired(c) && d == StartElement(c, name)
    ensures Shape(d) && Wired(d) && Kids(d) == []
    ensures View(d).frames == View(c).frames + [Frame(name, [])]
  {
    StartShape(c, name, d);
    StartFrame(c, name, d);
    StartLower(c, name, d);
    assert View(d).frames == View(c).frames + [Frame(name, [])];
  }

  /** Closing the innermost node makes it a finished child of the next. */
  lemma EndView(c: Ctx)
    requires Shape(c) && Wired(c) && |c.stack| > 1
    ensures var d := EndElement(c); var fs := View(c).frames;
      && Shape(d) && Wired(d) && Coalescable(d) == None
      && View(d).frames == Put(Init(fs), Elem(Last(fs).name, Last(fs).kids))
  {
    EndShape(c);
    ClosedTop(c);
    EndFrames(c, EndElement(c));
  }

  lemma EndShape(c: Ctx)
    requires Shape(c) && |c.stack| > 1
    ensures var d := EndElement(c); Shape(d) && Wired(d) && Coalescable(d) == None
  {
    var d := EndElement(c);
    forall i | 0 <= i < |d.stack|
      ensures FrameAt(d.nodes, d.stack, i)
    {
      LowerStays(c, i);
    }
    ShapeWired(d);
    ClosedIsLast(c);
  }

  lemma ClosedIsLast(c: Ctx)
    requires Shape(c) && |c.stack| > 1
    ensures var p := c.stack[|c.stack| - 2]; var k := Last(c.stack);
      && p < |c.nodes| && c.nodes[p].Branch? && c.nodes[p].children != [] && Last(c.nodes[p].children) == k
      && k < |c.nodes| && c.nodes[k].Branch?
  {
    assert FrameAt(c.nodes, c.stack, |c.stack| - 2) && FrameAt(c.nodes, c.stack, |c.stack| - 1);
  }

  lemma EndFrames(c: Ctx, d: Ctx)
    requires Shape(c) && Wired(c) && |c.stack| > 1 && d == EndElement(c) && Wired(d)
    requires ViewOf(d, |d.stack| - 1)
             == var f := ViewOf(c, |d.stack| - 1); f.(kids := f.kids + [Elem(ViewOf(c, |d.stack|).name, ViewOf(c, |d.stack|).kids)])
    ensures View(d).frames == Put(Init(View(c).frames), Elem(Last(View(c).frames).name, Last(View(c).frames).kids))
  {
    var fs, ds := View(c).frames, View(d).frames;
    forall i | 0 <= i < |d.stack| - 1
      ensures ds[i] == fs[i]
    {
      LowerStays(c, i);
      FrameOfView(c, i);
      FrameOfView(d, i);
    }
    FrameOfView(d, |d.stack| - 1);
    FrameOfView(c, |d.stack| - 1);
    FrameOfView(c, |d.stack|);
    ClosedFrames(fs, ds);
  }

  lemma FrameOfView(c: Ctx, i: nat)
    requires Wired(c) && i < |c.stack|
    ensures |View(c).frames| == |c.stack| && View(c).frames[i] == ViewOf(c, i)
  {
  }

  lemma LowerStays(c: Ctx, i: nat)
    requires Shape(c) && i < |c.stack| - 1
    ensures var d := EndElement(c);
      FrameAt(c.nodes, c.stack, i) && FrameAt(d.nodes, d.stack, i) && (i < |d.stack| - 1 ==> ViewOf(d, i) == ViewOf(c, i))
  {
    assert FrameAt(c.nodes, c.stack, i);
    if i == |c.stack| - 2 {
      assert FrameAt(c.nodes, c.stack, i + 1);
      Top(c);
      OpenWithin(c);
    }
  }

  lemma OpenWithin(c: Ctx)
    requires Shape(c)
    ensures Within(c.nodes, Last(c.stack), |c.nodes|)
  {
    Top(c);
    ShapeWired(c);
    KidsWithin(c);
  }

  /** The element that is closed, among the children of the next. */
  lemma ClosedTop(c: Ctx)
    requires Shape(c) && Wired(c) && |c.stack| > 1
    ensures var d := EndElement(c); var m := |d.stack|; var p := d.stack[m - 1];
      && p < |d.nodes| && d.nodes[p].Branch? && FrameAt(c.nodes, c.stack, m - 1) && FrameAt(c.nodes, c.stack, m)
      && ViewOf(d, m - 1) == ViewOf(c, m - 1).(kids := ViewOf(c, m - 1).kids + [Elem(ViewOf(c, m).name, ViewOf(c, m).kids)])
  {
    var d := EndElement(c);
    var m := |d.stack|;
    assert FrameAt(c.nodes, c.stack, m) && FrameAt(c.nodes, c.stack, m - 1);
    var kids := c.nodes[d.stack[m - 1]].children;
    assert Init(kids) + [c.stack[m]] == kids;
    ForestAdd(c.nodes, Init(kids), d.stack[m - 1], c.stack[m]);
  }

  lemma ClosedFrames(fs: seq<Frame>, ds: seq<Frame>)
    requires |fs| == |ds| + 1 && ds != [] && forall i | 0 <= i < |ds| - 1 :: ds[i] == fs[i]
    requires Last(ds) == fs[|ds| - 1].(kids := fs[|ds| - 1].kids + [Elem(Last(fs).name, Last(fs).kids)])
    ensures ds == Put(fs[..|fs| - 1], Elem(Last(fs).name, Last(fs).kids))
  {
    assert forall i | 0 <= i < |ds| - 1 :: ds[i] == fs[..|fs| - 1][i];
  }

  /** Rewriting a last child that is a leaf changes that leaf only. */
  lemma SetLastView(c: Ctx, leaf: Node)
    requires Shape(c) && Wired(c) && Kids(c) != [] && !leaf.Branch? && !c.nodes[Last(Kids(c))].Branch?
    ensures var d := c.(nodes := c.nodes[Last(Kids(c)) := leaf]);
      && Shape(d) && Wired(d) && Kids(d) == Kids(c)
      && Last(View(c).frames).kids != []
      && View(d).frames == Replace(View(c).frames, TreeOf(d.nodes, Last(Kids(c))))
  {
    var k := Last(Kids(c));
    var p := Last(c.stack);
    var d := c.(nodes := c.nodes[k := leaf]);
    Top(c);
    TopView(c);
    SameForest(c.nodes, d.nodes, Init(Kids(c)), p, k);
    assert FrameAt(d.nodes, d.stack, |d.stack| - 1);
    SameBelow(c, d);
  }

  // ------------------------------------------------------------------ one step

  /** One callback of the real builder. */
  function Do(c: Ctx, op: Op): Ctx
    requires Wired(c) && Accelerated(c)
  {
    match op
    case Start(name) => StartElement(c, name)
    case End => EndElement(c)
    case Characters(text, h, junk) => SaxText.Characters(c, text, h, junk)
    case Comment(text) => AddComment(c, text)
    case CData(text) => CDataBlock(c, text)
    case FirstEntity(text) => EntityFirst(c, text)
    case Entity(text) => EntityText(c, text)
  }

  ghost predicate Becomes(c: Ctx, n: Naive) {
    Inv(c) && View(c) == n
  }

  /** A new text node reads as the text given, however it is stored. */
  lemma NewStorageText(h: Hints, text: Str)
    ensures TextOf(NewStorage(h, text)) == text
    ensures Describes(NewStorage(h, text), |text|, |text| + 1)
  {
    CStringOf(text);
  }

  /** What follows the text in the input is the beginning of a tag, not of a comment or a
      declaration. */
  predicate TagFollows(h: Hints) {
    h.next == 60 && h.after != 33
  }

  /** Where a new text node keeps its text: with the dictionary in use, inside the node if
      that is asked for and two pointers of eight bytes hold it with its terminator; else
      in the dictionary if it is very short and ends a value or stands before a tag,
      or is white space between tags; in every other case in a buffer. */
  lemma StorageChosen(h: Hints, text: Str)
    ensures var st := NewStorage(h, text);
            var blank := |text| in {1, 2, 3} || (3 < |text| < 60 && forall b | b in text :: b in {9, 10, 13, 32});
      && (st.Inline? <==> h.dictNames && h.compact && |text| + 1 <= 16)
      && (st.Interned? <==> h.dictNames && !st.Inline?
                            && ((|text| <= 3 && h.next in {34, 39}) || (TagFollows(h) && (text == [] || blank))))
  {
    assert forall i | 0 <= i < |text| :: text[i] in text;
  }

  /** The text that can be extended is the naive builder's last finished child. */
  lemma LastText(c: Ctx)
    requires Shape(c) && Wired(c) && |c.stack| > 1
    ensures match Coalescable(c)
            case Some(k) => LastKid(View(c).frames) == Some(Chars(TextOf(c.nodes[k].content)))
            case None => LastKid(View(c).frames).None? || !LastKid(View(c).frames).value.Chars?
  {
    TopView(c);
  }

  lemma NotJoined(frames: seq<Frame>, text: Str, max: Option<nat>)
    requires frames != [] && (LastKid(frames).None? || !LastKid(frames).value.Chars?)
    ensures PutText(frames, text, max) == Put(frames, Chars(text))
  {
  }

  /** With no text to extend, the naive builder adds a node too, whatever the limit. */
  lemma NothingToJoin(c: Ctx, text: Str, max: Option<nat>)
    requires Shape(c) && Wired(c) && |c.stack| > 1 && Coalescable(c) == None
    ensures PutText(View(c).frames, text, max) == Put(View(c).frames, Chars(text))
  {
    LastText(c);
    NotJoined(View(c).frames, text, max);
  }

  /** Adding a text node; the counters may be set to describe it or to zero. */
  lemma AddTextStep(c: Ctx, content: Storage, nodelen: int, nodemem: int)
    requires Inv(c) && |c.stack| > 1 && Coalescable(c) == None
    requires nodemem == 0 || (Describes(content, nodelen, nodemem) && nodemem == nodelen + 1)
    ensures var d := AddChild(c, Text(content)).(nodelen := nodelen, nodemem := nodemem);
      Becomes(d, Naive(Put(View(c).frames, Chars(TextOf(content))), nodemem != 0))
  {
    var e := AddChild(c, Text(content));
    AddChildView(c, Text(content), e);
    Recount(e, e.(nodelen := nodelen, nodemem := nodemem));
  }

  /** The counters play no part in the tree. */
  lemma Recount(c: Ctx, d: Ctx)
    requires Shape(c) && Wired(c) && d == c.(nodelen := d.nodelen, nodemem := d.nodemem)
    ensures Shape(d) && Wired(d) && View(d).frames == View(c).frames && Coalescable(d) == Coalescable(c)
  {
    forall i | 0 <= i < |c.stack| ensures FrameAt(d.nodes, d.stack, i) && ViewOf(d, i) == ViewOf(c, i) {
      assert FrameAt(c.nodes, c.stack, i);
    }
    assert View(d).frames == View(c).frames;
  }

  /** Rewriting the last text node, with counters that describe it or are zero. */
  lemma SetTextStep(c: Ctx, content: Storage, nodelen: int, nodemem: int)
    requires Inv(c) && Coalescable(c).Some?
    requires nodemem == 0 || Describes(content, nodelen, nodemem)
    requires -1 <= nodemem && (nodemem <= 4 * MAX_TEXT_LENGTH || nodemem == nodelen + 1)
    ensures var k := Coalescable(c).value; var d := SetText(c, k, content).(nodelen := nodelen, nodemem := nodemem);
      && Inv(d)
      && LastKid(View(c).frames) == Some(Chars(TextOf(c.nodes[k].content)))
      && View(d) == Naive(Replace(View(c).frames, Chars(TextOf(content))), nodemem != 0)
  {
    var k := Coalescable(c).value;
    var e := SetText(c, k, content);
    var d := e.(nodelen := nodelen, nodemem := nodemem);
    TopView(c);
    SetLastView(c, Text(content));
    Recount(e, d);
  }

  lemma ReplaceSame(frames: seq<Frame>, t: Tree)
    requires LastKid(frames) == Some(t)
    ensures Replace(frames, t) == frames
  {
    var f := Last(frames);
    assert f.kids[..|f.kids| - 1] + [t] == f.kids;
  }

  /** The overflow tests never decide: only the length limit refuses text. */
  lemma AppendCases(c: Ctx, k: nat, content: Storage, text: Str, junk: Byte)
    requires k < |c.nodes| && c.nodes[k].Text? && Bounded(c)
    requires content == Writable(c.nodes[k].content, c.nodelen, c.nodemem) && SafeAppend(content, c.nodelen, c.nodemem)
    ensures c.nodelen + |text| > MAX_TEXT_LENGTH ==> Append(c, k, text, junk) == SetText(c, k, content)
    ensures c.nodelen + |text| <= MAX_TEXT_LENGTH ==>
      var (all, mem) := Appended(content, c.nodelen, c.nodemem, text, junk);
      Append(c, k, text, junk) == SetText(c, k, all).(nodelen := c.nodelen + |text|, nodemem := mem)
  {
  }

  lemma AppendStep(c: Ctx, k: nat, text: Str, junk: Byte)
    requires Inv(c) && Coalescable(c) == Some(k) && c.nodemem != 0
    requires SafeAppend(Writable(c.nodes[k].content, c.nodelen, c.nodemem), c.nodelen, c.nodemem)
    ensures Becomes(Append(c, k, text, junk), Naive(PutText(View(c).frames, text, Some(MAX_TEXT_LENGTH)), true))
  {
    var content := Writable(c.nodes[k].content, c.nodelen, c.nodemem);
    WritableSafe(c, k);
    AppendCases(c, k, content, text, junk);
    if c.nodelen + |text| > MAX_TEXT_LENGTH {
      AppendRefused(c, k, content, text);
    } else {
      AppendWithin(c, k, content, text, junk);
    }
  }

  lemma AppendRefused(c: Ctx, k: nat, content: Storage, text: Str)
    requires Inv(c) && Coalescable(c) == Some(k) && c.nodemem != 0
    requires SafeAppend(content, c.nodelen, c.nodemem) && c.nodelen + |text| > MAX_TEXT_LENGTH
    requires TextOf(content) == TextOf(c.nodes[k].content)
    ensures Becomes(SetText(c, k, content), Naive(PutText(View(c).frames, text, Some(MAX_TEXT_LENGTH)), true))
  {
    SetTextStep(c, content, c.nodelen, c.nodemem);
    ReplaceSame(View(c).frames, Chars(TextOf(content)));
  }

  /** The last text node is rewritten to hold `text` as well. */
  lemma JoinStep(c: Ctx, k: nat, content: Storage, nodelen: int, nodemem: int, text: Str)
    requires Inv(c) && Coalescable(c) == Some(k) && Describes(content, nodelen, nodemem)
    requires TextOf(content) == TextOf(c.nodes[k].content) + text
    requires nodemem <= 4 * MAX_TEXT_LENGTH || nodemem == nodelen + 1
    ensures var d := SetText(c, k, content).(nodelen := nodelen, nodemem := nodemem);
      Becomes(d, Naive(PutText(View(c).frames, text, None), true))
    ensures nodelen <= MAX_TEXT_LENGTH ==>
      PutText(View(c).frames, text, None) == PutText(View(c).frames, text, Some(MAX_TEXT_LENGTH))
  {
    SetTextStep(c, content, nodelen, nodemem);
  }

  lemma JoinWithin(c: Ctx, k: nat, content: Storage, nodelen: int, nodemem: int, text: Str)
    requires Inv(c) && Coalescable(c) == Some(k) && Describes(content, nodelen, nodemem) && nodelen <= MAX_TEXT_LENGTH
    requires TextOf(content) == TextOf(c.nodes[k].content) + text
    requires nodemem <= 4 * MAX_TEXT_LENGTH || nodemem == nodelen + 1
    ensures Becomes(SetText(c, k, content).(nodelen := nodelen, nodemem := nodemem),
                    Naive(PutText(View(c).frames, text, Some(MAX_TEXT_LENGTH)), true))
  {
    JoinStep(c, k, content, nodelen, nodemem, text);
  }

  lemma AppendWithin(c: Ctx, k: nat, content: Storage, text: Str, junk: Byte)
    requires Inv(c) && Coalescable(c) == Some(k) && c.nodemem != 0
    requires SafeAppend(content, c.nodelen, c.nodemem) && c.nodelen + |text| <= MAX_TEXT_LENGTH
    requires TextOf(content) == TextOf(c.nodes[k].content)
    ensures var r := Appended(content, c.nodelen, c.nodemem, text, junk);
      var d := SetText(c, k, r.0).(nodelen := c.nodelen + |text|, nodemem := r.1);
      Becomes(d, Naive(PutText(View(c).frames, text, Some(MAX_TEXT_LENGTH)), true))
  {
    var r := Appended(content, c.nodelen, c.nodemem, text, junk);
    AppendedText(content, c.nodelen, c.nodemem, text, junk);
    assert Describes(r.0, c.nodelen + |text|, r.1);
    CapacityFits(c, content, text, junk);
    JoinWithin(c, k, r.0, c.nodelen + |text|, r.1, text);
  }

  lemma CapacityFits(c: Ctx, content: Storage, text: Str, junk: Byte)
    requires Bounded(c) && SafeAppend(content, c.nodelen, c.nodemem) && c.nodelen + |text| <= MAX_TEXT_LENGTH
    ensures var mem := Appended(content, c.nodelen, c.nodemem, text, junk).1;
      mem <= 4 * MAX_TEXT_LENGTH || mem == c.nodelen + |text| + 1
  {
  }

  lemma ExactBuffer(all: Str)
    ensures TextOf(Buffer(all + [0])) == all && Describes(Buffer(all + [0]), |all|, |all| + 1)
  {
    CStringOf(all);
  }

  lemma ConcatIs(c: Ctx, k: nat, text: Str, all: Str)
    requires k < |c.nodes| && c.nodes[k].Text? && all == TextOf(c.nodes[k].content) + text
    ensures Concat(c, k, text) == SetText(c, k, Buffer(all + [0])).(nodelen := |all|, nodemem := |all| + 1)
  {
  }

  lemma JoinExact(c: Ctx, k: nat, text: Str, all: Str, content: Storage)
    requires Inv(c) && Coalescable(c) == Some(k) && all == TextOf(c.nodes[k].content) + text
    requires TextOf(content) == all && Describes(content, |all|, |all| + 1)
    ensures Becomes(SetText(c, k, content).(nodelen := |all|, nodemem := |all| + 1),
                    Naive(PutText(View(c).frames, text, None), true))
  {
    JoinStep(c, k, content, |all|, |all| + 1, text);
  }

  lemma ConcatStep(c: Ctx, k: nat, text: Str, d: Ctx)
    requires Inv(c) && Coalescable(c) == Some(k) && d == Concat(c, k, text)
    ensures Becomes(d, Naive(PutText(View(c).frames, text, None), true))
  {
    var all: Str := TextOf(c.nodes[k].content) + text;
    ExactBuffer(all);
    ConcatIs(c, k, text, all);
    JoinExact(c, k, text, all, Buffer(all + [0]));
  }

  lemma ZeroCounters(c: Ctx)
    requires Inv(c)
    ensures Becomes(c.(nodelen := 0, nodemem := 0), Naive(View(c).frames, false))
  {
    Recount(c, c.(nodelen := 0, nodemem := 0));
  }

  lemma CharactersStep(c: Ctx, text: Str, h: Hints, junk: Byte)
    requires Inv(c)
    ensures Inv(SaxText.Characters(c, text, h, junk))
    ensures View(SaxText.Characters(c, text, h, junk)) == Step(View(c), Characters(text, h, junk), Some(MAX_TEXT_LENGTH))
  {
    if |c.stack| > 1 {
      match Coalescable(c)
      case None =>
        NewStorageText(h, text);
        NothingToJoin(c, text, if c.nodemem != 0 then Some(MAX_TEXT_LENGTH) else None);
        AddTextStep(c, NewStorage(h, text), |text|, |text| + 1);
      case Some(k) =>
        if c.nodemem != 0 {
          WritableSafe(c, k);
          AppendStep(c, k, text, junk);
        } else {
          ConcatStep(c, k, text, Concat(c, k, text));
        }
    }
  }

  lemma EntityStep(c: Ctx, text: Str, d: Ctx)
    requires Wired(c) && Inv(c) && d == EntityText(c, text)
    ensures Becomes(d, Step(View(c), Entity(text), Some(MAX_TEXT_LENGTH)))
  {
    CStringOf(text);
    if |c.stack| > 1 {
      match Coalescable(c)
      case None =>
        NothingToJoin(c, text, None);
        AddTextStep(c, Buffer(text + [0]), 0, 0);
      case Some(k) =>
        ConcatStep(c, k, text, Concat(c, k, text));
        ZeroCounters(Concat(c, k, text));
    }
  }

  lemma FirstEntityStep(c: Ctx, text: Str)
    requires Inv(c)
    ensures Becomes(EntityFirst(c, text), Step(View(c), FirstEntity(text), Some(MAX_TEXT_LENGTH)))
  {
    if |c.stack| > 1 {
      AddOtherStep(c, Fixed(text));
      ZeroCounters(AddChild(c, Fixed(text)));
    }
  }

  /** Adding a node other than text: the append path is closed afterwards. */
  lemma AddOtherStep(c: Ctx, n: Node)
    requires Inv(c) && !n.Branch? && !n.Text?
    ensures var d := AddChild(c, n);
      Inv(d) && View(d) == View(c).(frames := Put(View(c).frames, TreeOf([n], 0)))
  {
    AddChildView(c, n, AddChild(c, n));
    TopView(AddChild(c, n));
  }

  lemma CDataStep(c: Ctx, text: Str)
    requires Inv(c)
    ensures Inv(CDataBlock(c, text))
    ensures View(CDataBlock(c, text)) == Step(View(c), Op.CData(text), Some(MAX_TEXT_LENGTH))
  {
    if |c.stack| > 1 {
      TopView(c);
      if Kids(c) != [] && c.nodes[Last(Kids(c))].CData? {
        SetLastView(c, Node.CData(c.nodes[Last(Kids(c))].chars + text));
      } else {
        AddOtherStep(c, Node.CData(text));
      }
    }
  }

  /** Every callback keeps the invariant and does to the tree what the naive builder
      does. */
  lemma StepRefines(c: Ctx, op: Op)
    requires Inv(c)
    ensures Inv(Do(c, op))
    ensures View(Do(c, op)) == Step(View(c), op, Some(MAX_TEXT_LENGTH))
  {
    match op
    case Start(name) =>
      StartView(c, name, StartElement(c, name));
    case End =>
      if |c.stack| > 1 {
        EndView(c);
      } else {
        Recount(c, EndElement(c));
      }
    case Characters(text, h, junk) => CharactersStep(c, text, h, junk);
    case Comment(text) => AddOtherStep(c, Node.Comment(text));
    case CData(text) => CDataStep(c, text);
    case FirstEntity(text) => FirstEntityStep(c, text);
    case Entity(text) => EntityStep(c, text, EntityText(c, text));
  }

  // ---------------------------------------------------------------- whole runs

  /** The context after a run of callbacks; every reachable one keeps the invariant. */
  function Built(ops: seq<Op>): (c: Ctx)
    ensures Inv(c)
  {
    if ops == [] then EmptyInv(); EMPTY
    else
      var c := Built(ops[..|ops| - 1]);
      StepRefines(c, ops[|ops| - 1]);
      Do(c, ops[|ops| - 1])
  }

  lemma EmptyInv()
    ensures Inv(EMPTY) && View(EMPTY) == Naive([Frame("", [])], false)
  {
    assert FrameAt(EMPTY.nodes, EMPTY.stack, 0);
  }

  /** The built tree is that of the naive builder with the same limit. */
  lemma {:induction false} BuiltRefines(ops: seq<Op>)
    ensures View(Built(ops)) == Run(ops, Some(MAX_TEXT_LENGTH))
  {
    EmptyInv();
    if ops != [] {
      BuiltRefines(ops[..|ops| - 1]);
      StepRefines(Built(ops[..|ops| - 1]), ops[|ops| - 1]);
    }
  }

  /** In every reachable state whose append path is open, the counters are the length
      and a capacity of the last text node, the node's bytes are its own once copied,
      and the capacity fits a signed 32-bit field unless the node was born longer. */
  lemma AppendPathSound(ops: seq<Op>)
    ensures var c := Built(ops);
      forall k | Coalescable(c) == Some(k) && c.nodemem != 0 ::
        && c.nodelen == |TextOf(c.nodes[k].content)| && c.nodelen < c.nodemem
        && SafeAppend(Writable(c.nodes[k].content, c.nodelen, c.nodemem), c.nodelen, c.nodemem)
        && (c.nodemem <= 4 * MAX_TEXT_LENGTH < 0x8000_0000 || c.nodemem == c.nodelen + 1)
  {
    var c := Built(ops);
    if Coalescable(c).Some? && c.nodemem != 0 {
      WritableSafe(c, Coalescable(c).value);
    }
  }

  // ------------------------------------------------------ within the length limit

  function Size(op: Op): nat {
    match op
    case Characters(text, _, _) => |text|
    case FirstEntity(text) => |text|
    case Entity(text) => |text|
    case _ => 0
  }

  function Total(ops: seq<Op>): nat {
    if ops == [] then 0 else Total(ops[..|ops| - 1]) + Size(ops[|ops| - 1])
  }

  /** The length of the text a callback could extend. */
  function LastLength(frames: seq<Frame>): nat {
    match LastKid(frames)
    case Some(Chars(s)) => |s|
    case _ => 0
  }

  lemma PutTextLength(frames: seq<Frame>, text: Str, max: Option<nat>)
    requires frames != []
    ensures LastLength(PutText(frames, text, max)) <= LastLength(frames) + |text|
  {
  }

  lemma StepLength(n: Naive, op: Op, max: Option<nat>)
    requires n.frames != []
    ensures LastLength(Step(n, op, max).frames) <= LastLength(n.frames) + Size(op)
  {
    match op
    case Characters(text, _, _) => PutTextLength(n.frames, text, if n.limited then max else None);
    case Entity(text) => PutTextLength(n.frames, text, None);
    case _ =>
  }

  /** The text a run could still extend is no longer than all text so far. */
  lemma {:induction false} LastTextFits(ops: seq<Op>, max: Option<nat>)
    ensures LastLength(Run(ops, max).frames) <= Total(ops)
  {
    if ops != [] {
      LastTextFits(ops[..|ops| - 1], max);
      StepLength(Run(ops[..|ops| - 1], max), ops[|ops| - 1], max);
    }
  }

  lemma StepWithin(n: Naive, op: Op, max: nat)
    requires n.frames != [] && LastLength(n.frames) + Size(op) <= max
    ensures Step(n, op, Some(max)) == Step(n, op, None)
  {
  }

  lemma {:induction false} RunWithin(ops: seq<Op>, max: nat)
    requires Total(ops) <= max
    ensures Run(ops, Some(max)) == Run(ops, None)
  {
    if ops != [] {
      RunWithin(ops[..|ops| - 1], max);
      LastTextFits(ops[..|ops| - 1], None);
      StepWithin(Run(ops[..|ops| - 1], None), ops[|ops| - 1], max);
    }
  }

  /** A run whose text stays within the limit builds exactly the tree of the naive
      builder that has no limit. */
  lemma WithinLimit(ops: seq<Op>)
    requires Total(ops) <= MAX_TEXT_LENGTH
    ensures View(Built(ops)) == Run(ops, None)
  {
    BuiltRefines(ops);
    RunWithin(ops, MAX_TEXT_LENGTH);
  }

  lemma LimitMatters(frames: seq<Frame>, s: Str, text: Str, max: nat)
    requires LastKid(frames) == Some(Chars(s))
    ensures PutText(frames, text, Some(max)) == PutText(frames, text, None) <==> text == [] || |s| + |text| <= max
  {
    if text == [] {
      assert s + text == s;
      ReplaceSame(frames, Chars(s));
    } else {
      assert |s + text| != |s|;
      assert LastKid(Replace(frames, Chars(s + text))) == Some(Chars(s + text));
    }
  }

  /** The guard of the refusal: appending to a counted text past the limit. */
  predicate TooLong(c: Ctx, text: Str)
    requires Wired(c)
  {
    match Coalescable(c)
    case Some(k) => text != [] && c.nodemem != 0 && |TextOf(c.nodes[k].content)| + |text| > 10_000_000
    case None => false
  }

  lemma TooLongMeans(c: Ctx, text: Str)
    requires Inv(c)
    ensures TooLong(c, text) <==>
      |c.stack| > 1 && c.nodemem != 0 && text != []
      && LastKid(View(c).frames).Some? && LastKid(View(c).frames).value.Chars?
      && |LastKid(View(c).frames).value.text| + |text| > 10_000_000
  {
    if |c.stack| > 1 {
      LastText(c);
    }
  }

  /** In every reachable state, a call that is too long is refused: exactly then the
      builder and the naive one without a limit part. */
  lemma RefusedIff(c: Ctx, text: Str, h: Hints, junk: Byte)
    requires Wired(c) && Accelerated(c) && Inv(c)
    ensures Wired(SaxText.Characters(c, text, h, junk))
    ensures View(SaxText.Characters(c, text, h, junk)) == Step(View(c), Characters(text, h, junk), None) <==> !TooLong(c, text)
  {
    var n := View(c);
    CharactersStep(c, text, h, junk);
    TooLongMeans(c, text);
    match LastKid(n.frames)
    case Some(Chars(s)) => LimitMatters(n.frames, s, text, MAX_TEXT_LENGTH);
    case _ =>
  }
}
