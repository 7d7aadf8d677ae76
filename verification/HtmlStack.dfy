/** The stack of open HTML elements: implied, auto-closed and discarded tags.

    The tables that say which start tag closes which open element and which elements
    are empty are parameters; the proofs use of them only that no start tag closes
    an open html or body. */
module HtmlStack {

  import opened Optional
  import Seqs

  datatype Event = Start(name: string) | End(name: string)

  /** `html` remembers whether a head (3) or a body (10) was ever opened; `depth`
      counts discarded tags.  The two last fields only count what was implied. */
  datatype State = State(names: seq<string>, html: nat, depth: nat, events: seq<Event>,
                         impliedHeads: nat, impliedBodies: nat)

  datatype Tables = Tables(closes: (string, string) -> bool, empty: string -> bool)

  ghost predicate TablesOK(t: Tables) {
    forall n :: !t.closes(n, "html") && !t.closes(n, "body")
  }

  const INITIAL := State([], 1, 0, [], 0, 0)

  // ----------------------------------------------------------------- operations

  /** htmlnamePush. */
  function Push(s: State, v: string): State {
    var h := if s.html < 3 && v == "head" then 3 else s.html;
    s.(names := s.names + [v], html := if h < 10 && v == "body" then 10 else h)
  }

  /** htmlnamePush with the start event that goes with it. */
  function Open(s: State, v: string): State {
    Push(s, v).(events := s.events + [Start(v)])
  }

  function Top(s: State): string
    requires s.names != []
  {
    s.names[|s.names| - 1]
  }

  /** htmlnamePop. */
  function Pop(s: State): State {
    if s.names == [] then s else s.(names := s.names[..|s.names| - 1])
  }

  /** The end event of the current element, then htmlnamePop. */
  function CloseTop(s: State): State
    requires s.names != []
  {
    Pop(s).(events := s.events + [End(Top(s))])
  }

  /** htmlAutoClose with a tag. */
  function AutoClose(t: Tables, s: State, newtag: string): State
    decreases |s.names|
  {
    if s.names != [] && t.closes(newtag, Top(s)) then AutoClose(t, CloseTop(s), newtag) else s
  }

  /** htmlAutoCloseOnEnd. */
  function CloseAll(s: State): State
    decreases |s.names|
  {
    if s.names == [] then s else CloseAll(CloseTop(s))
  }

  predicate HeadOnly(tag: string) {
    tag == "script" || tag == "style" || tag == "meta" || tag == "link" || tag == "title" || tag == "base"
  }

  predicate Frames(tag: string) {
    tag == "noframes" || tag == "frame" || tag == "frameset"
  }

  /** htmlCheckImplied, with implied tags enabled. */
  function CheckImplied(s: State, newtag: string): State {
    if newtag == "html" then s
    else
      var s1 := if s.names == [] then Open(s, "html") else s;
      if newtag == "body" || newtag == "head" then s1
      else if |s1.names| <= 1 && HeadOnly(newtag) then
        if s1.html >= 3 then s1 else Open(s1, "head").(impliedHeads := s1.impliedHeads + 1)
      else if !Frames(newtag) then
        if s1.html >= 10 || "body" in s1.names || "head" in s1.names then s1
        else Open(s1, "body").(impliedBodies := s1.impliedBodies + 1)
      else s1
  }

  function Count(names: seq<string>, x: string): nat {
    if names == [] then 0 else (if names[0] == x then 1 else 0) + Count(names[1..], x)
  }

  /** How many times htmlParseStartTag finds the tag misplaced: html above the bottom,
      head anywhere but at level 1, and once for every body already open. */
  function Misplaced(names: seq<string>, name: string): nat {
    (if names != [] && name == "html" then 1 else 0)
    + (if |names| != 1 && name == "head" then 1 else 0)
    + (if name == "body" then Count(names, "body") else 0)
  }

  function Prepare(t: Tables, s: State, name: string): State {
    CheckImplied(AutoClose(t, s, name), name)
  }

  /** The stack effect of htmlParseStartTag. */
  function StartTag(t: Tables, s: State, name: string): State {
    var s1 := Prepare(t, s, name);
    var m := Misplaced(s1.names, name);
    if m > 0 then s1.(depth := s1.depth + m) else Open(s1, name)
  }

  predicate Discards(t: Tables, s: State, name: string) {
    Misplaced(Prepare(t, s, name).names, name) > 0
  }

  /** htmlGetEndPriority. */
  function EndPriority(name: string): nat {
    if name == "div" then 150
    else if name == "td" || name == "th" then 160
    else if name == "tr" then 170
    else if name == "thead" || name == "tbody" || name == "tfoot" then 180
    else if name == "table" then 190
    else if name == "head" || name == "body" then 200
    else if name == "html" then 220
    else 100
  }

  /** The downward search of htmlAutoCloseOnClose: the topmost `name`, unless an
      element of higher priority comes first. */
  function Reach(names: seq<string>, name: string): Option<nat> {
    if names == [] then None
    else
      var top := |names| - 1;
      if names[top] == name then Some(top)
      else if EndPriority(names[top]) > EndPriority(name) then None
      else Reach(names[..top], name)
  }

  /** The closing loop of htmlAutoCloseOnClose. */
  function CloseDownTo(s: State, name: string): State
    decreases |s.names|
  {
    if s.names == [] || Top(s) == name then s else CloseDownTo(CloseTop(s), name)
  }

  predicate Structural(name: string) {
    name == "html" || name == "body" || name == "head"
  }

  /** The stack effect of htmlParseEndTag, and its result. */
  function EndTag(s: State, name: string): (State, bool) {
    if s.depth > 0 && Structural(name) then (s.(depth := s.depth - 1), false)
    else if name !in s.names then (s, false)
    else
      var s1 := if Reach(s.names, name).Some? then CloseDownTo(s, name) else s;
      if s1.names != [] && Top(s1) == name then (CloseTop(s1), true) else (s1, false)
  }

  /** htmlCheckParagraph. */
  function CheckParagraph(t: Tables, s: State): State {
    if s.names == [] || Top(s) == "html" || Top(s) == "head" then Open(Prepare(t, s, "p"), "p") else s
  }

  // --------------------------------------------------- what an end tag does, exactly

  /** The topmost `name` is at `i`, with nothing of higher priority above it. */
  ghost predicate Reachable(names: seq<string>, name: string, i: nat) {
    && i < |names| && names[i] == name
    && forall k | i < k < |names| :: names[k] != name && EndPriority(names[k]) <= EndPriority(name)
  }

  /** The element at `k` has a higher priority and lies above every `name`. */
  ghost predicate Blocks(names: seq<string>, name: string, k: nat) {
    && k < |names| && EndPriority(names[k]) > EndPriority(name)
    && forall j | k <= j < |names| :: names[j] != name
  }

  lemma {:induction false} ReachMeans(names: seq<string>, name: string)
    ensures match Reach(names, name)
            case Some(i) => Reachable(names, name, i)
            case None => name !in names || exists k: nat :: Blocks(names, name, k)
  {
    if names != [] {
      var top := |names| - 1;
      if names[top] != name && EndPriority(names[top]) <= EndPriority(name) {
        ReachMeans(names[..top], name);
        if Reach(names, name).None? && name in names {
          assert name in names[..top];
          var k: nat :| Blocks(names[..top], name, k);
          assert Blocks(names, name, k) by {
            assert names[k] == names[..top][k];
            assert forall j | k <= j < |names| :: j == top || names[j] == names[..top][j];
          }
        }
      } else if names[top] != name {
        assert Blocks(names, name, top);
      }
    }
  }

  /** End events for the elements from index `i` up, innermost first. */
  function Ends(names: seq<string>, i: nat): seq<Event>
    requires i <= |names|
  {
    if i == |names| then [] else [End(names[|names| - 1])] + Ends(names[..|names| - 1], i)
  }

  lemma {:induction false} CloseDownToCuts(s: State, name: string, i: nat)
    requires i < |s.names| && s.names[i] == name && forall k | i < k < |s.names| :: s.names[k] != name
    ensures CloseDownTo(s, name) == s.(names := s.names[..i + 1], events := s.events + Ends(s.names, i + 1))
    decreases |s.names|
  {
    if i + 1 == |s.names| {
      assert s.names[..i + 1] == s.names && s.events + [] == s.events;
    } else {
      var s1 := CloseTop(s);
      CloseDownToCuts(s1, name, i);
      assert s1.names[..i + 1] == s.names[..i + 1];
      Seqs.Assoc(s.events, [End(Top(s))], Ends(s1.names, i + 1));
    }
  }

  lemma {:induction false} EndsSplit(names: seq<string>, i: nat)
    requires i < |names|
    ensures Ends(names, i) == Ends(names, i + 1) + [End(names[i])]
  {
    if i + 1 == |names| {
      assert Ends(names, i + 1) == [] && names[..i] == names[..|names| - 1];
    } else {
      EndsSplit(names[..|names| - 1], i);
    }
  }

  /** A start tag closes a run of elements from the top, innermost first: each of them
      is one it closes, and the element left on top is not. */
  lemma {:induction false} AutoCloseCuts(t: Tables, s: State, newtag: string)
    ensures var r := AutoClose(t, s, newtag); var n := |r.names|;
      && n <= |s.names| && r == s.(names := s.names[..n], events := s.events + Ends(s.names, n))
      && (forall k | n <= k < |s.names| :: t.closes(newtag, s.names[k]))
      && (n > 0 ==> !t.closes(newtag, s.names[n - 1]))
    decreases |s.names|
  {
    if s.names != [] && t.closes(newtag, Top(s)) {
      var s1 := CloseTop(s);
      AutoCloseCuts(t, s1, newtag);
      var n := |AutoClose(t, s1, newtag).names|;
      assert s1.names[..n] == s.names[..n];
      Seqs.Assoc(s.events, [End(Top(s))], Ends(s1.names, n));
    } else {
      assert s.names[..|s.names|] == s.names && s.events + [] == s.events;
    }
  }

  /** The end tag is honoured: nothing discarded is waiting for it, it is open, and no
      element above its topmost occurrence has a higher priority. */
  predicate Honoured(s: State, name: string) {
    !(s.depth > 0 && Structural(name)) && Reach(s.names, name).Some?
  }

  /** For every stack and end tag: the stack is cut exactly below the topmost element
      of that name, with end events in reverse opening order, if and only if the tag
      is honoured; otherwise stack and events are untouched. */
  lemma EndTagCuts(s: State, name: string)
    ensures var (r, closed) := EndTag(s, name);
            && (closed <==> Honoured(s, name))
            && (closed ==>
                  var i := Reach(s.names, name).value;
                  && Reachable(s.names, name, i)
                  && r == s.(names := s.names[..i], events := s.events + Ends(s.names, i)))
            && (!closed ==> r == s.(depth := if s.depth > 0 && Structural(name) then s.depth - 1 else s.depth))
  {
    ReachMeans(s.names, name);
    if !(s.depth > 0 && Structural(name)) && name in s.names {
      match Reach(s.names, name)
      case Some(i) =>
        CloseDownToCuts(s, name, i);
        var s1 := CloseDownTo(s, name);
        assert s1.names[..i] == s.names[..i];
        EndsSplit(s.names, i);
        Seqs.Assoc(s.events, Ends(s.names, i + 1), [End(name)]);
      case None =>
    }
  }

  // ------------------------------------------------------------- shape of the stack

  /** html only at the bottom, head only right above it, at most one body. */
  ghost predicate Shape(names: seq<string>) {
    && (names != [] ==> names[0] == "html")
    && (forall i | 0 <= i < |names| :: names[i] == "html" ==> i == 0)
    && (forall i | 0 <= i < |names| :: names[i] == "head" ==> i == 1)
    && (forall i, j | 0 <= i < j < |names| :: !(names[i] == "body" && names[j] == "body"))
  }

  /** The flag remembers every head and body ever implied. */
  ghost predicate Remembers(s: State) {
    && s.impliedHeads <= 1 && s.impliedBodies <= 1
    && (s.impliedHeads == 1 ==> s.html >= 3)
    && (s.impliedBodies == 1 ==> s.html >= 10)
  }

  ghost predicate Inv(s: State) {
    Shape(s.names) && Remembers(s)
  }

  lemma ShapePrefix(names: seq<string>, n: nat)
    requires Shape(names) && n <= |names|
    ensures Shape(names[..n])
  {
  }

  lemma ShapeSnoc(names: seq<string>, v: string)
    requires Shape(names) && (names == [] <==> v == "html") && (v == "head" ==> |names| == 1)
    requires v == "body" ==> "body" !in names
    ensures Shape(names + [v])
  {
    var r := names + [v];
    forall i, j | 0 <= i < j < |r|
      ensures !(r[i] == "body" && r[j] == "body")
    {
      if j == |names| {
        assert r[i] in names;
      }
    }
  }

  lemma {:induction false} AutoCloseInv(t: Tables, s: State, newtag: string)
    requires TablesOK(t) && Inv(s)
    ensures var r := AutoClose(t, s, newtag);
            && Inv(r) && (r.names == [] <==> s.names == [])
            && ("body" in r.names <==> "body" in s.names)
            && r.depth == s.depth && r.html == s.html
            && r.impliedHeads == s.impliedHeads && r.impliedBodies == s.impliedBodies
    decreases |s.names|
  {
    if s.names != [] && t.closes(newtag, Top(s)) {
      ShapePrefix(s.names, |s.names| - 1);
      var s1 := CloseTop(s);
      assert s.names == s1.names + [Top(s)];
      assert |s.names| > 1;
      AutoCloseInv(t, s1, newtag);
    }
  }

  lemma CheckImpliedInv(s: State, newtag: string)
    requires Inv(s)
    ensures var r := CheckImplied(s, newtag);
            && Inv(r) && (newtag != "html" ==> r.names != [])
            && (newtag == "html" ==> r == s)
            && r.depth == s.depth && r.html >= s.html
  {
    if newtag != "html" {
      var s1 := if s.names == [] then Open(s, "html") else s;
      if s.names == [] {
        ShapeSnoc([], "html");
        assert [] + ["html"] == ["html"];
      }
      assert Inv(s1);
      var r := CheckImplied(s, newtag);
      if |r.names| > |s1.names| {
        ShapeSnoc(s1.names, r.names[|s1.names|]);
      }
    }
  }

  function Starts(names: seq<string>): seq<Event> {
    if names == [] then [] else [Start(names[0])] + Starts(names[1..])
  }

  /** What is implied in front of a tag is put on top of the stack, with its events:
      html exactly when the stack was empty, then at most one more. */
  lemma ImpliedOpens(s: State, newtag: string)
    ensures var r := CheckImplied(s, newtag); var n := |s.names|;
      && n <= |r.names| <= n + 2 && r.names[..n] == s.names
      && r.events == s.events + Starts(r.names[n..])
      && (newtag == "html" ==> r == s)
      && (newtag != "html" && n == 0 ==> |r.names| > 0 && r.names[0] == "html")
      && (n > 0 ==> |r.names| <= n + 1)
  {
    var r := CheckImplied(s, newtag);
    var n := |s.names|;
    if |r.names| == n {
      assert r.names[n..] == [] && s.events + [] == s.events;
    } else if |r.names| == n + 1 {
      assert r.names[n..] == [r.names[n]];
      StartsOfTwo(r.names[n], "");
    } else {
      assert r.names[n..] == ["html", r.names[n + 1]];
      StartsOfTwo("html", r.names[n + 1]);
      Seqs.Assoc(s.events, [Start("html")], [Start(r.names[n + 1])]);
    }
  }

  lemma StartsOfTwo(x: string, y: string)
    ensures Starts([x]) == [Start(x)] && Starts([x, y]) == [Start(x)] + [Start(y)]
  {
    assert [x][1..] == [] && [x, y][1..] == [y] && [y][1..] == [];
  }

  /** Which of head and body is implied: a head-only tag at most directly below html
      gets a head unless there was one; other content gets a body unless it is in a
      head or body or one was already seen; html, head, body and frame sets get
      neither. */
  lemma ImpliedParents(s: State, newtag: string)
    ensures var r := CheckImplied(s, newtag);
      var base := if s.names == [] && newtag != "html" then ["html"] else s.names;
      r.names ==
        if Structural(newtag) then base
        else if |base| == 1 && HeadOnly(newtag) then base + (if s.html < 3 then ["head"] else [])
        else if Frames(newtag) || s.html >= 10 || "body" in s.names || "head" in s.names then base
        else base + ["body"]
  {
    assert [] + ["html"] == ["html"];
  }

  lemma {:induction false} CountBody(names: seq<string>)
    ensures Count(names, "body") > 0 <==> "body" in names
    ensures (forall i, j | 0 <= i < j < |names| :: !(names[i] == "body" && names[j] == "body")) ==> Count(names, "body") <= 1
  {
    if names != [] {
      CountBody(names[1..]);
      if forall i, j | 0 <= i < j < |names| :: !(names[i] == "body" && names[j] == "body") {
        assert forall i, j | 0 <= i < j < |names[1..]| :: names[1..][i] == names[i + 1] && names[1..][j] == names[j + 1];
        if names[0] == "body" {
          assert forall j | 0 <= j < |names[1..]| :: names[1..][j] == names[j + 1];
        }
      }
    }
  }

  /** A start tag keeps the shape; a discarded one raises `depth` by exactly one. */
  lemma StartTagInv(t: Tables, s: State, name: string)
    requires TablesOK(t) && Inv(s)
    ensures Inv(StartTag(t, s, name)) && StartTag(t, s, name).html >= s.html
    ensures StartTag(t, s, name).names != []
    ensures StartTag(t, s, name).depth == s.depth + (if Discards(t, s, name) then 1 else 0)
    ensures !Discards(t, s, name) ==> Top(StartTag(t, s, name)) == name
  {
    AutoCloseInv(t, s, name);
    CheckImpliedInv(AutoClose(t, s, name), name);
    var s1 := Prepare(t, s, name);
    CountBody(s1.names);
    if !Discards(t, s, name) {
      ShapeSnoc(s1.names, name);
    }
  }

  lemma CheckParagraphInv(t: Tables, s: State)
    requires TablesOK(t) && Inv(s)
    ensures Inv(CheckParagraph(t, s)) && CheckParagraph(t, s).depth == s.depth && CheckParagraph(t, s).html >= s.html
  {
    AutoCloseInv(t, s, "p");
    CheckImpliedInv(AutoClose(t, s, "p"), "p");
    ShapeSnoc(Prepare(t, s, "p").names, "p");
  }

  lemma EndTagInv(s: State, name: string)
    requires Inv(s)
    ensures Inv(EndTag(s, name).0) && EndTag(s, name).0.html == s.html
  {
    EndTagCuts(s, name);
    var (r, closed) := EndTag(s, name);
    if closed {
      ShapePrefix(s.names, Reach(s.names, name).value);
    }
  }

  lemma {:induction false} CloseAllEmpties(s: State)
    ensures CloseAll(s) == s.(names := [], events := s.events + Ends(s.names, 0))
    decreases |s.names|
  {
    if s.names == [] {
      assert s.events + [] == s.events;
    } else {
      CloseAllEmpties(CloseTop(s));
      Seqs.Assoc(s.events, [End(Top(s))], Ends(CloseTop(s).names, 0));
    }
  }

  // ----------------------------------------------------------------------- runs

  /** How a start tag ends in the input: "/>", ">" or with its '>' missing. */
  datatype Ending = Slash | Angle | Missing

  datatype Op = Tag(name: string, ending: Ending) | Close(name: string) | Text | Finish

  /** htmlParseElement after the start tag: an empty element is closed at once; with the
      '>' missing the name is dropped without an end event.  As in the source it
      is the current element that is closed, even when the tag was discarded. */
  function AfterTag(t: Tables, s: State, ending: Ending): State {
    if s.names == [] then s
    else
      match ending
      case Slash => CloseTop(s)
      case Missing => Pop(s)
      case Angle => if t.empty(Top(s)) then CloseTop(s) else s
  }

  function Do(t: Tables, s: State, op: Op): State {
    match op
    case Tag(name, ending) => AfterTag(t, StartTag(t, s, name), ending)
    case Close(name) => EndTag(s, name).0
    case Text => CheckParagraph(t, s)
    case Finish => CloseAll(s)
  }

  function RunOps(t: Tables, s: State, ops: seq<Op>): State
    decreases |ops|
  {
    if ops == [] then s else RunOps(t, Do(t, s, ops[0]), ops[1..])
  }

  lemma AfterTagInv(t: Tables, s: State, ending: Ending)
    requires Inv(s)
    ensures Inv(AfterTag(t, s, ending)) && AfterTag(t, s, ending).html == s.html
  {
    if s.names != [] {
      ShapePrefix(s.names, |s.names| - 1);
    }
  }

  lemma CloseAllInv(s: State)
    requires Inv(s)
    ensures Inv(CloseAll(s)) && CloseAll(s).html == s.html
  {
    CloseAllEmpties(s);
  }

  lemma DoInv(t: Tables, s: State, op: Op)
    requires TablesOK(t) && Inv(s)
    ensures Inv(Do(t, s, op)) && Do(t, s, op).html >= s.html
  {
    match op
    case Tag(name, ending) =>
      StartTagInv(t, s, name);
      AfterTagInv(t, StartTag(t, s, name), ending);
    case Close(name) =>
      EndTagInv(s, name);
    case Text =>
      CheckParagraphInv(t, s);
    case Finish =>
      CloseAllInv(s);
  }

  /** In every reachable state: a non-empty stack starts with html, html is only at
      the bottom, head only at level 1, body open at most once, and at most one
      head and one body were ever implied. */
  lemma {:induction false} RunInv(t: Tables, s: State, ops: seq<Op>)
    requires TablesOK(t) && Inv(s)
    ensures Inv(RunOps(t, s, ops)) && RunOps(t, s, ops).html >= s.html
    decreases |ops|
  {
    if ops != [] {
      DoInv(t, s, ops[0]);
      RunInv(t, Do(t, s, ops[0]), ops[1..]);
    }
  }

  lemma ReachableShape(t: Tables, ops: seq<Op>)
    requires TablesOK(t)
    ensures Inv(RunOps(t, INITIAL, ops))
  {
    RunInv(t, INITIAL, ops);
  }

  // ------------------------------------------------------------ balanced events

  /** Replays events on a stack; `None` when an end does not match the top. */
  function Replay(stack: seq<string>, es: seq<Event>): Option<seq<string>>
    decreases |es|
  {
    if es == [] then Some(stack)
    else
      match es[0]
      case Start(n) => Replay(stack + [n], es[1..])
      case End(n) =>
        if stack != [] && stack[|stack| - 1] == n then Replay(stack[..|stack| - 1], es[1..]) else None
  }

  lemma {:induction false} ReplayConcat(stack: seq<string>, a: seq<Event>, b: seq<Event>)
    ensures Replay(stack, a + b) == match Replay(stack, a) case None => None case Some(r) => Replay(r, b)
    decreases |a|
  {
    if a == [] {
      assert a + b == b;
    } else {
      assert (a + b)[1..] == a[1..] + b;
      match a[0]
      case Start(n) =>
        ReplayConcat(stack + [n], a[1..], b);
      case End(n) =>
        if stack != [] && stack[|stack| - 1] == n {
          ReplayConcat(stack[..|stack| - 1], a[1..], b);
        }
    }
  }

  /** The events so far open exactly the elements on the stack, properly nested. */
  ghost predicate Balanced(s: State) {
    Replay([], s.events) == Some(s.names)
  }

  lemma OpenBalanced(s: State, v: string)
    requires Balanced(s)
    ensures Balanced(Open(s, v))
  {
    ReplayConcat([], s.events, [Start(v)]);
    assert [Start(v)][1..] == [];
  }

  lemma CloseTopBalanced(s: State)
    requires Balanced(s) && s.names != []
    ensures Balanced(CloseTop(s))
  {
    ReplayConcat([], s.events, [End(Top(s))]);
    assert [End(Top(s))][1..] == [];
  }

  lemma {:induction false} AutoCloseBalanced(t: Tables, s: State, newtag: string)
    requires Balanced(s)
    ensures Balanced(AutoClose(t, s, newtag))
    decreases |s.names|
  {
    if s.names != [] && t.closes(newtag, Top(s)) {
      CloseTopBalanced(s);
      AutoCloseBalanced(t, CloseTop(s), newtag);
    }
  }

  lemma {:induction false} CloseDownToBalanced(s: State, name: string)
    requires Balanced(s)
    ensures Balanced(CloseDownTo(s, name))
    decreases |s.names|
  {
    if s.names != [] && Top(s) != name {
      CloseTopBalanced(s);
      CloseDownToBalanced(CloseTop(s), name);
    }
  }

  lemma {:induction false} CloseAllBalanced(s: State)
    requires Balanced(s)
    ensures Balanced(CloseAll(s))
    decreases |s.names|
  {
    if s.names != [] {
      CloseTopBalanced(s);
      CloseAllBalanced(CloseTop(s));
    }
  }

  lemma CheckImpliedBalanced(s: State, newtag: string)
    requires Balanced(s)
    ensures Balanced(CheckImplied(s, newtag))
  {
    OpenBalanced(s, "html");
    var s1 := if s.names == [] then Open(s, "html") else s;
    OpenBalanced(s1, "head");
    OpenBalanced(s1, "body");
  }

  lemma DoBalanced(t: Tables, s: State, op: Op)
    requires Balanced(s) && !(op.Tag? && op.ending.Missing?)
    ensures Balanced(Do(t, s, op))
  {
    match op
    case Tag(name, ending) =>
      AutoCloseBalanced(t, s, name);
      CheckImpliedBalanced(AutoClose(t, s, name), name);
      OpenBalanced(Prepare(t, s, name), name);
      var s1 := StartTag(t, s, name);
      if s1.names != [] {
        CloseTopBalanced(s1);
      }
    case Close(name) =>
      CloseDownToBalanced(s, name);
      var s1 := if Reach(s.names, name).Some? then CloseDownTo(s, name) else s;
      if s1.names != [] {
        CloseTopBalanced(s1);
      }
    case Text =>
      AutoCloseBalanced(t, s, "p");
      CheckImpliedBalanced(AutoClose(t, s, "p"), "p");
      OpenBalanced(Prepare(t, s, "p"), "p");
    case Finish =>
      CloseAllBalanced(s);
  }

  /** As long as no start tag lacks its '>', every run produces properly nested start
      and end events, and what they leave open is the stack. */
  lemma {:induction false} RunBalanced(t: Tables, s: State, ops: seq<Op>)
    requires Balanced(s) && forall op | op in ops :: !(op.Tag? && op.ending.Missing?)
    ensures Balanced(RunOps(t, s, ops))
    decreases |ops|
  {
    if ops != [] {
      assert ops[0] in ops;
      DoBalanced(t, s, ops[0]);
      RunBalanced(t, Do(t, s, ops[0]), ops[1..]);
    }
  }

  /** A missing '>' does break the balance: the element is dropped without an end event. */
  lemma MissingUnbalances(t: Tables)
    ensures Balanced(INITIAL)
    ensures var s := Do(t, INITIAL, Tag("html", Missing));
            !Balanced(s) && s.names == [] && s.events == [Start("html")]
  {
    var s := Do(t, INITIAL, Tag("html", Missing));
    assert s.events == [Start("html")] && s.events[1..] == [];
    assert Replay([], s.events) == Replay([] + ["html"], []);
  }

  // ------------------------------------------ exactly when the events are balanced

  /** Start events minus end events. */
  function Balance(es: seq<Event>): int
    decreases |es|
  {
    if es == [] then 0 else (if es[0].Start? then 1 else -1) + Balance(es[1..])
  }

  lemma {:induction false} BalanceConcat(a: seq<Event>, b: seq<Event>)
    ensures Balance(a + b) == Balance(a) + Balance(b)
    decreases |a|
  {
    if a == [] {
      assert a + b == b;
    } else {
      assert (a + b)[1..] == a[1..] + b;
      BalanceConcat(a[1..], b);
    }
  }

  lemma {:induction false} BalanceEnds(names: seq<string>, i: nat)
    requires i <= |names|
    ensures Balance(Ends(names, i)) == i - |names|
  {
    if i < |names| {
      BalanceEnds(names[..|names| - 1], i);
      assert Ends(names, i)[1..] == Ends(names[..|names| - 1], i);
    }
  }

  lemma {:induction false} BalanceStarts(names: seq<string>)
    ensures Balance(Starts(names)) == |names|
  {
    if names != [] {
      BalanceStarts(names[1..]);
      assert Starts(names)[1..] == Starts(names[1..]);
    }
  }

  /** Elements that were opened, never closed, and are no longer on the stack. */
  function Lost(s: State): int {
    Balance(s.events) - |s.names|
  }

  /** Cutting the stack with its end events loses nothing. */
  lemma CutLost(s: State, r: State, i: nat)
    requires i <= |s.names| && r.names == s.names[..i] && r.events == s.events + Ends(s.names, i)
    ensures Lost(r) == Lost(s)
  {
    BalanceConcat(s.events, Ends(s.names, i));
    BalanceEnds(s.names, i);
  }

  lemma OpenLost(s: State, r: State, more: seq<string>)
    requires r.names == s.names + more && r.events == s.events + Starts(more)
    ensures Lost(r) == Lost(s)
  {
    BalanceConcat(s.events, Starts(more));
    BalanceStarts(more);
  }

  lemma PrepareLost(t: Tables, s: State, name: string)
    ensures Lost(Prepare(t, s, name)) == Lost(s)
  {
    var s1 := AutoClose(t, s, name);
    AutoCloseCuts(t, s, name);
    CutLost(s, s1, |s1.names|);
    var r := CheckImplied(s1, name);
    ImpliedOpens(s1, name);
    assert r.names == s1.names + r.names[|s1.names|..];
    OpenLost(s1, r, r.names[|s1.names|..]);
  }

  lemma OpenOneLost(s: State, v: string)
    ensures Lost(Open(s, v)) == Lost(s)
  {
    StartsOfTwo(v, "");
    OpenLost(s, Open(s, v), [v]);
  }

  lemma CloseTopLost(s: State)
    requires s.names != []
    ensures Lost(CloseTop(s)) == Lost(s)
  {
    var n := |s.names| - 1;
    assert Ends(s.names, n) == [End(Top(s))] + [];
    CutLost(s, CloseTop(s), n);
  }

  predicate LacksAngle(op: Op) {
    op.Tag? && op.ending.Missing?
  }

  /** A start tag without its '>' loses exactly one element, nothing else loses any. */
  lemma DoLost(t: Tables, s: State, op: Op)
    requires TablesOK(t) && Inv(s)
    ensures Lost(Do(t, s, op)) == Lost(s) + (if LacksAngle(op) then 1 else 0)
  {
    match op
    case Tag(name, ending) =>
      PrepareLost(t, s, name);
      OpenOneLost(Prepare(t, s, name), name);
      StartTagInv(t, s, name);
      CloseTopLost(StartTag(t, s, name));
    case Close(name) =>
      EndTagCuts(s, name);
      if EndTag(s, name).1 {
        CutLost(s, EndTag(s, name).0, Reach(s.names, name).value);
      }
    case Text =>
      PrepareLost(t, s, "p");
      OpenOneLost(Prepare(t, s, "p"), "p");
    case Finish =>
      CloseAllEmpties(s);
      CutLost(s, CloseAll(s), 0);
  }

  function LackingAngle(ops: seq<Op>): nat {
    if ops == [] then 0 else (if LacksAngle(ops[0]) then 1 else 0) + LackingAngle(ops[1..])
  }

  /** Over every run: as many start events stay without an end event as there were
      start tags without their '>', beyond the elements still open. */
  lemma {:induction false} RunLost(t: Tables, s: State, ops: seq<Op>)
    requires TablesOK(t) && Inv(s)
    ensures Lost(RunOps(t, s, ops)) == Lost(s) + LackingAngle(ops)
    decreases |ops|
  {
    if ops != [] {
      DoInv(t, s, ops[0]);
      DoLost(t, s, ops[0]);
      RunLost(t, Do(t, s, ops[0]), ops[1..]);
    }
  }

  lemma {:induction false} ReplayBalance(stack: seq<string>, es: seq<Event>)
    ensures Replay(stack, es).Some? ==> |Replay(stack, es).value| == |stack| + Balance(es)
    decreases |es|
  {
    if es != [] {
      match es[0]
      case Start(n) =>
        ReplayBalance(stack + [n], es[1..]);
      case End(n) =>
        if stack != [] && stack[|stack| - 1] == n {
          ReplayBalance(stack[..|stack| - 1], es[1..]);
        }
    }
  }

  lemma {:induction false} NoneLacking(ops: seq<Op>)
    ensures LackingAngle(ops) == 0 <==> forall op | op in ops :: !LacksAngle(op)
  {
    if ops != [] {
      NoneLacking(ops[1..]);
      assert ops[0] in ops;
      assert forall op | op in ops :: op == ops[0] || op in ops[1..];
      assert forall op | op in ops[1..] :: op in ops;
    }
  }

  /** Exactly when the events of a run nest properly and leave open what is on the stack:
      when no start tag lacked its '>'. */
  lemma BalancedIff(t: Tables, ops: seq<Op>)
    requires TablesOK(t)
    ensures Balanced(RunOps(t, INITIAL, ops)) <==> forall op | op in ops :: !LacksAngle(op)
  {
    var r := RunOps(t, INITIAL, ops);
    NoneLacking(ops);
    if forall op | op in ops :: !LacksAngle(op) {
      RunBalanced(t, INITIAL, ops);
    } else {
      RunLost(t, INITIAL, ops);
      ReplayBalance([], r.events);
    }
  }

  // ------------------------------------------------------------- one element, whole

  /** What one start tag does, by how it ends.  Where it is not discarded: "/>", or a
      name that the table calls empty, opens and closes the element at once; any other
      '>' leaves it on top; a missing '>' opens it and drops its name. */
  lemma TagOpens(t: Tables, s: State, name: string, ending: Ending)
    requires !Discards(t, s, name)
    ensures var p, r := Prepare(t, s, name), Do(t, s, Tag(name, ending));
      && r.depth == s.depth
      && (ending.Slash? || (ending.Angle? && t.empty(name)) ==>
            r.names == p.names && r.events == p.events + [Start(name), End(name)])
      && (ending.Angle? && !t.empty(name) ==> r.names == p.names + [name] && r.events == p.events + [Start(name)])
      && (ending.Missing? ==> r.names == p.names && r.events == p.events + [Start(name)])
  {
    var p, after := Prepare(t, s, name), StartTag(t, s, name);
    PrepareDepth(t, s, name);
    assert after.names[..|after.names| - 1] == p.names;
    assert p.events + [Start(name)] + [End(name)] == p.events + [Start(name), End(name)];
  }

  /** A discarded tag has no element of its own: what its ending closes or drops is the
      element that was current. */
  lemma TagDiscarded(t: Tables, s: State, name: string, ending: Ending)
    requires Discards(t, s, name)
    ensures Prepare(t, s, name).names != []
    ensures var p, r := Prepare(t, s, name), Do(t, s, Tag(name, ending)); var rest := p.names[..|p.names| - 1];
      && r.depth == s.depth + Misplaced(p.names, name)
      && (ending.Slash? || (ending.Angle? && t.empty(Top(p))) ==> r.names == rest && r.events == p.events + [End(Top(p))])
      && (ending.Angle? && !t.empty(Top(p)) ==> r.names == p.names && r.events == p.events)
      && (ending.Missing? ==> r.names == rest && r.events == p.events)
  {
    PrepareDepth(t, s, name);
  }

  lemma PrepareDepth(t: Tables, s: State, name: string)
    ensures Prepare(t, s, name).depth == s.depth
  {
    AutoCloseDepth(t, s, name);
  }

  lemma {:induction false} AutoCloseDepth(t: Tables, s: State, newtag: string)
    ensures AutoClose(t, s, newtag).depth == s.depth
    decreases |s.names|
  {
    if s.names != [] && t.closes(newtag, Top(s)) {
      AutoCloseDepth(t, CloseTop(s), newtag);
    }
  }

  // ------------------------------------------------------------- empty elements

  /** The elements the parser opens by itself can have content. */
  ghost predicate EmptyOK(t: Tables) {
    !t.empty("html") && !t.empty("head") && !t.empty("body") && !t.empty("p")
  }

  ghost predicate NoneEmpty(t: Tables, names: seq<string>) {
    forall i | 0 <= i < |names| :: !t.empty(names[i])
  }

  lemma PrepareNoneEmpty(t: Tables, s: State, name: string)
    requires EmptyOK(t) && NoneEmpty(t, s.names)
    ensures NoneEmpty(t, Prepare(t, s, name).names)
  {
    AutoCloseCuts(t, s, name);
  }

  lemma DoNoneEmpty(t: Tables, s: State, op: Op)
    requires EmptyOK(t) && NoneEmpty(t, s.names)
    ensures NoneEmpty(t, Do(t, s, op).names)
  {
    match op
    case Tag(name, ending) =>
      PrepareNoneEmpty(t, s, name);
      TagNoneEmpty(t, s, name, ending);
    case Close(name) =>
      EndTagCuts(s, name);
    case Text =>
      PrepareNoneEmpty(t, s, "p");
    case Finish =>
      CloseAllEmpties(s);
  }

  lemma TagNoneEmpty(t: Tables, s: State, name: string, ending: Ending)
    requires NoneEmpty(t, Prepare(t, s, name).names)
    ensures NoneEmpty(t, Do(t, s, Tag(name, ending)).names)
  {
    var p := Prepare(t, s, name);
    if !Discards(t, s, name) {
      TagOpens(t, s, name, ending);
    } else {
      TagDiscarded(t, s, name, ending);
    }
  }

  /** Over every run: between operations no element that is empty by definition is ever on
      the stack. */
  lemma {:induction false} EmptyNeverOpen(t: Tables, s: State, ops: seq<Op>)
    requires EmptyOK(t) && NoneEmpty(t, s.names)
    ensures NoneEmpty(t, RunOps(t, s, ops).names)
    decreases |ops|
  {
    if ops != [] {
      DoNoneEmpty(t, s, ops[0]);
      EmptyNeverOpen(t, Do(t, s, ops[0]), ops[1..]);
    }
  }

  // ---------------------------------------------------------------- text and the start

  /** Text is never put right below html or head, or at the top: a paragraph is opened
      there, after the tags it implies, and nowhere else. */
  lemma TextHasHome(t: Tables, s: State)
    ensures var r := Do(t, s, Text);
      && r.names != [] && Top(r) != "html" && Top(r) != "head"
      && (s.names != [] && Top(s) != "html" && Top(s) != "head" ==> r == s)
      && (s.names == [] || Top(s) == "html" || Top(s) == "head" ==>
            var p := Prepare(t, s, "p"); r.names == p.names + ["p"] && r.events == p.events + [Start("p")])
  {
  }

  /** At the start nothing is open and no discarded tag waits for its end tag. */
  lemma NothingOpenYet(t: Tables, name: string)
    ensures Do(t, INITIAL, Close(name)) == INITIAL && Do(t, INITIAL, Finish) == INITIAL && INITIAL.events == []
  {
  }

  // ------------------------------------------------------------ the fixed tables

  /** The priorities of end tags, as the source lists them. */
  lemma PriorityTable(name: string)
    ensures EndPriority("div") == 150 && EndPriority("td") == 160 && EndPriority("th") == 160
    ensures EndPriority("tr") == 170 && EndPriority("thead") == 180 && EndPriority("tbody") == 180
    ensures EndPriority("tfoot") == 180 && EndPriority("table") == 190
    ensures EndPriority("head") == 200 && EndPriority("body") == 200 && EndPriority("html") == 220
    ensures EndPriority(name) == 100
            || name in {"div", "td", "th", "tr", "thead", "tbody", "tfoot", "table", "head", "body", "html"}
  {
  }

  /** What is implied on an empty stack, tag by tag. */
  lemma ImpliedTable(name: string)
    ensures var r := CheckImplied(INITIAL, name).names;
      if name == "html" then r == []
      else if name in {"head", "body", "noframes", "frame", "frameset"} then r == ["html"]
      else if name in {"script", "style", "meta", "link", "title", "base"} then r == ["html", "head"]
      else r == ["html", "body"]
  {
  }
}
