/** The tree builder as the source has it: a context whose fields the callbacks
    update, and text nodes that own a buffer which is written in place. */
module SaxBuilder {

  import opened Bytes
  import opened Optional
  import opened SaxText
  import SaxLaws

  /** What a text node's content pointer points to. */
  datatype Cell = InNode(chars: Str) | InDict(chars: Str) | Own(bytes: array<Byte>)

  datatype Item =
    | Parent(tag: string, kids: seq<nat>)
    | Run(cell: Cell)
    | Named(chars: Str)
    | Section(chars: Str)
    | Remark(chars: Str)

  predicate HasBuffer(n: Item) {
    n.Run? && n.cell.Own?
  }

  ghost function Owned(items: seq<Item>): set<array<Byte>> {
    set i | 0 <= i < |items| && HasBuffer(items[i]) :: items[i].cell.bytes
  }

  function Stored(c: Cell): Storage
    reads if c.Own? then {c.bytes} else {}
  {
    match c
    case InNode(text) => Inline(text)
    case InDict(text) => Interned(text)
    case Own(bytes) => Buffer(bytes[..])
  }

  function Shown(n: Item): Node
    reads if HasBuffer(n) then {n.cell.bytes} else {}
  {
    match n
    case Parent(tag, kids) => Branch(tag, kids)
    case Run(cell) => Text(Stored(cell))
    case Named(text) => Fixed(text)
    case Section(text) => CData(text)
    case Remark(text) => Comment(text)
  }

  ghost function ShownAll(items: seq<Item>): (r: seq<Node>)
    reads Owned(items)
    ensures |r| == |items|
    ensures forall i | 0 <= i < |items| :: r[i] == Shown(items[i])
  {
    seq(|items|, i requires 0 <= i < |items| reads Owned(items) => Shown(items[i]))
  }

  /** No two text nodes share a buffer. */
  ghost predicate Unshared(items: seq<Item>) {
    forall i, j | 0 <= i < j < |items| && HasBuffer(items[i]) && HasBuffer(items[j]) ::
      items[i].cell.bytes != items[j].cell.bytes
  }

  /** xmlStrndup. */
  method Duplicate(text: Str) returns (bytes: array<Byte>)
    ensures fresh(bytes) && bytes[..] == text + [0]
  {
    bytes := new Byte[|text| + 1](i requires 0 <= i <= |text| => if i < |text| then text[i] else 0);
  }

  /** realloc. */
  method Reallocate(bytes: array<Byte>, size: nat, junk: Byte) returns (r: array<Byte>)
    ensures fresh(r) && r[..] == Resize(bytes[..], size, junk)
  {
    ghost var was := bytes[..];
    r := new Byte[size](_ => junk);
    var i := 0;
    while i < size && i < bytes.Length
      invariant 0 <= i <= size && i <= bytes.Length
      invariant forall j | 0 <= j < i :: r[j] == was[j]
      invariant forall j | i <= j < size :: r[j] == junk
      invariant bytes[..] == was
    {
      r[i] := bytes[i];
      i := i + 1;
    }
    assert r[..] == Resize(was, size, junk);
  }

  /** memcpy and the terminator. */
  method CopyInto(bytes: array<Byte>, at: nat, text: Str)
    requires at + |text| < bytes.Length
    modifies bytes
    ensures bytes[..] == Splice(old(bytes[..]), at, text)
  {
    ghost var was := bytes[..];
    var i := 0;
    while i < |text|
      invariant 0 <= i <= |text|
      invariant forall j | 0 <= j < bytes.Length :: bytes[j] == if at <= j < at + i then text[j - at] else was[j]
    {
      bytes[at + i] := text[i];
      i := i + 1;
    }
    bytes[at + |text|] := 0;
    assert bytes[..] == Splice(was, at, text);
  }

  /** xmlSAX2TextNode: where a new text node puts its characters. */
  method NewCell(text: Str, h: Hints) returns (cell: Cell)
    ensures cell.Own? ==> fresh(cell.bytes)
    ensures Stored(cell) == NewStorage(h, text)
  {
    if h.dictNames {
      var tagNext := h.next == 60 && h.after != 33;
      if |text| < 16 && h.compact {
        return InNode(text);
      } else if |text| <= 3 && (h.next == 34 || h.next == 39 || tagNext) {
        return InDict(text);
      } else if text != [] && IsBlank(text[0]) && |text| < 60 && tagNext {
        var i := 1;
        while i < |text| && IsBlank(text[i])
          invariant 1 <= i <= |text|
          invariant forall j | 0 <= j < i :: IsBlank(text[j])
        {
          i := i + 1;
        }
        if i == |text| {
          return InDict(text);
        }
      }
    }
    var bytes := Duplicate(text);
    cell := Own(bytes);
  }

  /** A text node gets another place for its characters. */
  lemma SetShown(items: seq<Item>, k: nat, cell: Cell)
    requires k < |items| && items[k].Run? && Unshared(items)
    requires cell.Own? ==> cell.bytes !in Owned(items)
    ensures var after := items[k := Run(cell)];
      && ShownAll(after) == ShownAll(items)[k := Text(Stored(cell))]
      && Unshared(after)
      && Owned(after) <= Owned(items) + (if cell.Own? then {cell.bytes} else {})
  {
    var after := items[k := Run(cell)];
    assert after[k] == Run(cell);
    assert forall i | 0 <= i < |items| && i != k :: after[i] == items[i];
  }

  /** A CDATA section gets other characters. */
  lemma SectionShown(items: seq<Item>, k: nat, text: Str)
    requires k < |items| && items[k].Section? && Unshared(items)
    ensures var after := items[k := Section(text)];
      && ShownAll(after) == ShownAll(items)[k := CData(text)]
      && Unshared(after) && Owned(after) <= Owned(items)
  {
    var after := items[k := Section(text)];
    assert after[k] == Section(text);
    assert forall i | 0 <= i < |items| && i != k :: after[i] == items[i];
  }

  lemma AddShown(items: seq<Item>, p: nat, n: Item)
    requires p < |items| && items[p].Parent? && Unshared(items)
    requires HasBuffer(n) ==> n.cell.bytes !in Owned(items)
    ensures var kids := items[p].kids + [|items|];
      var after := items[p := items[p].(kids := kids)] + [n];
      && ShownAll(after) == ShownAll(items)[p := ShownAll(items)[p].(children := kids)] + [Shown(n)]
      && Unshared(after)
      && Owned(after) == Owned(items) + (if HasBuffer(n) then {n.cell.bytes} else {})
  {
    var after := items[p := items[p].(kids := items[p].kids + [|items|])] + [n];
    assert forall i | 0 <= i < |items| && i != p :: after[i] == items[i];
    assert after[|items|] == n;
    forall b | b in Owned(items) ensures b in Owned(after) {
      var i :| 0 <= i < |items| && HasBuffer(items[i]) && items[i].cell.bytes == b;
      assert HasBuffer(after[i]);
    }
  }

  class Builder {
    var items: seq<Item>
    var stack: seq<nat>
    var nodelen: int
    var nodemem: int

    ghost function View(): Ctx
      reads this, Owned(items)
    {
      Ctx(ShownAll(items), stack, nodelen, nodemem)
    }

    ghost predicate Valid()
      reads this, Owned(items)
    {
      Unshared(items) && SaxLaws.Inv(View())
    }

    constructor ()
      ensures Valid() && View() == EMPTY && Owned(items) == {}
    {
      items := [Parent("", [])];
      stack := [0];
      nodelen := 0;
      nodemem := 0;
      new;
      SaxLaws.EmptyInv();
      assert View().nodes == EMPTY.nodes;
    }

    /** The last child of the current node, if there is one. */
    method LastChild() returns (k: Option<nat>)
      requires Wired(View())
      ensures k == if Kids(View()) == [] then None else Some(Last(Kids(View())))
      ensures k.Some? ==> k.value < |items|
    {
      var kids := items[stack[|stack| - 1]].kids;
      k := if kids == [] then None else Some(kids[|kids| - 1]);
    }

    /** The last child, when text can be joined to it. */
    method TextChild() returns (k: Option<nat>)
      requires Wired(View())
      ensures k == Coalescable(View())
      ensures k.Some? ==> k.value < |items| && items[k.value].Run? && View().nodes[k.value] == Text(Stored(items[k.value].cell))
    {
      k := None;
      if |stack| > 1 {
        k := LastChild();
        if k.Some? && !items[k.value].Run? {
          k := None;
        }
      }
    }

    /** xmlAddChild for a node that cannot be joined to the last child. */
    method AddItem(n: Item)
      requires Wired(View()) && Unshared(items)
      requires HasBuffer(n) ==> n.cell.bytes !in Owned(items)
      modifies this`items
      ensures View() == AddChild(old(View()), Shown(n))
      ensures Unshared(items) && |items| == |old(items)| + 1 && Last(items) == n
      ensures Owned(items) == old(Owned(items)) + (if HasBuffer(n) then {n.cell.bytes} else {})
    {
      var p := stack[|stack| - 1];
      var k := |items|;
      AddShown(items, p, n);
      items := items[p := items[p].(kids := items[p].kids + [k])] + [n];
    }

    /** Points a text node at other characters. */
    method SetCell(k: nat, cell: Cell)
      requires Unshared(items) && k < |items| && items[k].Run?
      requires cell.Own? ==> cell.bytes !in Owned(items)
      modifies this`items
      ensures items == old(items)[k := Run(cell)] && Unshared(items)
      ensures View() == SetText(old(View()), k, Stored(cell))
      ensures Owned(items) <= old(Owned(items)) + (if cell.Own? then {cell.bytes} else {})
    {
      SetShown(items, k, cell);
      items := items[k := Run(cell)];
    }

    /** Copies characters that are not the node's own into a buffer that is. */
    method MakeWritable(k: nat)
      requires Unshared(items) && k < |items| && items[k].Run?
      modifies this`items
      ensures Unshared(items) && k < |items| && items[k].Run?
      ensures View() == SetText(old(View()), k, Writable(old(Stored(items[k].cell)), nodelen, nodemem))
      ensures fresh(Owned(items) - old(Owned(items)))
    {
      var cell := items[k].cell;
      if cell.InNode? || (nodemem == nodelen + 1 && cell.InDict?) {
        var bytes := Duplicate(cell.chars);
        SetCell(k, Own(bytes));
      } else {
        assert View().nodes[k := View().nodes[k]] == View().nodes;
      }
    }

    /** Makes room for `more` bytes after the text when the buffer is too small. */
    method Reserve(k: nat, more: nat, junk: Byte)
      requires Unshared(items) && k < |items| && HasBuffer(items[k])
      requires SafeAppend(Stored(items[k].cell), nodelen, nodemem)
      modifies this`items, this`nodemem
      ensures Unshared(items) && k < |items| && HasBuffer(items[k])
      ensures var grow := nodelen + more >= old(nodemem);
        && nodemem == (if grow then (old(nodemem) + more) * 2 else old(nodemem))
        && Stored(items[k].cell) == (if grow then Buffer(Resize(old(Stored(items[k].cell)).buf, nodemem, junk)) else old(Stored(items[k].cell)))
      ensures View() == SetText(old(View()), k, Stored(items[k].cell)).(nodemem := nodemem)
      ensures fresh(Owned(items) - old(Owned(items)))
    {
      if nodelen + more >= nodemem {
        var size := (nodemem + more) * 2;
        var bytes := Reallocate(items[k].cell.bytes, size, junk);
        SetCell(k, Own(bytes));
        nodemem := size;
      } else {
        assert View().nodes[k := View().nodes[k]] == View().nodes;
      }
    }

    /** Writes `text` and a terminator after the `nodelen` characters of the buffer. */
    method Write(k: nat, text: Str)
      requires Unshared(items) && k < |items| && HasBuffer(items[k])
      requires 0 <= nodelen && nodelen + |text| < items[k].cell.bytes.Length
      modifies this`nodelen, items[k].cell.bytes
      ensures View() == SetText(old(View()), k, Buffer(Splice(old(Stored(items[k].cell)).buf, old(nodelen), text))).(nodelen := old(nodelen) + |text|)
    {
      ghost var was := ShownAll(items);
      CopyInto(items[k].cell.bytes, nodelen, text);
      nodelen := nodelen + |text|;
      assert ShownAll(items) == was[k := Shown(items[k])] by {
        forall i | 0 <= i < |items| && i != k ensures Shown(items[i]) == was[i] {
          assert was[i] == old(Shown(items[i]));
          assert HasBuffer(items[i]) ==> items[i].cell.bytes != items[k].cell.bytes;
        }
      }
    }

    /** Appends to the buffer in place. */
    method Extend(k: nat, text: Str, junk: Byte)
      requires Unshared(items) && k < |items| && HasBuffer(items[k])
      requires SafeAppend(Stored(items[k].cell), nodelen, nodemem)
      modifies this, Owned(items)
      ensures Unshared(items) && fresh(Owned(items) - old(Owned(items)))
      ensures var all := Appended(old(Stored(items[k].cell)), old(nodelen), old(nodemem), text, junk);
        View() == SetText(old(View()), k, all.0).(nodelen := old(nodelen) + |text|, nodemem := all.1)
    {
      Reserve(k, |text|, junk);
      Write(k, text);
    }

    /** The append path of xmlSAX2Characters. */
    method Accelerate(k: nat, text: Str, junk: Byte)
      requires Unshared(items) && k < |items| && items[k].Run?
      requires SafeAppend(Writable(Stored(items[k].cell), nodelen, nodemem), nodelen, nodemem)
      modifies this, Owned(items)
      ensures Unshared(items) && fresh(Owned(items) - old(Owned(items)))
      ensures View() == SaxText.Append(old(View()), k, text, junk)
    {
      MakeWritable(k);
      if nodelen + |text| > MAX_TEXT_LENGTH {
        return;
      }
      if nodelen > SIZE_MAX - |text| || nodemem + |text| > SIZE_MAX / 2 {
        return;
      }
      Extend(k, text, junk);
    }

    /** xmlTextConcat: a new buffer of exactly the joined length, which is then measured. */
    method Concatenate(k: nat, text: Str)
      requires Unshared(items) && k < |items| && items[k].Run?
      modifies this
      ensures Unshared(items) && fresh(Owned(items) - old(Owned(items)))
      ensures View() == SaxText.Concat(old(View()), k, text)
    {
      var cell := items[k].cell;
      var before := if cell.Own? then CString(cell.bytes[..]) else cell.chars;
      var bytes := Duplicate(before + text);
      SetCell(k, Own(bytes));
      nodelen := |before + text|;
      nodemem := nodelen + 1;
    }

    /** xmlSAX2StartElementNs. */
    method StartElement(name: string)
      requires Valid()
      modifies this
      ensures Valid() && View() == SaxText.StartElement(old(View()), name)
      ensures Owned(items) == old(Owned(items))
    {
      ghost var was := View();
      SaxLaws.StepRefines(was, SaxLaws.Start(name));
      var k := |items|;
      AddItem(Parent(name, []));
      stack := stack + [k];
      nodemem := -1;
      assert View() == SaxLaws.Do(was, SaxLaws.Start(name));
    }

    /** xmlSAX2EndElementNs. */
    method EndElement()
      requires Valid()
      modifies this`stack, this`nodemem
      ensures Valid() && View() == SaxText.EndElement(old(View()))
    {
      ghost var was := View();
      SaxLaws.StepRefines(was, SaxLaws.End);
      nodemem := -1;
      if |stack| > 1 {
        stack := stack[..|stack| - 1];
      }
      assert View() == SaxLaws.Do(was, SaxLaws.End);
    }

    /** xmlSAX2Comment. */
    method AddComment(text: Str)
      requires Valid()
      modifies this`items
      ensures Valid() && View() == SaxText.AddComment(old(View()), text)
      ensures Owned(items) == old(Owned(items))
    {
      ghost var was := View();
      SaxLaws.StepRefines(was, SaxLaws.Op.Comment(text));
      AddItem(Remark(text));
      assert View() == SaxLaws.Do(was, SaxLaws.Op.Comment(text));
    }

    /** xmlSAX2Characters. */
    method Characters(text: Str, h: Hints, junk: Byte)
      requires Valid()
      modifies this, Owned(items)
      ensures Valid() && View() == SaxText.Characters(old(View()), text, h, junk)
      ensures fresh(Owned(items) - old(Owned(items)))
    {
      ghost var was := View();
      SaxLaws.StepRefines(was, SaxLaws.Characters(text, h, junk));
      PutCharacters(text, h, junk);
      assert View() == SaxLaws.Do(was, SaxLaws.Characters(text, h, junk));
    }

    /** A new text node, with counters that describe it. */
    method AddText(text: Str, h: Hints)
      requires Wired(View()) && Unshared(items)
      modifies this
      ensures Unshared(items) && fresh(Owned(items) - old(Owned(items)))
      ensures View() == AddChild(old(View()), Text(NewStorage(h, text))).(nodelen := |text|, nodemem := |text| + 1)
    {
      var cell := NewCell(text, h);
      assert Shown(Run(cell)) == Text(NewStorage(h, text));
      AddItem(Run(cell));
      assert Owned(items) - old(Owned(items)) <= if cell.Own? then {cell.bytes} else {};
      nodelen := |text|;
      nodemem := |text| + 1;
    }

    method PutCharacters(text: Str, h: Hints, junk: Byte)
      requires Wired(View()) && Accelerated(View()) && Unshared(items)
      modifies this, Owned(items)
      ensures Unshared(items) && View() == SaxText.Characters(old(View()), text, h, junk)
      ensures fresh(Owned(items) - old(Owned(items)))
    {
      if |stack| == 1 {
        return;
      }
      var last := TextChild();
      if last.Some? {
        if nodemem != 0 {
          WritableSafe(View(), last.value);
          Accelerate(last.value, text, junk);
        } else {
          Concatenate(last.value, text);
        }
      } else {
        AddText(text, h);
      }
    }

    /** xmlSAX2CDataBlock. */
    method CDataBlock(text: Str)
      requires Valid()
      modifies this`items
      ensures Valid() && View() == SaxText.CDataBlock(old(View()), text)
      ensures Owned(items) <= old(Owned(items))
    {
      ghost var was := View();
      SaxLaws.StepRefines(was, SaxLaws.Op.CData(text));
      PutCData(text);
      assert View() == SaxLaws.Do(was, SaxLaws.Op.CData(text));
    }

    method PutCData(text: Str)
      requires Wired(View()) && Unshared(items)
      modifies this`items
      ensures Unshared(items) && View() == SaxText.CDataBlock(old(View()), text)
      ensures Owned(items) <= old(Owned(items))
    {
      if |stack| == 1 {
        return;
      }
      var last := LastChild();
      if last.Some? && items[last.value].Section? {
        SectionShown(items, last.value, items[last.value].chars + text);
        items := items[last.value := Section(items[last.value].chars + text)];
      } else {
        AddItem(Section(text));
      }
    }

    /** The parser handing over an entity's own text node. */
    method EntityFirst(text: Str)
      requires Valid()
      modifies this
      ensures Valid() && View() == SaxText.EntityFirst(old(View()), text)
      ensures Owned(items) == old(Owned(items))
    {
      ghost var was := View();
      SaxLaws.StepRefines(was, SaxLaws.FirstEntity(text));
      if |stack| > 1 {
        AddItem(Named(text));
        nodelen := 0;
        nodemem := 0;
      }
      assert View() == SaxLaws.Do(was, SaxLaws.FirstEntity(text));
    }

    /** The parser's copy of an entity's text. */
    method EntityText(text: Str)
      requires Valid()
      modifies this
      ensures Valid() && View() == SaxText.EntityText(old(View()), text)
      ensures fresh(Owned(items) - old(Owned(items)))
    {
      ghost var was := View();
      SaxLaws.StepRefines(was, SaxLaws.Entity(text));
      PutEntity(text);
      assert View() == SaxLaws.Do(was, SaxLaws.Entity(text));
    }

    method PutEntity(text: Str)
      requires Wired(View()) && Unshared(items)
      modifies this
      ensures Unshared(items) && View() == SaxText.EntityText(old(View()), text)
      ensures fresh(Owned(items) - old(Owned(items)))
    {
      if |stack| > 1 {
        var last := TextChild();
        if last.Some? {
          Concatenate(last.value, text);
        } else {
          AddCopy(text);
        }
        nodelen := 0;
        nodemem := 0;
      }
    }

    method AddCopy(text: Str)
      requires Wired(View()) && Unshared(items)
      modifies this`items
      ensures Unshared(items) && fresh(Owned(items) - old(Owned(items)))
      ensures View() == AddChild(old(View()), Text(Buffer(text + [0])))
    {
      var bytes := Duplicate(text);
      AddItem(Run(Own(bytes)));
    }
  }
}
