/** The HTML parser's element stack as the source keeps it: a table of names, the
    current name beside it, and flags, all updated in place. */
module HtmlParser {

  import opened Optional
  import opened HtmlStack

  lemma {:induction false} CountPrefix(names: seq<string>, i: nat, x: string)
    requires i < |names|
    ensures Count(names[..i + 1], x) == Count(names[..i], x) + (if names[i] == x then 1 else 0)
  {
    if i > 0 {
      CountPrefix(names[1..], i - 1, x);
      assert names[..i + 1][1..] == names[1..][..i] && names[..i][1..] == names[1..][..i - 1];
    } else {
      assert names[..1] == [names[0]] && names[..1][1..] == [] && names[..0] == [];
    }
  }

  class Context {
    const tables: Tables
    var nameTab: seq<string>
    var name: Option<string>
    var html: nat
    var depth: nat
    var events: seq<Event>
    var impliedHeads: nat
    var impliedBodies: nat

    constructor (tables: Tables)
      ensures Valid() && View() == INITIAL && this.tables == tables
    {
      this.tables := tables;
      nameTab, name, html, depth, events, impliedHeads, impliedBodies := [], None, 1, 0, [], 0, 0;
    }

    /** The current name is the top of the table. */
    ghost predicate Valid()
      reads this
    {
      name == if nameTab == [] then None else Some(nameTab[|nameTab| - 1])
    }

    ghost function View(): State
      reads this
    {
      State(nameTab, html, depth, events, impliedHeads, impliedBodies)
    }

    /** htmlnamePush. */
    method NamePush(value: string)
      requires Valid()
      modifies this`nameTab, this`name, this`html
      ensures Valid() && View() == Push(old(View()), value)
    {
      if html < 3 && value == "head" {
        html := 3;
      }
      if html < 10 && value == "body" {
        html := 10;
      }
      nameTab := nameTab + [value];
      name := Some(value);
    }

    /** htmlnamePop. */
    method NamePop()
      requires Valid()
      modifies this`nameTab, this`name
      ensures Valid() && View() == Pop(old(View()))
    {
      if |nameTab| > 0 {
        nameTab := nameTab[..|nameTab| - 1];
        name := if |nameTab| > 0 then Some(nameTab[|nameTab| - 1]) else None;
      }
    }

    /** The start event and the push that go together. */
    method OpenElement(value: string)
      requires Valid()
      modifies this`nameTab, this`name, this`html, this`events
      ensures Valid() && View() == Open(old(View()), value)
    {
      NamePush(value);
      events := events + [Start(value)];
    }

    /** The end event of the current element, then the pop. */
    method CloseElement()
      requires Valid() && nameTab != []
      modifies this`nameTab, this`name, this`events
      ensures Valid() && View() == CloseTop(old(View()))
    {
      events := events + [End(name.value)];
      NamePop();
    }

    /** htmlAutoClose with a tag. */
    method AutoCloseFor(newtag: string)
      requires Valid()
      modifies this`nameTab, this`name, this`events
      ensures Valid() && View() == AutoClose(tables, old(View()), newtag)
    {
      while name.Some? && tables.closes(newtag, name.value)
        invariant Valid()
        invariant AutoClose(tables, View(), newtag) == AutoClose(tables, old(View()), newtag)
        decreases |nameTab|
      {
        CloseElement();
      }
    }

    /** htmlAutoCloseOnEnd. */
    method AutoCloseOnEnd()
      requires Valid()
      modifies this`nameTab, this`name, this`events
      ensures Valid() && View() == CloseAll(old(View()))
    {
      var i := |nameTab|;
      while i > 0
        invariant Valid() && i == |nameTab|
        invariant CloseAll(View()) == CloseAll(old(View()))
      {
        CloseElement();
        i := i - 1;
      }
    }

    /** htmlCheckImplied. */
    method CheckImpliedFor(newtag: string)
      requires Valid()
      modifies this
      ensures Valid() && View() == CheckImplied(old(View()), newtag)
    {
      if newtag == "html" {
        return;
      }
      if |nameTab| <= 0 {
        OpenElement("html");
      }
      if newtag == "body" || newtag == "head" {
        return;
      }
      if |nameTab| <= 1 && HeadOnly(newtag) {
        if html >= 3 {
          return;
        }
        OpenElement("head");
        impliedHeads := impliedHeads + 1;
      } else if newtag != "noframes" && newtag != "frame" && newtag != "frameset" {
        if html >= 10 {
          return;
        }
        for i := 0 to |nameTab|
          invariant forall j | 0 <= j < i :: nameTab[j] != "body" && nameTab[j] != "head"
        {
          if nameTab[i] == "body" {
            return;
          }
          if nameTab[i] == "head" {
            return;
          }
        }
        OpenElement("body");
        impliedBodies := impliedBodies + 1;
      }
    }

    /** The checks for misplaced tags in htmlParseStartTag. */
    method CheckMisplaced(tag: string) returns (discard: bool)
      requires Valid()
      modifies this`depth
      ensures View() == old(View()).(depth := old(depth) + Misplaced(nameTab, tag))
      ensures discard == (Misplaced(nameTab, tag) > 0)
    {
      discard := false;
      if |nameTab| > 0 && tag == "html" {
        discard := true;
        depth := depth + 1;
      }
      if |nameTab| != 1 && tag == "head" {
        discard := true;
        depth := depth + 1;
      }
      if tag == "body" {
        for i := 0 to |nameTab|
          invariant depth == old(depth) + Count(nameTab[..i], "body")
          invariant discard == (Count(nameTab[..i], "body") > 0)
        {
          CountPrefix(nameTab, i, "body");
          if nameTab[i] == "body" {
            discard := true;
            depth := depth + 1;
          }
        }
        assert nameTab[..|nameTab|] == nameTab;
      }
    }

    /** The stack effect of htmlParseStartTag. */
    method ParseStartTag(tag: string) returns (discard: bool)
      requires Valid()
      modifies this
      ensures Valid() && View() == StartTag(tables, old(View()), tag)
      ensures discard == Discards(tables, old(View()), tag)
    {
      AutoCloseFor(tag);
      CheckImpliedFor(tag);
      discard := CheckMisplaced(tag);
      if !discard {
        OpenElement(tag);
      }
    }

    /** htmlParseElement up to its content: what follows the start tag. */
    method ParseElement(tag: string, ending: Ending)
      requires Valid()
      modifies this
      ensures Valid() && View() == Do(tables, old(View()), Tag(tag, ending))
    {
      var _ := ParseStartTag(tag);
      if name.None? {
        return;
      }
      if ending.Slash? {
        CloseElement();
        return;
      }
      if ending.Missing? {
        NamePop();
        return;
      }
      if tables.empty(name.value) {
        CloseElement();
      }
    }

    /** The downward search of htmlAutoCloseOnClose. */
    method FindForClose(newtag: string) returns (r: Option<nat>)
      ensures r == Reach(nameTab, newtag)
    {
      var priority := EndPriority(newtag);
      var i: nat := |nameTab|;
      assert nameTab[..i] == nameTab;
      while i > 0
        invariant i <= |nameTab|
        invariant Reach(nameTab, newtag) == Reach(nameTab[..i], newtag)
      {
        assert nameTab[..i][..i - 1] == nameTab[..i - 1];
        if newtag == nameTab[i - 1] {
          return Some(i - 1);
        }
        if EndPriority(nameTab[i - 1]) > priority {
          return None;
        }
        i := i - 1;
      }
      r := None;
    }

    /** htmlAutoCloseOnClose. */
    method AutoCloseOnClose(newtag: string)
      requires Valid()
      modifies this`nameTab, this`name, this`events
      ensures Valid()
      ensures View() == if Reach(old(nameTab), newtag).Some? then CloseDownTo(old(View()), newtag) else old(View())
    {
      var found := FindForClose(newtag);
      if found.None? {
        return;
      }
      ReachMeans(nameTab, newtag);
      while name != Some(newtag)
        invariant Valid() && found.value < |nameTab| && nameTab[found.value] == newtag
        invariant CloseDownTo(View(), newtag) == CloseDownTo(old(View()), newtag)
        decreases |nameTab|
      {
        CloseElement();
      }
    }

    /** The stack effect of htmlParseEndTag. */
    method ParseEndTag(tag: string) returns (closed: bool)
      requires Valid()
      modifies this
      ensures Valid() && (View(), closed) == EndTag(old(View()), tag)
    {
      if depth > 0 && (tag == "html" || tag == "body" || tag == "head") {
        depth := depth - 1;
        return false;
      }
      var i: nat := |nameTab|;
      while i > 0 && nameTab[i - 1] != tag
        invariant i <= |nameTab| && forall j | i <= j < |nameTab| :: nameTab[j] != tag
      {
        i := i - 1;
      }
      if i == 0 {
        return false;
      }
      assert nameTab[i - 1] in nameTab;
      AutoCloseOnClose(tag);
      if name == Some(tag) {
        CloseElement();
        closed := true;
      } else {
        closed := false;
      }
    }

    /** htmlCheckParagraph. */
    method CheckParagraphNow() returns (inserted: bool)
      requires Valid()
      modifies this
      ensures Valid() && View() == CheckParagraph(tables, old(View()))
    {
      inserted := name.None? || name == Some("html") || name == Some("head");
      if inserted {
        AutoCloseFor("p");
        CheckImpliedFor("p");
        OpenElement("p");
      }
    }
  }
}
