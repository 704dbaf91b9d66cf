/**
 * The interactable-elements menu (src/InteractableElementsMenu.js): the map events
 * the player can interact with, listed by ascending id as menu commands, with a
 * generated name for unnamed events and a disabled placeholder when there are none.
 */
module InteractableElementsMenu {
  import opened Wrappers
  import opened Markup

  /**
   * What the menu reads of a `Game_Event`: its id, its name, its map position, the
   * trigger of its current page and whether `isNormalPriority()` holds.
   */
  datatype Event = Event(id: int, name: string, x: nat, y: nat, trigger: int, normalPriority: bool)

  /** `Game_Event.isInteractable`: action button, player touch or event touch, on the player's level. */
  predicate IsInteractable(e: Event) {
    (e.trigger == 0 || e.trigger == 1 || e.trigger == 2) && e.normalPriority
  }

  /** `Game_Map.interactableElements`: the interactable events, in map order. */
  function InteractableElements(events: seq<Event>): (r: seq<Event>)
    ensures |r| <= |events|
    ensures forall e | e in r :: e in events && IsInteractable(e)
    ensures forall e | e in events && IsInteractable(e) :: e in r
  {
    if events == [] then []
    else if IsInteractable(events[0]) then [events[0]] + InteractableElements(events[1..])
    else InteractableElements(events[1..])
  }

  /** The filter keeps the map order: filtering a concatenation concatenates the results. */
  lemma {:induction false} InteractableElementsKeepOrder(a: seq<Event>, b: seq<Event>)
    ensures InteractableElements(a + b) == InteractableElements(a) + InteractableElements(b)
  {
    if a == [] {
      assert a + b == b;
    } else {
      assert (a + b)[1..] == a[1..] + b;
      InteractableElementsKeepOrder(a[1..], b);
    }
  }

  predicate SortedById(s: seq<Event>) {
    forall i, j | 0 <= i < j < |s| :: s[i].id <= s[j].id
  }

  /** Insert after every element whose id is not larger, so equal ids keep their order. */
  function Insert(e: Event, s: seq<Event>): (r: seq<Event>)
    requires SortedById(s)
    ensures |r| == |s| + 1
    ensures SortedById(r)
    ensures multiset(r) == multiset(s) + multiset{e}
  {
    if s == [] then [e]
    else if e.id < s[0].id then [e] + s
    else
      var rest := Insert(e, s[1..]);
      InsertBehind(e, s, rest);
      [s[0]] + rest
  }

  /** Putting the smallest element back in front of the insertion into the tail keeps the order and the elements. */
  lemma InsertBehind(e: Event, s: seq<Event>, rest: seq<Event>)
    requires s != [] && SortedById(s) && s[0].id <= e.id
    requires SortedById(rest) && multiset(rest) == multiset(s[1..]) + multiset{e}
    ensures SortedById([s[0]] + rest)
    ensures multiset([s[0]] + rest) == multiset(s) + multiset{e}
  {
    assert multiset(s) == multiset{s[0]} + multiset(s[1..]) by { assert s == [s[0]] + s[1..]; }
    forall x | x in rest ensures s[0].id <= x.id {
      assert x in multiset(rest);
      if x != e {
        assert x in multiset(s[1..]);
      }
    }
  }

  /** `interactableElements.sort((a, b) => a.id - b.id)`: ascending ids, same elements. */
  function SortById(s: seq<Event>): (r: seq<Event>)
    ensures |r| == |s|
    ensures SortedById(r)
    ensures multiset(r) == multiset(s)
  {
    if s == [] then []
    else
      var prefix := s[..|s| - 1];
      assert s == prefix + [s[|s| - 1]];
      Insert(s[|s| - 1], SortById(prefix))
  }

  /** A menu entry as `Window_Command.addCommand` stores it. */
  datatype Command = Command(name: string, symbol: Option<int>, enabled: bool, ext: Option<Event>)

  /** The name of an unnamed element: `"Event " + i + " at " + x + " " + y`. */
  function FallbackName(i: nat, e: Event): string {
    "Event " + NatToString(i) + " at " + NatToString(e.x) + " " + NatToString(e.y)
  }

  /** The command for the element at position `i` of the sorted list. */
  function ElementCommand(e: Event, i: nat): Command {
    Command(if e.name != "" then e.name else FallbackName(i, e), Some(e.id), true, Some(e))
  }

  function ElementCommands(elements: seq<Event>): (r: seq<Command>)
    ensures |r| == |elements|
    ensures forall i | 0 <= i < |elements| :: r[i] == ElementCommand(elements[i], i)
  {
    seq(|elements|, (i: int) requires 0 <= i < |elements| => ElementCommand(elements[i], i))
  }

  lemma ElementCommandsStep(elements: seq<Event>, i: nat)
    requires i < |elements|
    ensures ElementCommands(elements)[..i + 1] == ElementCommands(elements)[..i] + [ElementCommand(elements[i], i)]
  {
  }

  const Placeholder: Command := Command("No interactable elements", None, false, None)

  /** The list `makeCommandList` builds on an empty `_list`. */
  function CommandList(events: seq<Event>): seq<Command> {
    var elements := SortById(InteractableElements(events));
    ElementCommands(elements) + (if elements == [] then [Placeholder] else [])
  }

  /** The menu has one command per interactable element, and one placeholder when there is none. */
  lemma CommandListLength(events: seq<Event>)
    ensures |InteractableElements(events)| == 0 ==> CommandList(events) == [Placeholder]
    ensures |InteractableElements(events)| > 0 ==> |CommandList(events)| == |InteractableElements(events)|
  {
  }

  /** The commands come in ascending order of element id. */
  lemma CommandsAscendById(events: seq<Event>)
    ensures forall i, j | 0 <= i < j < |CommandList(events)| ::
      CommandList(events)[i].symbol.Some? && CommandList(events)[j].symbol.Some? &&
      CommandList(events)[i].symbol.value <= CommandList(events)[j].symbol.value
  {
    var elements := SortById(InteractableElements(events));
    var list := CommandList(events);
    forall i, j | 0 <= i < j < |list|
      ensures list[i].symbol.Some? && list[j].symbol.Some? && list[i].symbol.value <= list[j].symbol.value
    {
      assert list == ElementCommands(elements);
      assert list[i].symbol == Some(elements[i].id) && list[j].symbol == Some(elements[j].id);
    }
  }

  /**
   * Every interactable event has an enabled command whose symbol is its id and whose
   * extension is the event, and every command with an extension is of this kind.
   */
  lemma OneCommandPerElement(events: seq<Event>)
    ensures forall e | e in events && IsInteractable(e) ::
      exists i | 0 <= i < |CommandList(events)| :: CommandList(events)[i].ext == Some(e)
    ensures forall c | c in CommandList(events) && c.ext.Some? ::
      c.enabled && c.symbol == Some(c.ext.value.id) && c.ext.value in events && IsInteractable(c.ext.value)
  {
    var filtered := InteractableElements(events);
    var elements := SortById(filtered);
    var list := CommandList(events);
    forall e | e in events && IsInteractable(e)
      ensures exists i | 0 <= i < |list| :: list[i].ext == Some(e)
    {
      assert e in multiset(filtered);
      assert e in multiset(elements);
      var i :| 0 <= i < |elements| && elements[i] == e;
      assert list[i] == ElementCommand(e, i);
    }
    forall c | c in list && c.ext.Some?
      ensures c.enabled && c.symbol == Some(c.ext.value.id) && c.ext.value in events && IsInteractable(c.ext.value)
    {
      var i :| 0 <= i < |list| && list[i] == c;
      assert i < |elements|;
      assert elements[i] in multiset(filtered);
    }
  }

  /** A named element keeps its name; an unnamed one is called after its sorted position and map tile. */
  lemma CommandNames(events: seq<Event>, i: nat)
    requires i < |InteractableElements(events)|
    ensures var e := SortById(InteractableElements(events))[i];
      CommandList(events)[i].name == if e.name != "" then e.name else "Event " + NatToString(i) + " at " + NatToString(e.x) + " " + NatToString(e.y)
  {
  }

  /** The window of the menu; `list` is the command list (`_list`) it inherits from `Window_Command`. */
  class Window {
    var list: seq<Command>

    constructor ()
      ensures list == []
    {
      list := [];
    }

    /** `Window_Command.addCommand`. */
    method AddCommand(name: string, symbol: Option<int>, enabled: bool, ext: Option<Event>)
      modifies this
      ensures list == old(list) + [Command(name, symbol, enabled, ext)]
    {
      list := list + [Command(name, symbol, enabled, ext)];
    }

    /** `Window_InteractableElementsMenu.makeCommandList`; `events` is `$gameMap.events()`. */
    method MakeCommandList(events: seq<Event>)
      modifies this
      ensures list == old(list) + ElementCommands(SortById(InteractableElements(events)))
        + (if old(list) == [] && InteractableElements(events) == [] then [Placeholder] else [])
      ensures old(list) == [] ==> list == CommandList(events)
    {
      var elements := SortById(InteractableElements(events));
      ghost var initial := list;
      ghost var commands := ElementCommands(elements);
      var i := 0;
      while i < |elements|
        invariant 0 <= i <= |elements|
        invariant list == initial + commands[..i]
      {
        var element := elements[i];
        var name := if element.name != "" then element.name else FallbackName(i, element);
        AddCommand(name, Some(element.id), true, Some(element));
        ElementCommandsStep(elements, i);
        i := i + 1;
      }
      assert commands[..i] == commands;
      if |list| == 0 {
        AddCommand("No interactable elements", None, false, None);
      } else {
        assert initial != [] || elements != [];
      }
    }
  }
}
