/**
 * The Badge component: a label that expands and collapses on click, unless
 * the click was used to select text inside it.
 *
 * The component keeps two booleans (`_isExpanded`, `hasHighlightedText`)
 * and, between mouse-down and mouse-up, listens for the document's
 * "selectionchange" events. That registration is the third piece of state
 * here (`listening`). The text the document reports as selected is an input
 * of each event.
 */
module Badge {
  import opened Wrappers

  /** The state the component's event handlers change. */
  datatype BadgeState = BadgeState(expanded: bool, highlighted: bool, listening: bool)

  /** A fresh badge: collapsed, nothing highlighted, no listener. */
  const Initial := BadgeState(false, false, false)

  /** onSelectionChange: remember that some text was highlighted. */
  function SelectionChanged(st: BadgeState, selection: string): BadgeState {
    st.(highlighted := st.highlighted || |selection| > 0)
  }

  /** onMouseDown: sample the current selection, then start listening. */
  function MouseDown(st: BadgeState, selection: string): BadgeState {
    SelectionChanged(st, selection).(listening := true)
  }

  /** onMouseUp: stop listening; toggle unless text was highlighted; forget the highlight. */
  function MouseUp(st: BadgeState): BadgeState {
    BadgeState(if st.highlighted then st.expanded else !st.expanded, false, false)
  }

  /** The document reaches onSelectionChange only while it is registered. */
  function DocumentSelectionChange(st: BadgeState, selection: string): BadgeState {
    if st.listening then SelectionChanged(st, selection) else st
  }

  /** componentWillUnmount: remove the listener. */
  function Unmounted(st: BadgeState): BadgeState {
    st.(listening := false)
  }

  /** What can happen to a badge, in the order it happens. */
  datatype Event = Down(selection: string) | SelectionChange(selection: string) | Up | Unmount

  function Step(st: BadgeState, e: Event): BadgeState {
    match e
    case Down(selection) => MouseDown(st, selection)
    case SelectionChange(selection) => DocumentSelectionChange(st, selection)
    case Up => MouseUp(st)
    case Unmount => Unmounted(st)
  }

  function Run(st: BadgeState, events: seq<Event>): BadgeState
    decreases |events|
  {
    if events == [] then st else Run(Step(st, events[0]), events[1..])
  }

  /** The selection-change events for the given selections. */
  function Changes(selections: seq<string>): (es: seq<Event>)
    ensures |es| == |selections|
    ensures forall i :: 0 <= i < |es| ==> es[i] == SelectionChange(selections[i])
  {
    if selections == [] then [] else [SelectionChange(selections[0])] + Changes(selections[1..])
  }

  /** A click: mouse-down, the selection changes while the button is held, mouse-up. */
  function Click(down: string, selections: seq<string>): seq<Event> {
    [Down(down)] + Changes(selections) + [Up]
  }

  predicate SomeSelected(selections: seq<string>) {
    exists i :: 0 <= i < |selections| && |selections[i]| > 0
  }

  /** The isExpanded getter: the forced value when the prop is given, else the internal one. */
  function Shown(forced: Option<bool>, st: BadgeState): bool {
    match forced
    case Some(b) => b
    case None => st.expanded
  }

  /** Size of the rendered element, as the isExpandable getter reads it. */
  datatype ElementSize = ElementSize(scrollWidth: int, clientWidth: int, scrollHeight: int, clientHeight: int)

  predicate Overflows(e: ElementSize) {
    e.clientWidth < e.scrollWidth || e.clientHeight < e.scrollHeight
  }

  lemma {:induction false} RunAppend(st: BadgeState, a: seq<Event>, b: seq<Event>)
    ensures Run(st, a + b) == Run(Run(st, a), b)
    decreases |a|
  {
    if a == [] {
      assert a + b == b;
    } else {
      assert (a + b)[0] == a[0] && (a + b)[1..] == a[1..] + b;
      RunAppend(Step(st, a[0]), a[1..], b);
    }
  }

  /**
   * Selection changes never clear a highlight, and only set it while
   * listening; they leave the expanded flag and the registration alone.
   */
  lemma {:induction false} ChangesWhileListening(st: BadgeState, selections: seq<string>)
    ensures Run(st, Changes(selections)) ==
            st.(highlighted := st.highlighted || (st.listening && SomeSelected(selections)))
    decreases |selections|
  {
    if selections != [] {
      var next := DocumentSelectionChange(st, selections[0]);
      assert Changes(selections)[1..] == Changes(selections[1..]);
      ChangesWhileListening(next, selections[1..]);
      if SomeSelected(selections[1..]) {
        var i :| 0 <= i < |selections[1..]| && |selections[1..][i]| > 0;
        assert |selections[i + 1]| > 0;
      }
      if SomeSelected(selections) && |selections[0]| == 0 {
        var i :| 0 <= i < |selections| && |selections[i]| > 0;
        assert |selections[1..][i - 1]| > 0;
      }
    }
  }

  /** A highlight is only forgotten at mouse-up. */
  lemma {:induction false} HighlightKeptUntilMouseUp(st: BadgeState, events: seq<Event>)
    requires st.highlighted
    requires forall i :: 0 <= i < |events| ==> events[i] != Up
    ensures Run(st, events).highlighted
    decreases |events|
  {
    if events != [] {
      HighlightKeptUntilMouseUp(Step(st, events[0]), events[1..]);
    }
  }

  /**
   * A click toggles the expanded flag exactly when no text was highlighted
   * before it, at mouse-down or while the button was held; afterwards
   * nothing is highlighted and the listener is gone.
   */
  lemma ClickOutcome(st: BadgeState, down: string, selections: seq<string>)
    ensures var highlighted := st.highlighted || |down| > 0 || SomeSelected(selections);
            Run(st, Click(down, selections)) ==
            BadgeState(if highlighted then st.expanded else !st.expanded, false, false)
  {
    var pressed := MouseDown(st, down);
    RunAppend(st, [Down(down)], Changes(selections));
    RunAppend(st, [Down(down)] + Changes(selections), [Up]);
    assert Run(st, [Down(down)]) == pressed;
    ChangesWhileListening(pressed, selections);
  }

  /** Two clicks that select nothing bring the badge back to where it was. */
  lemma TwoPlainClicksRestore(st: BadgeState, first: seq<string>, second: seq<string>)
    requires !st.highlighted
    requires forall i :: 0 <= i < |first| ==> first[i] == ""
    requires forall i :: 0 <= i < |second| ==> second[i] == ""
    ensures Run(st, Click("", first) + Click("", second)) == st.(listening := false)
  {
    RunAppend(st, Click("", first), Click("", second));
    ClickOutcome(st, "", first);
    var mid := Run(st, Click("", first));
    ClickOutcome(mid, "", second);
  }

  /** A forced isExpanded prop wins over every sequence of events. */
  lemma ForcedValueWins(st: BadgeState, events: seq<Event>, b: bool)
    ensures Shown(Some(b), Run(st, events)) == b
  {
  }

  /** The component, with the fields its handlers update in place. */
  class Badge {
    var internalExpanded: bool
    var hasHighlightedText: bool
    /** Whether onSelectionChange is registered for the document's "selectionchange". */
    var listening: bool
    var elem: Option<ElementSize>

    function State(): BadgeState
      reads this
    {
      BadgeState(internalExpanded, hasHighlightedText, listening)
    }

    constructor ()
      ensures State() == Initial && elem == None
    {
      internalExpanded := false;
      hasHighlightedText := false;
      listening := false;
      elem := None;
    }

    /** The isExpanded getter, given the component's isExpanded prop. */
    function IsExpanded(forced: Option<bool>): (r: bool)
      reads this
      ensures forced.Some? ==> r == forced.value
      ensures forced.None? ==> r == internalExpanded
    {
      Shown(forced, State())
    }

    /**
     * The isExpandable getter: never for a flat badge or before the element
     * exists; otherwise exactly when the content overflows the element.
     */
    function IsExpandable(flat: Option<bool>): (r: bool)
      reads this
      ensures flat == Some(true) ==> !r
      ensures elem.None? ==> !r
      ensures flat != Some(true) && elem.Some? ==> (r <==> Overflows(elem.value))
    {
      flat != Some(true) && elem.Some? && Overflows(elem.value)
    }

    method SetRef(e: Option<ElementSize>)
      modifies this
      ensures elem == e && State() == old(State())
    {
      elem := e;
    }

    method OnSelectionChange(selection: string)
      modifies this
      ensures State() == SelectionChanged(old(State()), selection) && elem == old(elem)
      ensures old(hasHighlightedText) ==> hasHighlightedText
    {
      hasHighlightedText := hasHighlightedText || |selection| > 0;
    }

    method OnMouseDown(selection: string)
      modifies this
      ensures State() == MouseDown(old(State()), selection) && elem == old(elem)
      ensures listening
    {
      OnSelectionChange(selection);
      listening := true;
    }

    method OnMouseUp()
      modifies this
      ensures State() == MouseUp(old(State())) && elem == old(elem)
      ensures !hasHighlightedText && !listening
      ensures internalExpanded == (old(internalExpanded) != !old(hasHighlightedText))
    {
      listening := false;
      if !hasHighlightedText {
        internalExpanded := !internalExpanded;
      }
      hasHighlightedText := false;
    }

    /** The document fires "selectionchange"; only a registered handler hears it. */
    method OnDocumentSelectionChange(selection: string)
      modifies this
      ensures State() == Step(old(State()), SelectionChange(selection)) && elem == old(elem)
      ensures !old(listening) ==> State() == old(State())
    {
      if listening {
        OnSelectionChange(selection);
      }
    }

    method ComponentWillUnmount()
      modifies this
      ensures State() == Unmounted(old(State())) && elem == old(elem)
      ensures !listening
    {
      listening := false;
    }
  }
}
