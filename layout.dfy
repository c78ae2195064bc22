/**
  The docking-position controller of the refresh menu
  (widgets/refreshMenu/controller/layout.ts): which screen edge the menu
  and its floating action button (FAB) dock to, the window placements that
  follow from it, the observable cell holding the choice, and the file the
  choice is persisted in.
 */
module Layout {
  import opened JsString
  import Observable

  /** The four edges the menu can dock to. */
  datatype ModulePosition = Bottom | Top | Left | Right

  /** Astal.WindowAnchor, kept abstract: only which edge is meant matters
      here, not the toolkit's numeric flag values. */
  datatype Edge = AnchorTop | AnchorBottom | AnchorLeft | AnchorRight

  /** A layer-window placement: the edge it is anchored to and its four
      margins, in pixels. */
  datatype Placement = Placement(anchor: Edge, marginTop: int, marginRight: int, marginBottom: int, marginLeft: int)

  datatype Option<T> = None | Some(value: T)

  /** The string literal TypeScript uses for each position; it is also the
      text written to the position file. */
  function Name(p: ModulePosition): (r: string)
    ensures |r| > 0 && !IsWhiteSpace(r[0]) && !IsWhiteSpace(r[|r| - 1])
  {
    match p
    case Bottom => "bottom"
    case Top => "top"
    case Left => "left"
    case Right => "right"
  }

  /** parsePosition: total. The trimmed input "top", "left" or "right"
      selects that position; everything else, "bottom" included, gives
      Bottom. */
  function ParsePosition(value: string): (r: ModulePosition)
    ensures r == Top <==> Trim(value) == "top"
    ensures r == Left <==> Trim(value) == "left"
    ensures r == Right <==> Trim(value) == "right"
    ensures r == Bottom <==> Trim(value) !in {"top", "left", "right"}
  {
    var t := Trim(value);
    if t == "top" then Top
    else if t == "left" then Left
    else if t == "right" then Right
    else Bottom
  }

  /** The position file: None when it is missing or cannot be read (any
      exception from the read), otherwise its decoded contents. */
  type PositionFile = Option<string>

  /** readPersistedPosition: Bottom when there is nothing to read, the
      parsed contents otherwise. */
  function ReadPersistedPosition(file: PositionFile): (r: ModulePosition)
    ensures file.None? ==> r == Bottom
    ensures file.Some? ==> r == ParsePosition(file.value)
  {
    match file
    case None => Bottom
    case Some(contents) => ParsePosition(contents)
  }

  /** persistPosition: writes the position's name to the file. `written`
      says whether the write succeeded; a failure is ignored, and since
      GLib replaces the file atomically, leaves the old contents in place. */
  function PersistPosition(file: PositionFile, position: ModulePosition, written: bool): (r: PositionFile)
    ensures written ==> ReadPersistedPosition(r) == position
    ensures !written ==> r == file
  {
    NameRoundTrip(position);
    if written then Some(Name(position)) else file
  }

  /** A name read back parses to the position it names. */
  lemma {:induction false} NameRoundTrip(p: ModulePosition)
    ensures ParsePosition(Name(p)) == p
  {
    TrimOfTrimmed(Name(p));
  }

  /** Parsing the trimmed input gives the same position. */
  lemma {:induction false} ParseIgnoresTrim(s: string)
    ensures ParsePosition(Trim(s)) == ParsePosition(s)
  {
    TrimIdempotent(s);
  }

  /** White space around the stored text, such as the newline an editor
      adds at the end of the file, does not change the parsed position. */
  lemma {:induction false} ParseIgnoresPadding(pre: string, s: string, post: string)
    requires AllWhiteSpace(pre) && AllWhiteSpace(post)
    ensures ParsePosition(pre + s + post) == ParsePosition(s)
  {
    TrimIgnoresPadding(pre, s, post);
  }

  /** The stored text " left\n" reads back as Left. */
  lemma {:induction false} ParsePaddedExample()
    ensures ParsePosition(" left\n") == Left
  {
    var s := " left\n";
    LeadingSpaceUnique(s, 1);
    TrailingStartUnique(s, 5);
    assert s[1..5] == "left";
  }

  const EDGE: int := 0
  const BOTTOM_DOCK_OFFSET: int := -7
  const FAB_SIZE: int := 56
  const GAP: int := 10

  const BottomFab := Placement(AnchorBottom, 0, 0, EDGE + BOTTOM_DOCK_OFFSET, 0)
  const TopFab := Placement(AnchorTop, EDGE, 0, 0, 0)
  const LeftFab := Placement(AnchorLeft, 0, 0, 0, EDGE)
  const RightFab := Placement(AnchorRight, 0, EDGE, 0, 0)

  const BottomMenu := Placement(AnchorBottom, 0, 0, EDGE + FAB_SIZE + GAP + BOTTOM_DOCK_OFFSET, 0)
  const TopMenu := Placement(AnchorTop, EDGE + FAB_SIZE + GAP, 0, 0, 0)
  const LeftMenu := Placement(AnchorLeft, 0, 0, 0, EDGE + FAB_SIZE + GAP)
  const RightMenu := Placement(AnchorRight, 0, EDGE + FAB_SIZE + GAP, 0, 0)

  /** The window edge a position names. */
  function DockedEdge(p: ModulePosition): Edge {
    match p
    case Bottom => AnchorBottom
    case Top => AnchorTop
    case Left => AnchorLeft
    case Right => AnchorRight
  }

  /** The margin a placement keeps from edge `e`. */
  function Margin(pl: Placement, e: Edge): int {
    match e
    case AnchorTop => pl.marginTop
    case AnchorRight => pl.marginRight
    case AnchorBottom => pl.marginBottom
    case AnchorLeft => pl.marginLeft
  }

  /** The distance from the docked edge that both windows share: EDGE, less
      the extra offset that pulls a bottom dock towards the screen edge. */
  function DockOffset(p: ModulePosition): int {
    if p == Bottom then EDGE + BOTTOM_DOCK_OFFSET else EDGE
  }

  /** getFabPlacement: the FAB sits on the docked edge, at DockOffset from
      it, with every other margin 0. */
  function GetFabPlacement(position: ModulePosition): (r: Placement)
    ensures r.anchor == DockedEdge(position)
    ensures Margin(r, r.anchor) == DockOffset(position)
    ensures forall e :: e != r.anchor ==> Margin(r, e) == 0
  {
    match position
    case Top => TopFab
    case Left => LeftFab
    case Right => RightFab
    case Bottom => BottomFab
  }

  /** getMenuPlacement: the menu shares the FAB's anchor and clears the FAB
      by FAB_SIZE + GAP on the docked edge, with every other margin 0. */
  function GetMenuPlacement(position: ModulePosition): (r: Placement)
    ensures r.anchor == GetFabPlacement(position).anchor == DockedEdge(position)
    ensures Margin(r, r.anchor) == Margin(GetFabPlacement(position), r.anchor) + FAB_SIZE + GAP
    ensures forall e :: e != r.anchor ==> Margin(r, e) == 0
  {
    match position
    case Top => TopMenu
    case Left => LeftMenu
    case Right => RightMenu
    case Bottom => BottomMenu
  }

  /** The menu's docked-edge margin exceeds the FAB's by 66 pixels on every
      edge, and distinct positions anchor to distinct edges. */
  lemma {:induction false} PlacementsAgree(p: ModulePosition, q: ModulePosition)
    ensures Margin(GetMenuPlacement(p), DockedEdge(p)) == Margin(GetFabPlacement(p), DockedEdge(p)) + 66
    ensures p != q ==> GetFabPlacement(p).anchor != GetFabPlacement(q).anchor
  {
  }

  /** getPositionClass: "position-" followed by the position's name, so the
      name can be read back from the class. */
  function GetPositionClass(position: ModulePosition): (r: string)
    ensures |r| > 9 && r[..9] == "position-" && r[9..] == Name(position)
    ensures ParsePosition(r[9..]) == position
  {
    var r := "position-" + Name(position);
    assert r[9..] == Name(position);
    NameRoundTrip(position);
    r
  }

  /** Distinct positions get distinct CSS classes. */
  lemma {:induction false} PositionClassInjective(p: ModulePosition, q: ModulePosition)
    requires GetPositionClass(p) == GetPositionClass(q)
    ensures p == q
  {
    assert GetPositionClass(p)[9..] == GetPositionClass(q)[9..];
  }

  /** createVariable: an observable cell over any value type compared by
      equality (Object.is agrees with equality on the strings it holds
      here). `calls` records every callback invocation, oldest first. */
  class Variable<T(==)> {
    var value: T
    var subscribers: seq<Observable.CallbackId>
    ghost var calls: seq<Observable.Call<T>>

    ghost function State(): Observable.Cell<T>
      reads this
    {
      Observable.Cell(value, subscribers, calls)
    }

    ghost predicate Valid()
      reads this
    {
      Observable.Valid(State())
    }

    constructor (initial: T)
      ensures Valid() && State() == Observable.Initial(initial)
    {
      value := initial;
      subscribers := [];
      calls := [];
    }

    method Get() returns (v: T)
      ensures v == State().value
    {
      v := value;
    }

    /** Calls every subscriber with the current value, in iteration order.
        In the source this is a closure private to the cell; here it is a
        method of the class. */
    method Notify()
      modifies this`calls
      ensures calls == old(calls) + Observable.Notifications(subscribers, value)
    {
      var i := 0;
      while i < |subscribers|
        invariant 0 <= i <= |subscribers|
        invariant calls == old(calls) + Observable.Notifications(subscribers[..i], value)
      {
        calls := calls + [Observable.Call(subscribers[i], value)];
        i := i + 1;
      }
      assert subscribers[..i] == subscribers;
    }

    method Set(next: T)
      requires Valid()
      modifies this
      ensures Valid() && State() == Observable.Assign(old(State()), next)
    {
      if value == next {
        return;
      }
      value := next;
      Notify();
    }

    method Subscribe(callback: Observable.CallbackId)
      requires Valid()
      modifies this
      ensures Valid() && State() == Observable.Subscribe(old(State()), callback)
    {
      subscribers := Observable.SetAdd(subscribers, callback);
      calls := calls + [Observable.Call(callback, value)];
    }

    /** The function Subscribe returns in the source. */
    method Unsubscribe(callback: Observable.CallbackId)
      requires Valid()
      modifies this
      ensures Valid() && State() == Observable.Unsubscribe(old(State()), callback)
    {
      subscribers := Observable.SetDelete(subscribers, callback);
    }
  }

  /** The module-level state of layout.ts: the `modulePosition` cell and the
      position file it is loaded from and saved to. */
  class LayoutController {
    const modulePosition: Variable<ModulePosition>
    var file: PositionFile

    ghost predicate Valid()
      reads this, modulePosition
    {
      modulePosition.Valid()
    }

    /** Module load: the cell starts at the persisted position. */
    constructor (file: PositionFile)
      ensures Valid() && fresh(modulePosition) && this.file == file
      ensures modulePosition.State() == Observable.Initial(ReadPersistedPosition(file))
    {
      this.file := file;
      modulePosition := new Variable(ReadPersistedPosition(file));
    }

    /** setModulePosition: updates the cell (notifying only on a change),
      then persists the position. */
    method SetModulePosition(position: ModulePosition, written: bool)
      requires Valid()
      modifies this, modulePosition
      ensures Valid()
      ensures modulePosition.State() == Observable.Assign(old(modulePosition.State()), position)
      ensures modulePosition.value == position
      ensures file == PersistPosition(old(file), position, written)
      ensures written ==> ReadPersistedPosition(file) == modulePosition.value
    {
      modulePosition.Set(position);
      file := PersistPosition(file, position, written);
    }
  }
}
