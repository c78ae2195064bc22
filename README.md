# Refresh-menu state layer, in Dafny

This project models the state layer under the refresh-menu widget of a
desktop-shell extension. The menu is a floating panel with a companion
floating action button (FAB). The layer has two parts:

- **Docking position** (`widgets/refreshMenu/controller/layout.ts`). The user
  picks one of four screen edges (`bottom`, `top`, `left`, `right`). The
  choice is parsed from and written to a one-line state file. It is held in
  an observable cell. It decides the anchor and margins of the FAB window and
  of the menu window, and it decides the CSS class `position-<edge>`.
- **Menu open/closed state** (`widgets/refreshMenu/controller/menuState.ts`).
  This is a boolean observable cell that starts closed. It has `set`, which
  skips equal values, and `toggle`, which always notifies. `openMenu`,
  `closeMenu` and `toggleMenu` are built on top.

Files:

- `jsstring.dfy`, module `JsString`: JavaScript's `String.prototype.trim`,
  using ECMAScript's white-space and line-terminator characters.
- `observable.dfy`, module `Observable`: a value model of the observable
  cell. A `Cell` holds the value, the subscribers and the trace of calls
  made. A JavaScript `Set` of callbacks becomes a sequence of distinct
  callback ids in insertion order. Each callback invocation is recorded as a
  `Call(id, value)` in the trace. The module defines `set`, `subscribe` and
  unsubscribe as functions, plus runs of operations, and proves the
  notification rules about them.
- `layout.dfy`, module `Layout`: the position parser, persistence over an
  abstract file, the placement tables, the CSS class, the `Variable` class
  (`createVariable`) and `LayoutController` (the state held at module level:
  the `modulePosition` cell and the position file).
- `menustate.dfy`, module `MenuState`: `toggle`, open and close as functions
  on a boolean `Cell`, the `BooleanVariable` class (`createBooleanVariable`),
  and the `menuState` singleton with `OpenMenu`, `CloseMenu` and `ToggleMenu`.

In both classes the trace `calls` is a ghost field: it records calls for
the proofs and is not state the program keeps. Each class method is a step
on its fields. Its `ensures` says that the new
`State()` equals the matching `Observable`/`MenuState` function applied to
the old state. Properties that span several calls are lemmas about those
functions. In both classes, `Notify` is a `while` loop over the subscribers,
proved to append exactly `Notifications(subscribers, value)` to the trace.

## Model

| member | source | states |
|---|---|---|
| `JsString.IsWhiteSpace` | widgets/refreshMenu/controller/layout.ts:24 | the characters `trim` removes: ECMAScript's WhiteSpace and LineTerminator code points (U+0009 to U+000D, U+0020, U+00A0, U+1680, U+2000 to U+200A, U+2028, U+2029, U+202F, U+205F, U+3000, U+FEFF) and nothing else |
| `JsString.WhiteSpaceEdgeCases` | widgets/refreshMenu/controller/layout.ts:24 | the no-break space, the byte order mark and the ideographic space are trimmed; U+0085, U+200B and U+180E are not |
| `JsString.SkipForward` | widgets/refreshMenu/controller/layout.ts:24 | from index `i`, the result is the first index holding a character that is not white space, or the length when there is none; everything skipped is white space |
| `JsString.SkipBackward` | widgets/refreshMenu/controller/layout.ts:24 | scanning back from index `j`, the result is the index just past the last character that is not white space, or 0; everything skipped is white space |
| `JsString.LeadingSpace` | widgets/refreshMenu/controller/layout.ts:24 | the length of the longest all-white-space prefix: every character before it is white space, and the character at it, if any, is not |
| `JsString.TrailingStart` | widgets/refreshMenu/controller/layout.ts:24 | the start of the longest all-white-space suffix: every character from it on is white space, and the character before it, if any, is not |
| `JsString.Trim` | widgets/refreshMenu/controller/layout.ts:24 | `value.trim()` is the slice of the input that starts after its leading white space, with only white space after it, and it is empty or begins and ends with a character that is not white space |
| `JsString.TrimOfTrimmed` | widgets/refreshMenu/controller/layout.ts:24-28 | a string that starts and ends with a character that is not white space is returned unchanged by trim |
| `JsString.TrimIdempotent` | widgets/refreshMenu/controller/layout.ts:24 | trimming twice gives the same result as trimming once; this is what makes parsing the trimmed text agree with parsing the original (`Layout.ParseIgnoresTrim`) |
| `JsString.LeadingSpaceAfterPadding` | widgets/refreshMenu/controller/layout.ts:24 | white space in front adds exactly its length to the leading white space |
| `JsString.TrailingStartAfterPadding` | widgets/refreshMenu/controller/layout.ts:24 | white space in front shifts the start of the trailing white space by its length, unless the rest is white space only |
| `JsString.TrimSkipsLeading` | widgets/refreshMenu/controller/layout.ts:24 | leading white space of any length does not change the result of trim |
| `JsString.TrimSkipsTrailing` | widgets/refreshMenu/controller/layout.ts:24 | trailing white space of any length does not change the result of trim |
| `JsString.TrimIgnoresPadding` | widgets/refreshMenu/controller/layout.ts:24 | for all-white-space `pre` and `post`, `trim(pre + s + post) == trim(s)` |
| `Observable.SetAdd` | widgets/refreshMenu/controller/layout.ts:56-72 | `Set.add`: the callback is a member afterwards, the members are the old ones plus it, the old order is a prefix of the new one, a callback that is already present changes nothing, and no duplicate is ever created |
| `Observable.SetDelete` | widgets/refreshMenu/controller/layout.ts:74 | `Set.delete`: the callback is gone and every other member stays; deleting an absent callback changes nothing; with distinct members, the result is the old sequence with just that callback's entry cut out, so the others keep their insertion order, and distinct members stay distinct |
| `Observable.WithoutAppend` | widgets/refreshMenu/controller/layout.ts:74 | deleting a callback from a concatenation deletes it from each part, in order |
| `Observable.WithoutAt` | widgets/refreshMenu/controller/layout.ts:74 | with distinct members, deleting the member at index `k` removes exactly that entry and keeps every other member in its place in the order |
| `Observable.Notifications` | widgets/refreshMenu/controller/layout.ts:58-62 | a round of `notify` makes one call per subscriber, the i-th to the i-th subscriber in iteration order, each with the given value |
| `Observable.NotifiesEachOnce` | widgets/refreshMenu/controller/layout.ts:58-62 | with distinct subscribers, a round of notification calls each subscriber exactly once and calls no other callback |
| `Observable.Initial` | widgets/refreshMenu/controller/layout.ts:54-56 | a new cell holds the initial value, has no subscribers and has made no calls |
| `Observable.InitialValid` | widgets/refreshMenu/controller/layout.ts:54-56 | a new cell has no duplicate subscribers |
| `Observable.Assign` | widgets/refreshMenu/controller/layout.ts:66-70 | `set(next)` leaves the value equal to `next` and the subscribers unchanged; an equal value changes nothing at all; the trace only grows, and for a different value it grows by one call per subscriber |
| `Observable.Subscribe` | widgets/refreshMenu/controller/layout.ts:71-73 | `subscribe(cb)` keeps the value; the subscribers become exactly the old ones plus `cb`, the old ones first and in their order; exactly one call is appended, to `cb` with the current value |
| `Observable.Unsubscribe` | widgets/refreshMenu/controller/layout.ts:74 | the returned unsubscribe function keeps the value and the trace and removes `cb`; the other subscribers stay, in their order (with distinct subscribers, `cb`'s entry is cut out of the sequence); if `cb` was not subscribed nothing changes |
| `Observable.OperationsPreserveValid` | widgets/refreshMenu/controller/layout.ts:56-75 | `set`, `subscribe` and unsubscribe never put the same callback in the set twice |
| `Observable.AssignNotifies` | widgets/refreshMenu/controller/layout.ts:58-70 | `set` of a different value calls the current subscribers in subscription order with the new value, each exactly once, and calls nobody else |
| `Observable.SubscribeCallsOnce` | widgets/refreshMenu/controller/layout.ts:71-73 | `subscribe(cb)` calls `cb` exactly once and no other callback; re-subscribing a present callback does not change the subscribers |
| `Observable.StepStaysSilent` | widgets/refreshMenu/controller/layout.ts:58-75 | a callback that is not subscribed is neither called nor subscribed by any single operation except subscribing that callback |
| `Observable.StepPreservesValid` | widgets/refreshMenu/controller/layout.ts:56-75 | every single operation keeps the subscribers distinct |
| `Observable.RunPreservesValid` | widgets/refreshMenu/controller/layout.ts:56-75 | every sequence of operations keeps the subscribers distinct |
| `Observable.SilentRun` | widgets/refreshMenu/controller/layout.ts:58-75 | a callback that is not subscribed receives no call during any run of operations that does not subscribe it |
| `Observable.UnsubscribedNeverCalled` | widgets/refreshMenu/controller/layout.ts:58-75 | after the unsubscribe function for `cb` has run, no later `set`, unsubscribe or subscription of another callback ever calls `cb` |
| `Layout.Name` | widgets/refreshMenu/controller/layout.ts:4 | the TypeScript literal of each position, which is also the text written to the position file (line 48) and the suffix of the CSS class (line 184); it is non-empty and has no white space at either end, so trim leaves it alone |
| `Layout.ParsePosition` | widgets/refreshMenu/controller/layout.ts:23-33 | total parser, in both directions: it gives Top, Left or Right exactly when the trimmed input is `"top"`, `"left"` or `"right"`, and Bottom exactly when the trimmed input is anything else |
| `Layout.ReadPersistedPosition` | widgets/refreshMenu/controller/layout.ts:35-43 | a missing or unreadable file gives Bottom; otherwise the result is the parsed contents |
| `Layout.PersistPosition` | widgets/refreshMenu/controller/layout.ts:45-52 | after a successful write the file reads back as the written position; a failed write is ignored and leaves the file as it was |
| `Layout.NameRoundTrip` | widgets/refreshMenu/controller/layout.ts:23-48 | for every position, parsing the string written for it gives that position back |
| `Layout.ParseIgnoresTrim` | widgets/refreshMenu/controller/layout.ts:23-33 | the parse of `s` equals the parse of `trim(s)` |
| `Layout.ParseIgnoresPadding` | widgets/refreshMenu/controller/layout.ts:23-33 | white space of any length around the stored text does not change the parsed position |
| `Layout.ParsePaddedExample` | widgets/refreshMenu/controller/layout.ts:23-33 | `" left\n"` parses to Left |
| `Layout.GetFabPlacement` | widgets/refreshMenu/controller/layout.ts:155-167 | the FAB is anchored to the edge the position names, its margin on that edge is EDGE (EDGE + BOTTOM_DOCK_OFFSET for bottom, so -7), and every other margin is 0 |
| `Layout.GetMenuPlacement` | widgets/refreshMenu/controller/layout.ts:169-181 | the menu has the FAB's anchor, the edge the position names; its docked-edge margin is the FAB's plus FAB_SIZE + GAP; every other margin is 0 |
| `Layout.PlacementsAgree` | widgets/refreshMenu/controller/layout.ts:79-146 | on every edge the menu sits 66 pixels further from the docked edge than the FAB, and distinct positions anchor to distinct edges |
| `Layout.GetPositionClass` | widgets/refreshMenu/controller/layout.ts:183-185 | the class is exactly `position-` followed by the position's name, the same string that is written to the position file, and that suffix parses back to the position |
| `Layout.PositionClassInjective` | widgets/refreshMenu/controller/layout.ts:183-185 | distinct positions get distinct CSS classes |
| `Layout.Variable.constructor` | widgets/refreshMenu/controller/layout.ts:54-56 | a new cell holds `initial`, with no subscribers and no calls |
| `Layout.Variable.Get` | widgets/refreshMenu/controller/layout.ts:65 | `get` returns the current value |
| `Layout.Variable.Notify` | widgets/refreshMenu/controller/layout.ts:58-62 | the loop appends one call per subscriber, in iteration order, with the current value, and changes nothing else |
| `Layout.Variable.Set` | widgets/refreshMenu/controller/layout.ts:66-70 | the new state is `Observable.Assign` of the old state, and no subscriber is duplicated |
| `Layout.Variable.Subscribe` | widgets/refreshMenu/controller/layout.ts:71-73 | the new state is `Observable.Subscribe` of the old state |
| `Layout.Variable.Unsubscribe` | widgets/refreshMenu/controller/layout.ts:74 | the new state is `Observable.Unsubscribe` of the old state |
| `Layout.LayoutController.constructor` | widgets/refreshMenu/controller/layout.ts:148 | the `modulePosition` cell starts at the position read from the file, with no subscribers |
| `Layout.LayoutController.SetModulePosition` | widgets/refreshMenu/controller/layout.ts:150-153 | the cell is updated by `set`, so it notifies only on a change, and afterwards holds the position; the file is then persisted, and after a successful write it reads back as the cell's value |
| `MenuState.Toggled` | widgets/refreshMenu/controller/menuState.ts:25-28 | `toggle` negates the value, keeps the subscribers, and always appends one call per subscriber |
| `MenuState.Opened` | widgets/refreshMenu/controller/menuState.ts:39-41 | after `openMenu` the menu is open and the subscribers are unchanged |
| `MenuState.Closed` | widgets/refreshMenu/controller/menuState.ts:43-45 | after `closeMenu` the menu is closed and the subscribers are unchanged |
| `MenuState.ToggleIsSetOfNegation` | widgets/refreshMenu/controller/menuState.ts:20-28 | `toggle` acts exactly like `set(!value)`: on a boolean the equality check of `set` never skips it |
| `MenuState.ToggleNotifies` | widgets/refreshMenu/controller/menuState.ts:12-28 | `toggle` calls every subscriber exactly once, in order, with the new value, and calls nobody else |
| `MenuState.ToggleTwice` | widgets/refreshMenu/controller/menuState.ts:25-28 | two toggles restore the value and the subscribers, and each subscriber has received two more calls |
| `MenuState.OpenCloseIdempotent` | widgets/refreshMenu/controller/menuState.ts:39-45 | opening an open menu or closing a closed one changes nothing and calls nobody, so repeating either is a no-op |
| `MenuState.OpenCloseNotify` | widgets/refreshMenu/controller/menuState.ts:20-45 | opening a closed menu, or closing an open one, calls each subscriber exactly once |
| `MenuState.SilentRun` | widgets/refreshMenu/controller/menuState.ts:18-34 | a callback that is not subscribed is never called by a run of `set`, `toggle`, subscribe and unsubscribe operations that does not subscribe it |
| `MenuState.UnsubscribedNeverCalled` | widgets/refreshMenu/controller/menuState.ts:29-33 | after the unsubscribe function for `cb` has run, no later `set` or `toggle` reaches `cb` |
| `MenuState.BooleanVariable.constructor` | widgets/refreshMenu/controller/menuState.ts:8-10 | a new cell holds `initial`, with no subscribers and no calls |
| `MenuState.BooleanVariable.Get` | widgets/refreshMenu/controller/menuState.ts:19 | `get` returns the current value |
| `MenuState.BooleanVariable.Notify` | widgets/refreshMenu/controller/menuState.ts:12-16 | the loop appends one call per subscriber, in iteration order, with the current value, and changes nothing else |
| `MenuState.BooleanVariable.Set` | widgets/refreshMenu/controller/menuState.ts:20-24 | the new state is `Observable.Assign` of the old state |
| `MenuState.BooleanVariable.Toggle` | widgets/refreshMenu/controller/menuState.ts:25-28 | the new state is `Toggled` of the old state |
| `MenuState.BooleanVariable.Subscribe` | widgets/refreshMenu/controller/menuState.ts:29-31 | the new state is `Observable.Subscribe` of the old state |
| `MenuState.BooleanVariable.Unsubscribe` | widgets/refreshMenu/controller/menuState.ts:32 | the new state is `Observable.Unsubscribe` of the old state |
| `MenuState.CreateMenuState` | widgets/refreshMenu/controller/menuState.ts:37 | the singleton starts closed, with no subscribers and no calls |
| `MenuState.OpenMenu` | widgets/refreshMenu/controller/menuState.ts:39-41 | the new state is `Opened` of the old one |
| `MenuState.CloseMenu` | widgets/refreshMenu/controller/menuState.ts:43-45 | the new state is `Closed` of the old one |
| `MenuState.ToggleMenu` | widgets/refreshMenu/controller/menuState.ts:47-49 | the new state is `Toggled` of the old one |

## Left out

- File I/O through GLib (`STATE_DIR`, `mkdir_with_parents`, `file_get_contents`, `file_set_contents`) is not modelled. The position file is a `PositionFile`: `None` for a missing or unreadable file, which covers every exception on read, and otherwise its text. Whether a write succeeded is a parameter. A failed write leaves the old contents, because GLib replaces the file atomically.
- UTF-8 decoding by `TextDecoder` is not modelled; the file is taken to be already decoded text. The `!contents` test is true only for a null byte array. An empty file decodes to `""`, which parses to Bottom, so both cases give Bottom.
- Callbacks are opaque ids. Their effect on widgets (CSS classes, visibility) is not modelled; a call is only recorded in the trace. A callback that throws, or one that calls `set`, `subscribe` or unsubscribe on the same cell while a notification round is running, is not modelled.
- The function `subscribe` returns is modelled as the `Unsubscribe` method (and function), which takes the callback id. The boolean that `Set.delete` returns is dropped, since the source types the function as returning `void`.
- `Object.is` is modelled as Dafny equality. The two differ only for `NaN` and signed zeros, and the cells here hold only strings and booleans.
- The `default:` branches of the switches in `getFabPlacement` and `getMenuPlacement` only matter for a value outside `ModulePosition`. That can happen only through an untyped caller, so it is not modelled.
- The numeric values of `Astal.WindowAnchor` are not modelled. `Edge` names the four edges.
- `trim` treats the Unicode category Zs as it stands in current Unicode versions. A space separator added by a later Unicode version would not be covered.
- Widget construction and the GTK windows are not part of this model: widgets/fab/window.ts, widgets/refreshMenu/window.ts and the section and component files, as well as app.ts. The backdrop's visibility logic depends on a GTK revealer's asynchronous notifications. The command registry in widgets/refreshMenu/utils/commands.ts only wraps external processes. The loading guard and timer in widgets/refreshMenu/sections/refreshApps.ts exist for asynchronous interleaving.
