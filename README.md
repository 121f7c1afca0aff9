# Dialog registry of react-window-manager, in Dafny

This project models the dialog registry of the react-window-manager widget. A
`DialogProvider` holds one state cell, `dialogs`: the ordered sequence of dialog records.
Each record has an id, a position, a size, a title, an opaque content payload and a
`visible` flag. Three operations replace that sequence wholesale:

- `addDialog(title, content)` appends a visible 300x200 record. An empty registry
  places it at `(DEFAULT_X, DEFAULT_Y) = (0, 10)`. Otherwise it goes directly below the
  last record, visible or not: same `x`, and `y` equal to the last record's bottom edge
  plus `GAP = 10`.
- `closeDialog(id)` clears `visible` on every record with that id. It never removes a record.
- `resizeDialog(id, size)` replaces `size` on every record with that id. It does no clamping.

The manager component adds dialogs titled `"Dialog " + (length + 1)`, and each rendered
dialog reports its Close button back to `closeDialog`.

Files:

- `constants.dfy` (module `Constants`): the constants the registry uses.
- `registry.dfy` (module `Registry`): the record datatypes and the three transitions as pure
  functions on `seq<DialogData<C>>`, mirroring the array spread and `.map` of the source.
- `registry_laws.dfy` (module `RegistryLaws`): laws relating the transitions. These cover
  idempotence, unknown-id no-ops, commutation, cascade anchoring and id uniqueness.
- `registry_sessions.dfy` (module `Sessions`): arbitrary sequences of operations, and the
  invariants that hold over a whole session.
- `dialog_context.dfy` (module `DialogContext`): the class `DialogProvider`. Its single `seq`
  field is reassigned by methods that are specified by the functions above.
- `dialog_manager.dfy` (module `DialogManager`): the default title as a decimal numeral,
  `handleAddDialog`, and the button-driven session.

Modelling choices:

- The content payload (a JSX element in the source) is a type parameter `C`.
- The id is a caller-supplied `int`. The source takes it from the wall clock, which does
  not guarantee distinct ids. Freshness is therefore a precondition of the uniqueness
  lemmas (`AddKeepsUniqueIds`, `SessionKeepsUniqueIds`), never a promise of `addDialog`.
  `SharedIdIsClosedTogether` shows what happens when two records share an id.
- Coordinates and sizes are `int`. Every value involved is an integral constant or a sum
  of them.
- This revision has no move operation. No operation changes a position after creation.
- The new-dialog size is the literal 300x200 written in `addDialog`
  (src/context/DialogContext.tsx:50). It is not the `DEFAULT_DIALOG_WIDTH`/`HEIGHT`
  pair (400x200) that src/utils/Constants.ts:6-7 declares, which nothing reads.
- The first dialog goes to `(DEFAULT_X, DEFAULT_Y) = (0, 10)` (src/utils/Constants.ts:3-4).

## Model

| member | source | states |
|---|---|---|
| `Registry.AddDialog` | src/context/DialogContext.tsx:35-54 | the result is one longer, keeps the old records as its prefix, and ends in a visible 300x200 record with the given id, title and content; that record is at (0, 10) on an empty registry, and otherwise shares the last record's x with its top edge exactly GAP below the last record's bottom edge |
| `Registry.CloseDialog` | src/context/DialogContext.tsx:56-62 | same length; each record is unchanged except that `visible` becomes `visible && id != target`, so matching records are hidden and nothing else moves |
| `Registry.ResizeDialog` | src/context/DialogContext.tsx:64-73 | same length; each record differs from the old one at most in `size`, which is the given size on matching records and the old size on the others (no clamping) |
| `RegistryLaws.IdsAfterAdd` | src/context/DialogContext.tsx:53 | the id sequence after add is the old one followed by the new id |
| `RegistryLaws.IdsAfterClose` | src/context/DialogContext.tsx:57-61 | close leaves the id sequence unchanged: nothing is removed, reordered or renamed |
| `RegistryLaws.IdsAfterResize` | src/context/DialogContext.tsx:68-72 | resize leaves the id sequence unchanged: nothing is removed, reordered or renamed |
| `RegistryLaws.CloseIdempotent` | src/context/DialogContext.tsx:56-62 | closing an id twice gives the same registry as closing it once |
| `RegistryLaws.CloseUnknownIdIsNoop` | src/context/DialogContext.tsx:58-60 | closing an id no record carries returns the registry unchanged |
| `RegistryLaws.ResizeUnknownIdIsNoop` | src/context/DialogContext.tsx:68-72 | resizing an id no record carries returns the registry unchanged |
| `RegistryLaws.ResizeLastWins` | src/context/DialogContext.tsx:64-73 | resizing an id twice equals resizing it once to the second size |
| `RegistryLaws.CloseResizeCommute` | src/context/DialogContext.tsx:56-73 | close and resize commute, for any two ids |
| `RegistryLaws.CloseKeepsCascadeAnchor` | src/context/DialogContext.tsx:36-42 | closing any dialog does not change where the next added dialog is placed: a closed last record still anchors the cascade |
| `RegistryLaws.ResizeThenAddCascadesFromNewHeight` | src/context/DialogContext.tsx:36-42 | after resizing the last record to `s`, reading it yields `s`, and the next dialog goes at (last.x, last.y + s.height + GAP) |
| `RegistryLaws.AddKeepsUniqueIds` | src/context/DialogContext.tsx:44-53 | on a registry with distinct ids, the ids stay distinct after add if and only if the new id is not already present |
| `RegistryLaws.CloseKeepsUniqueIds` | src/context/DialogContext.tsx:56-62 | close keeps distinct ids distinct |
| `RegistryLaws.ResizeKeepsUniqueIds` | src/context/DialogContext.tsx:64-73 | resize keeps distinct ids distinct |
| `RegistryLaws.SharedIdIsClosedTogether` | src/context/DialogContext.tsx:58-70 | when two records share an id, one close hides both and one resize resizes both |
| `RegistryLaws.CascadeBelowExample` | src/context/DialogContext.tsx:36-41 | a last record at (100,100) sized 400x250 puts the next dialog at (100,360) |
| `RegistryLaws.EndToEndScenario` | src/context/DialogContext.tsx:35-73 | add "A" lands at (0,10); add "B" lands at (0,220); closing A hides it and leaves B alone; resizing B to 450x220 sets that size and leaves A alone |
| `Sessions.IdsAfterApply` | src/context/DialogContext.tsx:53-71 | one operation appends the new id if it is an add and otherwise leaves the id sequence unchanged |
| `Sessions.SessionLength` | src/context/DialogContext.tsx:33-73 | after any sequence of operations the length has grown by exactly the number of adds |
| `Sessions.SessionKeepsOrder` | src/context/DialogContext.tsx:33-73 | after any sequence of operations the length grows by exactly the number of adds, and the id sequence is the old ids followed by the ids of the adds in the order the adds were made (nothing removed or reordered) |
| `Sessions.ClosedStaysClosed` | src/context/DialogContext.tsx:56-73 | a record that is not visible stays not visible after any sequence of operations (visible goes only from true to false) |
| `Sessions.SessionKeepsUniqueIds` | src/context/DialogContext.tsx:44-73 | distinct ids stay distinct through any session in which every add brings an id not yet present |
| `Sessions.ApplyKeepsStacked` | src/context/DialogContext.tsx:36-61 | one add or close keeps the layout in which record k is 300x200 at (0, 10 + 210k) |
| `Sessions.SessionStacks` | src/context/DialogContext.tsx:35-62 | any session without resizes keeps that layout |
| `Sessions.CascadeFromEmpty` | src/context/DialogContext.tsx:36-50 | starting from an empty registry without resizes, record k sits at (0, 10 + 210k) whether or not earlier records were closed |
| `DialogContext.DialogProvider.constructor` | src/context/DialogContext.tsx:33 | the state cell starts as the empty sequence |
| `DialogContext.DialogProvider.AddDialog` | src/context/DialogContext.tsx:35-54 | the new state is the add transition of the old one; the ids gain exactly the new id at the end; distinct ids stay distinct if and only if the id is fresh |
| `DialogContext.DialogProvider.CloseDialog` | src/context/DialogContext.tsx:56-62 | the new state is the close transition of the old one; ids and order unchanged; no record becomes visible; distinct ids stay distinct |
| `DialogContext.DialogProvider.ResizeDialog` | src/context/DialogContext.tsx:64-73 | the new state is the resize transition of the old one; ids, order and visibility unchanged; distinct ids stay distinct |
| `DialogManager.DecimalString` | src/components/DialogManager.tsx:10 | the number rendered in the title is a non-empty string of decimal digits with a leading zero only for 0 |
| `DialogManager.DecimalRoundTrip` | src/components/DialogManager.tsx:10 | reading back the rendered numeral gives the number |
| `DialogManager.DefaultTitle` | src/components/DialogManager.tsx:10 | the title is "Dialog " followed by digits, without a leading zero, denoting the length plus one |
| `DialogManager.DefaultTitleInjective` | src/components/DialogManager.tsx:10 | different registry lengths give different default titles |
| `DialogManager.HandleAddDialog` | src/components/DialogManager.tsx:9-11 | the Add button appends exactly the record `addDialog` builds (visible, 300x200, given id and content, cascade position), and its title is exactly the default title for the old length: "Dialog " followed by the numeral, without leading zero, of the new length (its 1-based ordinal) |
| `DialogManager.ClicksTitleByOrdinal` | src/components/DialogManager.tsx:9-26 | any sequence of Add and Close clicks keeps every record k titled "Dialog k+1" |
| `DialogManager.ClickTitlesDistinct` | src/components/DialogManager.tsx:9-26 | in a registry built by the buttons from empty, titles are pairwise distinct |

## Left out

- Id generation from `Date.now()` (src/context/DialogContext.tsx:45): it depends on the clock. The id is an input to the model, and the model does not claim it is unique.
- React state semantics: `setDialogs` batching, and the stale `dialogs` closure that `addDialog` reads (line 36). Operations are modelled as applied one at a time, in order.
- The `useDialogContext` guard that throws outside a provider (src/context/DialogContext.tsx:22-28): this is context wiring, not registry logic.
- Rendering: `Dialog.tsx`, `DialogDebugInfo.tsx`, `App.tsx`, the JSX of `DialogManager.tsx`, the hiding of invisible dialogs (Dialog.tsx:14), and dragging through `react-draggable`. Dragging is a foreign library whose position changes never reach the registry in this revision.
- `resizeDialog` is passed as `onResize`, but `Dialog` does not take that prop, so no button drives it. The button-driven session in `DialogManager` therefore has only add and close clicks. Resizing is modelled through the registry and the provider class.
- Constants the registry does not read: the MIN/MAX dimensions, `RESIZE_GRID_SIZE`, `RESIZE_HANDLE_SIZE`, `DIALOG_HEADER_HEIGHT` and `DEFAULT_DIALOG_WIDTH`/`HEIGHT` (src/utils/Constants.ts:6-17).
- JavaScript number semantics: floating point and `===` on numbers are modelled as unbounded integers and integer equality.
