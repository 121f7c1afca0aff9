/**
 * The dialog registry of src/context/DialogContext.tsx: an ordered sequence of
 * dialog records and the three pure transitions that addDialog, closeDialog and
 * resizeDialog hand to setDialogs.
 */
module Registry {
  import opened Constants

  datatype Position = Position(x: int, y: int)
  datatype Size = Size(width: int, height: int)

  /** One dialog record; `content` is the caller's payload, never inspected. */
  datatype DialogData<C> = DialogData(
    id: int,
    position: Position,
    content: C,
    title: string,
    visible: bool,
    size: Size)

  /** The size every new dialog gets, whatever the configured defaults are. */
  const NEW_DIALOG_SIZE: Size := Size(300, 200)

  function Last<C>(dialogs: seq<DialogData<C>>): (d: DialogData<C>)
    requires |dialogs| > 0
  {
    dialogs[|dialogs| - 1]
  }

  /** The y coordinate of a dialog's bottom edge. */
  function Bottom<C>(d: DialogData<C>): (y: int) {
    d.position.y + d.size.height
  }

  /** The ids of the records, in registry order. */
  function Ids<C>(dialogs: seq<DialogData<C>>): (ids: seq<int>)
    ensures |ids| == |dialogs|
  {
    seq(|dialogs|, i requires 0 <= i < |dialogs| => dialogs[i].id)
  }

  predicate HasId<C>(dialogs: seq<DialogData<C>>, id: int) {
    exists i :: 0 <= i < |dialogs| && dialogs[i].id == id
  }

  predicate UniqueIds<C>(dialogs: seq<DialogData<C>>) {
    forall i, j :: 0 <= i < j < |dialogs| ==> dialogs[i].id != dialogs[j].id
  }

  /** Where addDialog places the next record: under the last one, visible or not. */
  function CascadePosition<C>(dialogs: seq<DialogData<C>>): (p: Position) {
    if |dialogs| == 0 then Position(DEFAULT_X, DEFAULT_Y)
    else Position(Last(dialogs).position.x, Bottom(Last(dialogs)) + GAP)
  }

  /** addDialog: append a visible 300x200 record placed by the cascade rule. */
  function AddDialog<C>(dialogs: seq<DialogData<C>>, title: string, content: C, id: int)
    : (r: seq<DialogData<C>>)
    ensures |r| == |dialogs| + 1
    ensures r[..|dialogs|] == dialogs
    ensures Last(r).id == id && Last(r).title == title && Last(r).content == content
    ensures Last(r).visible && Last(r).size == Size(300, 200)
    ensures |dialogs| == 0 ==> Last(r).position == Position(DEFAULT_X, DEFAULT_Y)
    ensures |dialogs| > 0 ==>
      Last(r).position.x == Last(dialogs).position.x &&
      Last(r).position.y - Bottom(Last(dialogs)) == GAP
  {
    dialogs + [DialogData(id, CascadePosition(dialogs), content, title, true, NEW_DIALOG_SIZE)]
  }

  /** closeDialog: every record with this id becomes invisible; nothing is removed. */
  function CloseDialog<C>(dialogs: seq<DialogData<C>>, id: int): (r: seq<DialogData<C>>)
    ensures |r| == |dialogs|
    ensures forall i :: 0 <= i < |r| ==>
      r[i] == dialogs[i].(visible := dialogs[i].visible && dialogs[i].id != id)
  {
    seq(|dialogs|, i requires 0 <= i < |dialogs| =>
      if dialogs[i].id == id then dialogs[i].(visible := false) else dialogs[i])
  }

  /** resizeDialog: every record with this id takes the given size, unclamped. */
  function ResizeDialog<C>(dialogs: seq<DialogData<C>>, id: int, size: Size)
    : (r: seq<DialogData<C>>)
    ensures |r| == |dialogs|
    ensures forall i :: 0 <= i < |r| ==>
      r[i] == dialogs[i].(size := r[i].size) &&
      (dialogs[i].id == id ==> r[i].size == size) &&
      (dialogs[i].id != id ==> r[i].size == dialogs[i].size)
  {
    seq(|dialogs|, i requires 0 <= i < |dialogs| =>
      if dialogs[i].id == id then dialogs[i].(size := size) else dialogs[i])
  }
}
