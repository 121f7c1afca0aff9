/**
 * The DialogProvider of src/context/DialogContext.tsx: one mutable state cell,
 * `dialogs`, that each operation replaces wholesale with the next registry value.
 */
module DialogContext {
  import opened Registry

  class DialogProvider<C> {
    var dialogs: seq<DialogData<C>>

    /** The provider starts with no dialogs. */
    constructor ()
      ensures dialogs == []
    {
      dialogs := [];
    }

    method AddDialog(title: string, content: C, id: int)
      modifies this
      ensures dialogs == Registry.AddDialog(old(dialogs), title, content, id)
      ensures Ids(dialogs) == Ids(old(dialogs)) + [id]
      ensures old(UniqueIds(dialogs)) ==> (UniqueIds(dialogs) <==> !old(HasId(dialogs, id)))
    {
      dialogs := Registry.AddDialog(dialogs, title, content, id);
    }

    method CloseDialog(id: int)
      modifies this
      ensures dialogs == Registry.CloseDialog(old(dialogs), id)
      ensures Ids(dialogs) == Ids(old(dialogs))
      ensures forall i :: 0 <= i < |dialogs| ==> (dialogs[i].visible ==> old(dialogs[i].visible))
      ensures old(UniqueIds(dialogs)) ==> UniqueIds(dialogs)
    {
      dialogs := Registry.CloseDialog(dialogs, id);
    }

    method ResizeDialog(id: int, size: Size)
      modifies this
      ensures dialogs == Registry.ResizeDialog(old(dialogs), id, size)
      ensures Ids(dialogs) == Ids(old(dialogs))
      ensures forall i :: 0 <= i < |dialogs| ==> dialogs[i].visible == old(dialogs[i].visible)
      ensures old(UniqueIds(dialogs)) ==> UniqueIds(dialogs)
    {
      dialogs := Registry.ResizeDialog(dialogs, id, size);
    }
  }
}
