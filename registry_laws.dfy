/** Laws relating the registry transitions of DialogContext.tsx to one another. */
module RegistryLaws {
  import opened Constants
  import opened Registry

  /** The registry order is creation order: add appends the new id, and nothing else moves. */
  lemma IdsAfterAdd<C>(dialogs: seq<DialogData<C>>, title: string, content: C, id: int)
    ensures Ids(AddDialog(dialogs, title, content, id)) == Ids(dialogs) + [id]
  {
  }

  /** Closing neither removes, reorders nor renames a record. */
  lemma IdsAfterClose<C>(dialogs: seq<DialogData<C>>, id: int)
    ensures Ids(CloseDialog(dialogs, id)) == Ids(dialogs)
  {
  }

  /** Resizing neither removes, reorders nor renames a record. */
  lemma IdsAfterResize<C>(dialogs: seq<DialogData<C>>, id: int, size: Size)
    ensures Ids(ResizeDialog(dialogs, id, size)) == Ids(dialogs)
  {
  }

  /** Closing twice is closing once. */
  lemma CloseIdempotent<C>(dialogs: seq<DialogData<C>>, id: int)
    ensures CloseDialog(CloseDialog(dialogs, id), id) == CloseDialog(dialogs, id)
  {
  }

  /** An id no record carries leaves the registry as it was. */
  lemma CloseUnknownIdIsNoop<C>(dialogs: seq<DialogData<C>>, id: int)
    requires !HasId(dialogs, id)
    ensures CloseDialog(dialogs, id) == dialogs
  {
  }

  lemma ResizeUnknownIdIsNoop<C>(dialogs: seq<DialogData<C>>, id: int, size: Size)
    requires !HasId(dialogs, id)
    ensures ResizeDialog(dialogs, id, size) == dialogs
  {
  }

  /** Only the latest size given to an id survives. */
  lemma ResizeLastWins<C>(dialogs: seq<DialogData<C>>, id: int, first: Size, second: Size)
    ensures ResizeDialog(ResizeDialog(dialogs, id, first), id, second)
         == ResizeDialog(dialogs, id, second)
  {
  }

  /** Close touches only `visible` and resize only `size`, so their order does not matter. */
  lemma CloseResizeCommute<C>(dialogs: seq<DialogData<C>>, closed: int, resized: int, size: Size)
    ensures CloseDialog(ResizeDialog(dialogs, resized, size), closed)
         == ResizeDialog(CloseDialog(dialogs, closed), resized, size)
  {
  }

  /** Closing never moves where the next dialog goes: a closed last record still anchors it. */
  lemma CloseKeepsCascadeAnchor<C>(dialogs: seq<DialogData<C>>, closed: int,
                                       title: string, content: C, id: int)
    ensures Last(AddDialog(CloseDialog(dialogs, closed), title, content, id)).position
         == Last(AddDialog(dialogs, title, content, id)).position
  {
  }

  /** After resizing the last record, the next dialog cascades from the new height. */
  lemma ResizeThenAddCascadesFromNewHeight<C>(dialogs: seq<DialogData<C>>, size: Size,
                                                  title: string, content: C, id: int)
    requires |dialogs| > 0
    ensures var resized := ResizeDialog(dialogs, Last(dialogs).id, size);
      Last(resized).size == size &&
      Last(AddDialog(resized, title, content, id)).position
        == Position(Last(dialogs).position.x, Last(dialogs).position.y + size.height + GAP)
  {
  }

  /** addDialog keeps ids pairwise distinct exactly when the new id is fresh. */
  lemma AddKeepsUniqueIds<C>(dialogs: seq<DialogData<C>>, title: string, content: C, id: int)
    requires UniqueIds(dialogs)
    ensures UniqueIds(AddDialog(dialogs, title, content, id)) <==> !HasId(dialogs, id)
  {
  }

  lemma CloseKeepsUniqueIds<C>(dialogs: seq<DialogData<C>>, id: int)
    requires UniqueIds(dialogs)
    ensures UniqueIds(CloseDialog(dialogs, id))
  {
  }

  lemma ResizeKeepsUniqueIds<C>(dialogs: seq<DialogData<C>>, id: int, size: Size)
    requires UniqueIds(dialogs)
    ensures UniqueIds(ResizeDialog(dialogs, id, size))
  {
  }

  /**
   * Ids come from the clock and may repeat; when two records share an id, one
   * close hides both and one resize resizes both.
   */
  lemma SharedIdIsClosedTogether<C>(dialogs: seq<DialogData<C>>, i: nat, j: nat, size: Size)
    requires i < j < |dialogs| && dialogs[i].id == dialogs[j].id
    ensures !CloseDialog(dialogs, dialogs[i].id)[i].visible
    ensures !CloseDialog(dialogs, dialogs[i].id)[j].visible
    ensures ResizeDialog(dialogs, dialogs[i].id, size)[i].size == size
    ensures ResizeDialog(dialogs, dialogs[i].id, size)[j].size == size
  {
  }

  /** For example, a last record at (100,100) sized 400x250 puts the next one at (100,360). */
  lemma CascadeBelowExample<C>(last: DialogData<C>, title: string, content: C, id: int)
    requires last.position == Position(100, 100) && last.size == Size(400, 250)
    ensures Last(AddDialog([last], title, content, id)).position == Position(100, 360)
  {
  }

  /** Add "A", add "B", close the first, resize the second to 450x220. */
  lemma EndToEndScenario<C>(a: C, b: C)
    ensures
      var s1 := AddDialog([], "A", a, 1);
      var s2 := AddDialog(s1, "B", b, 2);
      var s3 := CloseDialog(s2, 1);
      var s4 := ResizeDialog(s3, 2, Size(450, 220));
      s1[0].position == Position(DEFAULT_X, DEFAULT_Y) && s1[0].title == "A" &&
      s2[1].position == Position(0, 220) && s2[1].title == "B" &&
      !s3[0].visible && s3[1] == s2[1] &&
      s4[1].size == Size(450, 220) && s4[0] == s3[0]
  {
  }
}
