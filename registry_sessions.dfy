/**
 * A session of the registry: the dialogs state cell of DialogContext.tsx after a
 * sequence of addDialog, closeDialog and resizeDialog calls, applied one at a time.
 */
module Sessions {
  import opened Constants
  import opened Registry
  import opened RegistryLaws

  datatype Op<C> =
    | Add(title: string, content: C, id: int)
    | Close(id: int)
    | Resize(id: int, size: Size)

  function Apply<C>(dialogs: seq<DialogData<C>>, op: Op<C>): (r: seq<DialogData<C>>) {
    match op
    case Add(title, content, id) => AddDialog(dialogs, title, content, id)
    case Close(id) => CloseDialog(dialogs, id)
    case Resize(id, size) => ResizeDialog(dialogs, id, size)
  }

  function ApplyAll<C>(dialogs: seq<DialogData<C>>, ops: seq<Op<C>>): (r: seq<DialogData<C>>)
    decreases |ops|
  {
    if ops == [] then dialogs else ApplyAll(Apply(dialogs, ops[0]), ops[1..])
  }

  function AddCount<C>(ops: seq<Op<C>>): (n: nat) {
    if ops == [] then 0 else (if ops[0].Add? then 1 else 0) + AddCount(ops[1..])
  }

  /** The ids the adds of a session bring, in the order of the adds. */
  function AddedIds<C>(ops: seq<Op<C>>): (ids: seq<int>) {
    if ops == [] then [] else StepIds(ops[0]) + AddedIds(ops[1..])
  }

  /** Every add in the session brings an id that no record already carries. */
  predicate FreshAdds<C>(dialogs: seq<DialogData<C>>, ops: seq<Op<C>>)
    decreases |ops|
  {
    ops == [] ||
    ((ops[0].Add? ==> !HasId(dialogs, ops[0].id)) &&
     FreshAdds(Apply(dialogs, ops[0]), ops[1..]))
  }

  predicate NoResize<C>(ops: seq<Op<C>>) {
    forall i :: 0 <= i < |ops| ==> !ops[i].Resize?
  }

  /**
   * The registry as untouched by resizes leaves it: every record keeps the new-dialog
   * size and the k-th sits k steps of height plus gap below the default origin.
   */
  predicate Stacked<C>(dialogs: seq<DialogData<C>>) {
    forall k :: 0 <= k < |dialogs| ==>
      dialogs[k].size == NEW_DIALOG_SIZE &&
      dialogs[k].position == Position(DEFAULT_X, DEFAULT_Y + k * (NEW_DIALOG_SIZE.height + GAP))
  }

  /** The ids one operation appends: the new id for an add, none otherwise. */
  function StepIds<C>(op: Op<C>): (ids: seq<int>) {
    if op.Add? then [op.id] else []
  }

  lemma IdsAfterApply<C>(dialogs: seq<DialogData<C>>, op: Op<C>)
    ensures Ids(Apply(dialogs, op)) == Ids(dialogs) + StepIds(op)
  {
    match op {
      case Add(title, content, id) => IdsAfterAdd(dialogs, title, content, id);
      case Close(id) => IdsAfterClose(dialogs, id);
      case Resize(id, size) => IdsAfterResize(dialogs, id, size);
    }
  }

  /** A session grows the registry by exactly one record per add. */
  lemma {:induction false} SessionLength<C>(dialogs: seq<DialogData<C>>, ops: seq<Op<C>>)
    ensures |ApplyAll(dialogs, ops)| == |dialogs| + AddCount(ops)
    decreases |ops|
  {
    if ops != [] {
      SessionLength(Apply(dialogs, ops[0]), ops[1..]);
    }
  }

  /**
   * Records are never removed or reordered: the ids after a session are the old ids
   * followed by the ids of its adds, in the order of the adds.
   */
  lemma {:induction false} SessionKeepsOrder<C>(dialogs: seq<DialogData<C>>, ops: seq<Op<C>>)
    ensures |ApplyAll(dialogs, ops)| == |dialogs| + AddCount(ops)
    ensures Ids(ApplyAll(dialogs, ops)) == Ids(dialogs) + AddedIds(ops)
    decreases |ops|
  {
    SessionLength(dialogs, ops);
    if ops != [] {
      var next := Apply(dialogs, ops[0]);
      IdsAfterApply(dialogs, ops[0]);
      SessionKeepsOrder(next, ops[1..]);
      calc {
        Ids(ApplyAll(dialogs, ops));
        Ids(ApplyAll(next, ops[1..]));
        Ids(next) + AddedIds(ops[1..]);
        (Ids(dialogs) + StepIds(ops[0])) + AddedIds(ops[1..]);
        Ids(dialogs) + (StepIds(ops[0]) + AddedIds(ops[1..]));
        Ids(dialogs) + AddedIds(ops);
      }
    }
  }

  /** Visibility only goes from true to false: a closed record stays closed. */
  lemma {:induction false} ClosedStaysClosed<C>(dialogs: seq<DialogData<C>>, ops: seq<Op<C>>, k: nat)
    requires k < |dialogs| && !dialogs[k].visible
    ensures k < |ApplyAll(dialogs, ops)| && !ApplyAll(dialogs, ops)[k].visible
    decreases |ops|
  {
    if ops != [] {
      var next := Apply(dialogs, ops[0]);
      assert next[k].visible == dialogs[k].visible by {
        if ops[0].Add? {
          assert next[k] == next[..|dialogs|][k];
        }
      }
      ClosedStaysClosed(next, ops[1..], k);
    }
  }

  /** Ids stay pairwise distinct for as long as every add brings a fresh one. */
  lemma {:induction false} SessionKeepsUniqueIds<C>(dialogs: seq<DialogData<C>>, ops: seq<Op<C>>)
    requires UniqueIds(dialogs) && FreshAdds(dialogs, ops)
    ensures UniqueIds(ApplyAll(dialogs, ops))
    decreases |ops|
  {
    if ops != [] {
      match ops[0] {
        case Add(title, content, id) => AddKeepsUniqueIds(dialogs, title, content, id);
        case Close(id) => CloseKeepsUniqueIds(dialogs, id);
        case Resize(id, size) => ResizeKeepsUniqueIds(dialogs, id, size);
      }
      SessionKeepsUniqueIds(Apply(dialogs, ops[0]), ops[1..]);
    }
  }

  /** One add or close keeps the registry stacked; closed records keep their place. */
  lemma ApplyKeepsStacked<C>(dialogs: seq<DialogData<C>>, op: Op<C>)
    requires Stacked(dialogs) && !op.Resize?
    ensures Stacked(Apply(dialogs, op))
  {
  }

  /**
   * Without resizes, the k-th dialog of a session started on an empty registry is at
   * (0, 10 + 210 * k), closed or not: closing never frees a slot in the cascade.
   */
  lemma {:induction false} SessionStacks<C>(dialogs: seq<DialogData<C>>, ops: seq<Op<C>>)
    requires Stacked(dialogs) && NoResize(ops)
    ensures Stacked(ApplyAll(dialogs, ops))
    decreases |ops|
  {
    if ops != [] {
      ApplyKeepsStacked(dialogs, ops[0]);
      assert NoResize(ops[1..]) by {
        forall i | 0 <= i < |ops[1..]| ensures !ops[1..][i].Resize? {
          assert ops[1..][i] == ops[i + 1];
        }
      }
      SessionStacks(Apply(dialogs, ops[0]), ops[1..]);
    }
  }

  lemma CascadeFromEmpty<C>(ops: seq<Op<C>>, k: nat)
    requires NoResize(ops) && k < |ApplyAll([], ops)|
    ensures ApplyAll([], ops)[k].position == Position(0, 10 + 210 * k)
  {
    SessionStacks([], ops);
  }
}
