/** The insert variant of a delta: a run of revised lines that the original
    text lacks, applied to and restored from a mutable target list. */
module Deltas {
  import opened Chunks
  import opened Lists

  /** The kinds of delta a patch is made of. */
  datatype DeltaType = Change | Delete | Insert

  /** The outcome of verifying or applying a delta: `PatchFailed` is the
      PatchFailedException the delta raises. */
  datatype Outcome = Ok | PatchFailed

  /** An insert delta pairs the original chunk (where the lines go, in the
      original text) with the revised chunk (the inserted lines, and where
      they stand in the revised text). It is immutable. */
  datatype InsertDelta<T> = InsertDelta(original: Chunk<T>, revised: Chunk<T>) {

    /** The delta is of the insert kind. */
    function GetType(): (t: DeltaType)
      ensures t.Insert?
    {
      Insert
    }

    /** Accepts a target exactly when the original position is an index of
        it or its end; it reads the target and does not change it. */
    function Verify(target: seq<T>): (o: Outcome)
      ensures o.Ok? <==> original.position <= |target|
    {
      if original.position > |target| then PatchFailed else Ok
    }

    /** Verifies the target and, when it is accepted, inserts the revised
        lines at the original position one by one, in order. A refused
        target is left as it was. */
    method ApplyTo(target: MutableList<T>) returns (outcome: Outcome)
      modifies target
      ensures outcome == Verify(old(target.items))
      ensures outcome.PatchFailed? ==> target.items == old(target.items)
      ensures outcome.Ok? ==>
        target.items == Inserted(old(target.items), original.position, revised.lines)
    {
      outcome := Verify(target.items);
      if outcome.PatchFailed? {
        return;
      }
      var position := original.position;
      var lines := revised.lines;
      ghost var start := target.items;
      for i := 0 to |lines|
        invariant target.items == Inserted(start, position, lines[..i])
      {
        InsertedStep(start, position, lines, i);
        var added := target.Add(position + i, lines[i]);
        assert added;
      }
      assert lines[..|lines|] == lines;
    }

    /** Removes as many elements as the revised chunk holds, each at the
        revised position. When the target is too short the removal at that
        position raises IndexOutOfBoundsException (`ok` is false), after the
        earlier removals have already taken place. */
    method Restore(target: MutableList<T>) returns (ok: bool)
      modifies target
      ensures ok <==> revised.Size() == 0 || revised.position + revised.Size() <= |old(target.items)|
      ensures revised.position + revised.Size() <= |old(target.items)| ==>
        target.items == Removed(old(target.items), revised.position, revised.Size())
      ensures revised.Size() == 0 ==> target.items == old(target.items)
      ensures !ok ==>
        target.items == old(target.items)[..if revised.position < |old(target.items)| then revised.position else |old(target.items)|]
    {
      var position := revised.position;
      var size := revised.Size();
      ghost var start := target.items;
      ok := true;
      var i := 0;
      while i < size
        invariant 0 <= i <= size
        invariant i == 0 ==> target.items == start
        invariant i > 0 ==> position + i <= |start| && target.items == Removed(start, position, i)
      {
        ok := target.Remove(position);
        if !ok {
          return;
        }
        if i > 0 {
          RemovedStep(start, position, i);
        }
        i := i + 1;
      }
    }

    /** Restoring an applied delta whose original and revised chunks start at
        the same index gives back the target it was applied to. */
    lemma RestoreUndoesApply(target: seq<T>)
      requires original.position == revised.position
      requires Verify(target).Ok?
      ensures Removed(Inserted(target, original.position, revised.lines), revised.position, revised.Size()) == target
    {
      RemovedInserted(target, original.position, revised.lines);
    }

    /** Applying a delta to a target holding its revised lines at the
        revised position, after restoring it, gives that target back. */
    lemma ApplyUndoesRestore(target: seq<T>)
      requires original.position == revised.position
      requires revised.position + revised.Size() <= |target|
      requires target[revised.position..revised.position + revised.Size()] == revised.lines
      ensures Verify(Removed(target, revised.position, revised.Size())).Ok?
      ensures Inserted(Removed(target, revised.position, revised.Size()), original.position, revised.lines) == target
    {
      InsertedRemoved(target, revised.position, revised.lines);
    }
  }

  /** Applying a delta and then restoring it leaves the target as it was,
      when its original and revised chunks start at the same index. A
      refused delta changes nothing, and restoring it afterwards changes
      nothing either: it stops at the first removal, which finds no element
      past the end. */
  method ApplyThenRestore<T>(delta: InsertDelta<T>, target: MutableList<T>) returns (outcome: Outcome, restored: bool)
    requires delta.original.position == delta.revised.position
    modifies target
    ensures outcome == delta.Verify(old(target.items))
    ensures restored <==> outcome.Ok? || delta.revised.Size() == 0
    ensures target.items == old(target.items)
  {
    outcome := delta.ApplyTo(target);
    if outcome.Ok? {
      delta.RestoreUndoesApply(old(target.items));
    }
    restored := delta.Restore(target);
  }
}
