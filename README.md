# Insert delta of a line diff

This project models `InsertDelta<T>` from the difflib package
(`gtc/src/difflib/InsertDelta.java`): the delta that records a run of lines
present in the revised text and absent from the original one. An insert
delta pairs an *original* chunk (the index in the original text where the
lines go) with a *revised* chunk (the inserted lines, and the index where they
stand in the revised text), and acts on a mutable target list:

- `verify` refuses the target (PatchFailedException) when the original
  position is past its end; appending at the very end is accepted;
- `applyTo` verifies first and then inserts the revised lines one by one at
  `position + i`, so the target becomes prefix ++ lines ++ suffix;
- `restore` removes `revised.size()` elements, each at the revised position;
- `getType` reports the INSERT kind.

Layout:

- `chunks.dfy` (module `Chunks`): the chunk, a start position and its lines,
  with the `size()` accessor the delta uses.
- `lists.dfy` (module `Lists`): the target list as a class `MutableList`
  whose field `items` the positional `Add` and `Remove` change in place (as
  `java.util.List.add(int, E)` and `remove(int)` do, including their
  IndexOutOfBoundsException, reported as `ok == false` with nothing changed),
  and the two specification functions `Inserted` (a splice) and `Removed` (a
  cut) with the lemmas that connect them.
- `insert_delta.dfy` (module `Deltas`): the delta as an immutable datatype
  whose constructor stores the two chunks (`InsertDelta.java:79-81`), with
  `Verify` and `GetType` as functions and `ApplyTo` and `Restore` as methods
  whose loops change the target list in place.

`Verify` is a function of the target's contents, so it cannot change the
target and gives the same outcome every time it is asked about the same
target. `ApplyTo` reports its outcome through the `Outcome` datatype (`Ok` or
`PatchFailed`) instead of an exception.

`restore` does not check the target first: `target.remove(position)`
(`InsertDelta.java:106`) throws IndexOutOfBoundsException once the position
no longer holds an element, after the earlier removals have already taken
place. `Restore` reports that as `ok == false` and leaves the target as those
removals made it: the original target cut off at the revised position, or
unchanged when that position is past the end.

## Model

| member | source | states |
|---|---|---|
| `Chunks.Chunk.Size` | gtc/src/difflib/InsertDelta.java:104 | a chunk's size is the number of its lines |
| `Lists.Inserted` | gtc/src/difflib/InsertDelta.java:91-95 | splicing lines in at p grows the list by exactly their number, keeps every element before p, puts the lines in order from p, and shifts every element from p on right by their number unchanged |
| `Lists.Removed` | gtc/src/difflib/InsertDelta.java:103-107 | cutting n elements at q shrinks the list by n, keeps every element before q and moves every element from q+n on left by n unchanged |
| `Lists.InsertedStep` | gtc/src/difflib/InsertDelta.java:93-94 | inserting the i-th line at position + i after the first i lines have been inserted yields the splice of the first i + 1 lines (the insertion loop keeps the lines in order) |
| `Lists.RemovedStep` | gtc/src/difflib/InsertDelta.java:105-107 | one more removal at q after i removals there yields the cut of i + 1 elements at q |
| `Lists.RemovedInserted` | gtc/src/difflib/InsertDelta.java:89-107 | cutting out a run just spliced in at the same index gives back the list it was spliced into |
| `Lists.InsertedRemoved` | gtc/src/difflib/InsertDelta.java:89-107 | splicing back the run that was cut out at the same index gives back the list it was cut from |
| `Lists.InsertedElements` | gtc/src/difflib/InsertDelta.java:91-95 | the spliced list holds, as a multiset, exactly the old elements plus the inserted lines: nothing is lost or duplicated |
| `Lists.RemovedElements` | gtc/src/difflib/InsertDelta.java:103-107 | the cut list together with the removed run holds, as a multiset, exactly the old elements: only the run's elements are lost |
| `Lists.MutableList.Add` | gtc/src/difflib/InsertDelta.java:94 | `target.add(index, e)` succeeds exactly when index is at most the size and then splices the one element in at index; otherwise nothing changes |
| `Lists.MutableList.Remove` | gtc/src/difflib/InsertDelta.java:106 | `target.remove(index)` succeeds exactly when index is below the size and then cuts the one element at index; otherwise nothing changes |
| `Deltas.InsertDelta.GetType` | gtc/src/difflib/InsertDelta.java:119-121 | the delta is of the INSERT kind |
| `Deltas.InsertDelta.Verify` | gtc/src/difflib/InsertDelta.java:111-117 | verification succeeds exactly when the original position is at most the target size (append at the end included) and fails (PatchFailed) exactly when it is past the end |
| `Deltas.InsertDelta.ApplyTo` | gtc/src/difflib/InsertDelta.java:89-96 | the outcome is that of verifying the target before any change; on failure the target is unchanged; on success it is the old target with the revised lines spliced in, in order, at the original position |
| `Deltas.InsertDelta.Restore` | gtc/src/difflib/InsertDelta.java:102-108 | completes exactly when there is nothing to remove or the revised run lies within the target, and then the target is the old one with `revised.size()` elements cut at the revised position; otherwise it reports IndexOutOfBoundsException with the target cut off at the revised position, or unchanged when that position is past the end |
| `Deltas.InsertDelta.RestoreUndoesApply` | gtc/src/difflib/InsertDelta.java:89-107 | when both chunks start at the same index and verification succeeds, restoring the applied target gives back the original target |
| `Deltas.InsertDelta.ApplyUndoesRestore` | gtc/src/difflib/InsertDelta.java:89-107 | when both chunks start at the same index and the target holds the revised lines there, the restored target passes verification and applying the delta to it gives back the target |
| `Deltas.ApplyThenRestore` | gtc/src/difflib/InsertDelta.java:89-107 | applying the delta to a list object and then restoring it, unconditionally, leaves the list as it was whether or not verification succeeds; the restore completes exactly when the apply did or there is nothing to remove |

## Left out

- `toString` (`InsertDelta.java:123-128`): string formatting only.
- The text of the PatchFailedException message: a failure is the `PatchFailed` outcome.
- The classes `Delta`, `Chunk`, `Patch` and `PatchFailedException` are not part of this model beyond what the insert delta uses: a chunk's position, lines and size, and the delta kinds. The delete and change deltas and the order in which a patch applies its deltas are not modelled.
- Chunk positions are natural numbers: a negative position, which the Java `int` would allow, is not modelled.
- Java `int` width: positions and sizes are unbounded; `position + i` cannot overflow in the source either, since it never exceeds the size of a list.
- `Lists.MutableList.Remove` does not return the removed element, which `restore` ignores.
- The target list is assumed to share no storage with the revised chunk's lines. In the source `lines` is the chunk's own list, re-read on every pass (`InsertDelta.java:92-94`): applying a delta to that very list would never terminate, and applying it to a list of which `lines` is a view would raise ConcurrentModificationException. Here the lines are a value, so neither can happen.
- The list implementation (array-backed or linked) and generic erasure: the target is an abstract sequence with positional insertion and removal.
