/** The target of a delta: a mutable list with positional insertion and
    removal, as java.util.List offers them, and the two splices that a run of
    such insertions or removals amounts to. */
module Lists {

  /** `s` with `lines` spliced in at index `p`. */
  function Inserted<T>(s: seq<T>, p: nat, lines: seq<T>): (r: seq<T>)
    requires p <= |s|
    ensures |r| == |s| + |lines|
    ensures forall k :: 0 <= k < p ==> r[k] == s[k]
    ensures forall k :: 0 <= k < |lines| ==> r[p + k] == lines[k]
    ensures forall k :: p <= k < |s| ==> r[k + |lines|] == s[k]
  {
    s[..p] + lines + s[p..]
  }

  /** `s` without the `n` elements that start at index `q`. */
  function Removed<T>(s: seq<T>, q: nat, n: nat): (r: seq<T>)
    requires q + n <= |s|
    ensures |r| == |s| - n
    ensures forall k :: 0 <= k < q ==> r[k] == s[k]
    ensures forall k :: q <= k < |r| ==> r[k] == s[k + n]
  {
    s[..q] + s[q + n..]
  }

  /** Inserting the elements of `lines` one at a time, the i-th at index
      `p + i`, builds the splice up in order. */
  lemma InsertedStep<T>(s: seq<T>, p: nat, lines: seq<T>, i: nat)
    requires p <= |s| && i < |lines|
    ensures p + i <= |Inserted(s, p, lines[..i])|
    ensures Inserted(Inserted(s, p, lines[..i]), p + i, [lines[i]]) == Inserted(s, p, lines[..i + 1])
  {
  }

  /** Removing at index `q` once more after `i` removals there removes the
      next element of the original run. */
  lemma RemovedStep<T>(s: seq<T>, q: nat, i: nat)
    requires q + i < |s|
    ensures q < |Removed(s, q, i)|
    ensures Removed(Removed(s, q, i), q, 1) == Removed(s, q, i + 1)
  {
  }

  /** Removing the spliced-in run again gives back the sequence it was
      spliced into. */
  lemma RemovedInserted<T>(s: seq<T>, p: nat, lines: seq<T>)
    requires p <= |s|
    ensures Removed(Inserted(s, p, lines), p, |lines|) == s
  {
  }

  /** Splicing a removed run back in at the same index restores the
      sequence: removal is undone by insertion of what was there. */
  lemma InsertedRemoved<T>(s: seq<T>, q: nat, lines: seq<T>)
    requires q + |lines| <= |s| && s[q..q + |lines|] == lines
    ensures Inserted(Removed(s, q, |lines|), q, lines) == s
  {
  }

  /** The splice holds exactly the old elements and the spliced-in ones:
      nothing is lost or duplicated. */
  lemma InsertedElements<T>(s: seq<T>, p: nat, lines: seq<T>)
    requires p <= |s|
    ensures multiset(Inserted(s, p, lines)) == multiset(s) + multiset(lines)
  {
    assert s == s[..p] + s[p..];
  }

  /** The cut loses exactly the elements of the run it removes. */
  lemma RemovedElements<T>(s: seq<T>, q: nat, n: nat)
    requires q + n <= |s|
    ensures multiset(Removed(s, q, n)) + multiset(s[q..q + n]) == multiset(s)
  {
    assert s == s[..q] + s[q..q + n] + s[q + n..];
  }

  /** A list whose elements are changed in place by positional insertion
      and removal. */
  class MutableList<T> {
    var items: seq<T>

    constructor (initial: seq<T>)
      ensures items == initial
    {
      items := initial;
    }

    /** Inserts `element` at `index`, shifting the elements from `index` on
        one place to the right; an index past the end is refused (the
        IndexOutOfBoundsException of java.util.List.add) and nothing
        changes. */
    method Add(index: nat, element: T) returns (ok: bool)
      modifies this
      ensures ok <==> index <= |old(items)|
      ensures items == if ok then Inserted(old(items), index, [element]) else old(items)
    {
      ok := index <= |items|;
      if ok {
        items := items[..index] + [element] + items[index..];
      }
    }

    /** Removes the element at `index`, shifting the later elements one place
        to the left; an index that holds no element is refused (the
        IndexOutOfBoundsException of java.util.List.remove) and nothing
        changes. */
    method Remove(index: nat) returns (ok: bool)
      modifies this
      ensures ok <==> index < |old(items)|
      ensures items == if ok then Removed(old(items), index, 1) else old(items)
    {
      ok := index < |items|;
      if ok {
        items := items[..index] + items[index + 1..];
      }
    }
  }
}
