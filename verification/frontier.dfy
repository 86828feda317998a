/** The frontier container of the two searches, as a sequence. Both
    `Stack.push` and `Queue.add` put the new entry at the back of the
    sequence (the back is the top of the stack); the disciplines differ only
    in which end `Pop` takes from. */
module Frontier {
  import opened Grid

  /** Lifo is the stack of depth-first search, Fifo the queue of
      breadth-first search. */
  datatype Discipline = Lifo | Fifo

  function Push(f: seq<Cell>, c: Cell): (r: seq<Cell>)
    ensures |r| == |f| + 1 && r[..|f|] == f && r[|f|] == c
  {
    f + [c]
  }

  /** `stack.pop()` / `queue.remove()`: the entry taken and what remains. */
  function Pop(f: seq<Cell>, d: Discipline): (r: (Cell, seq<Cell>))
    requires f != []
    ensures |r.1| == |f| - 1
    ensures d == Lifo ==> f == r.1 + [r.0]
    ensures d == Fifo ==> f == [r.0] + r.1
  {
    match d
    case Lifo => (f[|f| - 1], f[..|f| - 1])
    case Fifo => (f[0], f[1..])
  }

  /** The stack hands back the entry pushed last: pop undoes push. */
  lemma StackPopUndoesPush(f: seq<Cell>, c: Cell)
    ensures Pop(Push(f, c), Lifo) == (c, f)
  {
  }

  /** The queue hands back its oldest entry whatever is pushed after it:
      push and remove commute on a non-empty queue. */
  lemma QueueRemovesOldest(f: seq<Cell>, c: Cell)
    requires f != []
    ensures Pop(Push(f, c), Fifo) == (f[0], Push(Pop(f, Fifo).1, c))
  {
    assert (f + [c])[1..] == f[1..] + [c];
  }

  /** The number of frontier entries whose cell is already explored: the
      second component of the search's termination measure. */
  function ExploredEntries(f: seq<Cell>, explored: set<Cell>): (r: nat)
    ensures r <= |f|
    ensures r == 0 <==> forall i :: 0 <= i < |f| ==> f[i] !in explored
  {
    if f == [] then 0
    else (if f[0] in explored then 1 else 0) + ExploredEntries(f[1..], explored)
  }

  lemma {:induction false} ExploredEntriesAppend(a: seq<Cell>, b: seq<Cell>, explored: set<Cell>)
    ensures ExploredEntries(a + b, explored) == ExploredEntries(a, explored) + ExploredEntries(b, explored)
    decreases |a|
  {
    if a == [] {
      assert a + b == b;
    } else {
      assert (a + b)[1..] == a[1..] + b;
      ExploredEntriesAppend(a[1..], b, explored);
    }
  }
}
