/**
 * The list-backed FIFO queue and LIFO stack of projects/adventure/adv.py.
 * Removing from an empty container answers `None` and changes nothing.
 */
module Containers {
  import opened Wrappers

  class Queue<T> {
    /** The Python list behind the queue; the oldest element comes first. */
    var items: seq<T>

    constructor ()
      ensures items == []
    {
      items := [];
    }

    method Enqueue(value: T)
      modifies this
      ensures items == old(items) + [value]
    {
      items := items + [value];
    }

    /** Removes and returns the oldest element (`list.pop(0)`). */
    method Dequeue() returns (r: Option<T>)
      modifies this
      ensures old(items) == [] ==> r == None && items == old(items)
      ensures old(items) != [] ==> r == Some(old(items)[0]) && items == old(items)[1..]
    {
      if Size() > 0 {
        r := Some(items[0]);
        items := items[1..];
      } else {
        r := None;
      }
    }

    function Size(): (n: nat)
      reads this
      ensures n == 0 <==> items == []
    {
      |items|
    }
  }

  class Stack<T> {
    /** The Python list behind the stack; the newest element comes last. */
    var items: seq<T>

    constructor ()
      ensures items == []
    {
      items := [];
    }

    method Push(value: T)
      modifies this
      ensures items == old(items) + [value]
    {
      items := items + [value];
    }

    /** Removes and returns the newest element (`list.pop()`). */
    method Pop() returns (r: Option<T>)
      modifies this
      ensures old(items) == [] ==> r == None && items == old(items)
      ensures old(items) != [] ==> r == Some(old(items)[|old(items)| - 1]) && items == old(items)[..|old(items)| - 1]
    {
      if Size() > 0 {
        r := Some(items[|items| - 1]);
        items := items[..|items| - 1];
      } else {
        r := None;
      }
    }

    function Size(): (n: nat)
      reads this
      ensures n == 0 <==> items == []
    {
      |items|
    }
  }
}
