/** The slice-backed FIFO used as the old swarm's job list. */
module UtilDeque {

  class Deque<T> {
    var members: seq<T>

    /** NewDeque: no members. */
    constructor ()
      ensures members == []
    {
      members := [];
    }

    /** Appends at the back; earlier members keep their places. */
    method Insert(item: T)
      modifies this
      ensures members == old(members) + [item]
    {
      members := members + [item];
    }

    method IsEmpty() returns (empty: bool)
      ensures empty <==> |members| == 0
    {
      empty := |members| == 0;
    }

    /** Removes and returns the front member; the source indexes the first element, so it must exist. */
    method TakeOne() returns (item: T)
      requires members != []
      modifies this
      ensures item == old(members)[0] && members == old(members)[1..]
    {
      item := members[0];
      if |members| > 1 {
        members := members[1..];
      } else {
        members := [];
      }
    }
  }

  /** Inserting `items` into a new deque and taking |items| times yields `items` in order. */
  method FifoRoundTrip<T>(items: seq<T>) returns (taken: seq<T>)
    ensures taken == items
  {
    var d := new Deque<T>();
    for i := 0 to |items|
      invariant d.members == items[..i]
    {
      d.Insert(items[i]);
    }
    taken := [];
    for i := 0 to |items|
      invariant d.members == items[i..]
      invariant taken == items[..i]
    {
      var item := d.TakeOne();
      taken := taken + [item];
    }
  }
}
