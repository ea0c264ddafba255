/**
 * The bounded queue of package messaging, seen sequentially: the buffered
 * channel becomes a sequence of at most `size` items, the intake's closed
 * state a flag. Every item accepted is delivered once, in dispatch order,
 * and closing does not discard what is already buffered.
 */
module MessagingQueue {

  /** The outcome of a non-blocking receive on the delivery channel. */
  datatype Received<T> = Item(item: T) | ChannelClosed | NothingYet

  class Queue<T> {
    const size: nat
    var buffer: seq<T>
    var closed: bool
    /** Every item ever accepted, and those already handed to a consumer. */
    ghost var accepted: seq<T>
    ghost var delivered: seq<T>

    ghost predicate Valid()
      reads this
    {
      |buffer| <= size && accepted == delivered + buffer
    }

    /** NewQ(size): an empty buffer of capacity `size`, open. */
    constructor NewQ(size: nat)
      ensures Valid() && this.size == size
      ensures buffer == [] && !closed && accepted == [] && delivered == []
    {
      this.size := size;
      buffer := [];
      closed := false;
      accepted := [];
      delivered := [];
    }

    /**
     * Puts the item at the back and always answers true. A send on a closed
     * channel is a fault and a send into a full buffer waits, so the model
     * admits a dispatch only when the queue is open and has room.
     */
    method Dispatch(item: T) returns (ok: bool)
      requires Valid() && !closed && |buffer| < size
      modifies this
      ensures Valid() && ok
      ensures buffer == old(buffer) + [item] && accepted == old(accepted) + [item]
      ensures delivered == old(delivered) && closed == old(closed)
    {
      buffer := buffer + [item];
      accepted := accepted + [item];
      ok := true;
    }

    /** Closes the intake when it is still open; a second Close changes nothing. */
    method Close()
      requires Valid()
      modifies this
      ensures Valid() && closed
      ensures buffer == old(buffer) && accepted == old(accepted) && delivered == old(delivered)
    {
      if !closed {
        closed := true;
      }
    }

    /** The number of buffered items, never more than the capacity. */
    method Length() returns (n: nat)
      requires Valid()
      ensures n == |buffer| && n <= size
    {
      n := |buffer|;
    }

    /**
     * A non-blocking receive: the front item while one is buffered, even
     * after Close; the closed signal only once the buffer is drained.
     */
    method Receive() returns (r: Received<T>)
      requires Valid()
      modifies this
      ensures Valid() && closed == old(closed) && accepted == old(accepted)
      ensures old(buffer) != [] ==>
        r == Item(old(buffer)[0]) && buffer == old(buffer)[1..] && delivered == old(delivered) + [r.item]
      ensures old(buffer) == [] ==>
        buffer == [] && delivered == old(delivered) && r == (if closed then ChannelClosed else NothingYet)
    {
      if buffer != [] {
        r := Item(buffer[0]);
        delivered := delivered + [buffer[0]];
        buffer := buffer[1..];
      } else if closed {
        r := ChannelClosed;
      } else {
        r := NothingYet;
      }
    }
  }

  /**
   * Dispatching items into a queue with room for them all, closing it and
   * then receiving until it reports closed yields exactly those items, in
   * order.
   */
  method DrainAfterClose<T>(items: seq<T>, size: nat) returns (received: seq<T>)
    requires |items| <= size
    ensures received == items
  {
    var q := new Queue<T>.NewQ(size);
    for i := 0 to |items|
      invariant q.Valid() && !q.closed && q.buffer == items[..i] && q.delivered == []
    {
      var _ := q.Dispatch(items[i]);
    }
    assert items[..|items|] == items;
    q.Close();
    received := [];
    var r := q.Receive();
    while r != ChannelClosed
      invariant q.Valid() && q.closed && q.accepted == items
      invariant r != NothingYet && (r == ChannelClosed ==> q.buffer == [])
      invariant q.delivered == received + (if r.Item? then [r.item] else [])
      decreases |q.buffer| + (if r.Item? then 1 else 0)
    {
      received := received + [r.item];
      r := q.Receive();
    }
  }
}
