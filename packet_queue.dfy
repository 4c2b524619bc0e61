/** The hand-off queue between the receive completion and the polling
    consumer. The source guards `Push`, `Pop` and `PopAll` with one mutex;
    `IsQueueEmpty` reads the queue without it. Each operation is modelled as a
    single atomic step on the queue's contents. */
module PacketQueue {
  import opened Common

  /** An owned byte array holding one whole message, header included. */
  type Message = seq<byte>

  class TCPPacketQueue {
    /** The queued messages, head first. */
    var queue: seq<Message>

    constructor ()
      ensures queue == []
    {
      queue := [];
    }

    method IsQueueEmpty() returns (empty: bool)
      ensures empty <==> |queue| == 0
    {
      empty := |queue| == 0;
    }

    /** Appends a message at the tail. */
    method Push(buffer: Message)
      modifies this
      ensures queue == old(queue) + [buffer]
    {
      queue := queue + [buffer];
    }

    /** Removes and returns the head; on an empty queue returns no item and
        changes nothing. */
    method Pop() returns (item: Option<Message>)
      modifies this
      ensures old(queue) == [] ==> item == None && queue == []
      ensures old(queue) != [] ==> item == Some(old(queue)[0]) && queue == old(queue)[1..]
    {
      item := None;
      if |queue| > 0 {
        item := Some(queue[0]);
        queue := queue[1..];
      }
    }

    /** Moves every queued message, in insertion order, into the returned list
        and leaves the queue empty. */
    method PopAll() returns (retList: seq<Message>)
      modifies this
      ensures retList == old(queue)
      ensures queue == []
    {
      retList := [];
      while |queue| != 0
        invariant retList + queue == old(queue)
        decreases |queue|
      {
        if |queue| > 0 {
          var item := queue[0];
          retList := retList + [item];
          queue := queue[1..];
        }
      }
    }
  }

  /** Pushing `xs` one by one onto `q` and then draining it with `PopAll`
      yields what was queued before, then exactly the pushed messages: nothing
      lost, nothing duplicated, nothing reordered. */
  method PushesThenPopAll(q: TCPPacketQueue, xs: seq<Message>) returns (r: seq<Message>)
    modifies q
    ensures r == old(q.queue) + xs
    ensures multiset(r) == multiset(old(q.queue)) + multiset(xs)
    ensures q.queue == []
  {
    for i := 0 to |xs|
      invariant q.queue == old(q.queue) + xs[..i]
    {
      q.Push(xs[i]);
      assert xs[..i + 1] == xs[..i] + [xs[i]];
    }
    assert xs[..|xs|] == xs;
    r := q.PopAll();
  }
}
