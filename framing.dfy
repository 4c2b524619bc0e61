/** The frame extractor of the client controller: the `IsOneMessage` test and
    the loop of `RecvCallback` that cuts the unread region into messages,
    described here by the specification function `Frames`. */
module Framing {
  import opened Common
  import opened PacketHeader

  /** The two results of `IsOneMessage`: its return value and its `OUT`
      parameter `sizeOfMessage`. */
  datatype MessageCheck = MessageCheck(complete: bool, sizeOfMessage: int)

  /** `IsOneMessage(buffer, dataSize, sizeOfMessage)`: `buffer` is the unread
      bytes from the current position on, of which `dataSize` are valid;
      `sizeOfMessage` is the caller's value of the out-parameter, written only
      once a whole header is present. */
  function IsOneMessage(buffer: seq<byte>, dataSize: int, sizeOfMessage: int): (r: MessageCheck)
    requires dataSize <= |buffer|
    ensures dataSize < HeaderSize ==> !r.complete && r.sizeOfMessage == sizeOfMessage
    ensures dataSize >= HeaderSize ==> r.sizeOfMessage == DecodeHeader(buffer).size as int
    ensures dataSize >= HeaderSize ==> (r.complete <==> r.sizeOfMessage <= dataSize)
  {
    if dataSize < HeaderSize then
      MessageCheck(false, sizeOfMessage)
    else
      var messageSize := ReadTotalSize(buffer);
      if dataSize < messageSize then MessageCheck(false, messageSize)
      else MessageCheck(true, messageSize)
  }

  /** The check applied to the whole of `d`, as the extraction loop does
      (it starts every round with `sizeOfMessage = 0`). */
  function Check(d: seq<byte>): MessageCheck
  {
    IsOneMessage(d, |d|, 0)
  }

  /** Every header the extraction loop reaches in `d` declares a positive size.
      The source has no such guard: a declared size of 0 makes the loop push
      empty messages forever, and a negative one is first handed to the copy
      in `PutMessage` as a negative length (undefined behaviour) before it
      moves the read position backwards. This predicate is the precondition
      under which the loop is defined. */
  predicate Progressing(d: seq<byte>)
    decreases |d|
  {
    var c := Check(d);
    c.complete ==> c.sizeOfMessage > 0 && Progressing(d[c.sizeOfMessage..])
  }

  /** The messages the extraction loop pushes, in order, for the unread region `d`. */
  function Frames(d: seq<byte>): seq<seq<byte>>
    requires Progressing(d)
    decreases |d|
  {
    var c := Check(d);
    if c.complete then [d[..c.sizeOfMessage]] + Frames(d[c.sizeOfMessage..]) else []
  }

  /** The value of `processLen` when the extraction loop stops. */
  function Consumed(d: seq<byte>): nat
    requires Progressing(d)
    decreases |d|
  {
    var c := Check(d);
    if c.complete then c.sizeOfMessage + Consumed(d[c.sizeOfMessage..]) else 0
  }

  /** A round of the extraction loop that finds a complete message: it is
      non-empty, fits in the region, and is the first frame; the rest of the
      region is still one the loop handles. */
  lemma FramesStep(d: seq<byte>)
    requires Progressing(d) && Check(d).complete
    ensures var s := Check(d).sizeOfMessage;
      0 < s <= |d| && Progressing(d[s..]) &&
      Frames(d) == [d[..s]] + Frames(d[s..]) && Consumed(d) == s + Consumed(d[s..])
  {
  }

  lemma AppendOne<T>(a: seq<T>, x: T, b: seq<T>)
    ensures (a + [x]) + b == a + ([x] + b)
  {
  }

  /** The round of the extraction loop that finds no complete message ends it. */
  lemma FramesStop(d: seq<byte>)
    requires !Check(d).complete
    ensures Progressing(d) && Frames(d) == [] && Consumed(d) == 0
  {
  }

  /** The state of the extraction loop over `d` after it has consumed `p`
      bytes and pushed `emitted`: what is left is still handled, and the
      frames of what is left complete `emitted` and `p` to those of `d`. */
  predicate Extracted(d: seq<byte>, p: nat, emitted: seq<seq<byte>>)
  {
    p <= |d| && Progressing(d) && Progressing(d[p..]) &&
    emitted + Frames(d[p..]) == Frames(d) && p + Consumed(d[p..]) == Consumed(d)
  }

  lemma ExtractStart(d: seq<byte>)
    requires Progressing(d)
    ensures Extracted(d, 0, [])
  {
    assert d[0..] == d;
  }

  /** A round that finds a complete message of `s` bytes at offset `p`: the
      message is non-empty and fits, and pushing it advances the loop state. */
  lemma ExtractStep(d: seq<byte>, p: nat, emitted: seq<seq<byte>>)
    requires Extracted(d, p, emitted) && Check(d[p..]).complete
    ensures var s := Check(d[p..]).sizeOfMessage;
      0 < s && p + s <= |d| && Extracted(d, p + s, emitted + [d[p..][..s]])
  {
    var rest := d[p..];
    FramesStep(rest);
    var s := Check(rest).sizeOfMessage;
    assert rest[s..] == d[p + s..];
    AppendOne(emitted, rest[..s], Frames(rest[s..]));
  }

  /** A round that finds no complete message ends the loop with everything
      pushed and `p` bytes consumed. */
  lemma ExtractStop(d: seq<byte>, p: nat, emitted: seq<seq<byte>>)
    requires Extracted(d, p, emitted) && !Check(d[p..]).complete
    ensures emitted == Frames(d) && p == Consumed(d) && p <= |d|
  {
    FramesStop(d[p..]);
  }

  /** A sequence of messages laid end to end. */
  function Concat(ms: seq<seq<byte>>): (r: seq<byte>)
  {
    if ms == [] then [] else ms[0] + Concat(ms[1..])
  }

  /** A message that starts with a whole header declaring its own length. */
  predicate WellFormed(m: seq<byte>)
  {
    |m| >= HeaderSize && ReadTotalSize(m) == |m|
  }

  /** Bytes that the check does not accept as a complete message. */
  predicate Incomplete(d: seq<byte>)
  {
    |d| < HeaderSize || |d| < ReadTotalSize(d)
  }

  /** The frames are consecutive, non-overlapping slices of the region starting
      at offset 0: laid end to end they give back its first `Consumed` bytes. */
  lemma {:induction false} FramesPartition(d: seq<byte>)
    requires Progressing(d)
    ensures Consumed(d) <= |d|
    ensures Concat(Frames(d)) == d[..Consumed(d)]
  {
    var c := Check(d);
    if c.complete {
      var s := c.sizeOfMessage;
      FramesPartition(d[s..]);
      calc {
        Concat(Frames(d));
        d[..s] + Concat(Frames(d[s..]));
        d[..s] + d[s..][..Consumed(d[s..])];
        { assert d[s..][..Consumed(d[s..])] == d[s..s + Consumed(d[s..])]; }
        d[..s + Consumed(d[s..])];
      }
    }
  }

  lemma ConcatCons(m: seq<byte>, ms: seq<seq<byte>>)
    ensures Concat([m] + ms) == m + Concat(ms)
  {
    assert ([m] + ms)[1..] == ms;
  }

  /** Each frame is non-empty and has exactly the length that the header at its
      offset in the region declares, short declared sizes (1 to 5) included;
      when the frame is at least a header long, its own header declares that
      length. */
  lemma {:induction false} FramesDeclaredLength(d: seq<byte>, k: nat)
    requires Progressing(d) && k < |Frames(d)|
    ensures |Frames(d)[k]| > 0
    ensures var o := |Concat(Frames(d)[..k])|;
      o + HeaderSize <= |d| && |Frames(d)[k]| == ReadTotalSize(d[o..])
    ensures |Frames(d)[k]| >= HeaderSize ==> ReadTotalSize(Frames(d)[k]) == |Frames(d)[k]|
  {
    var c := Check(d);
    var s := c.sizeOfMessage;
    if k == 0 {
      var f := d[..s];
      assert Frames(d)[0] == f;
      assert Frames(d)[..0] == [];
      assert d[0..] == d;
      if |f| >= HeaderSize {
        DecodeReadsPrefixOnly(f, d);
      }
    } else {
      var rest := d[s..];
      assert Frames(d)[k] == Frames(rest)[k - 1];
      FramesDeclaredLength(rest, k - 1);
      assert Frames(d)[..k] == [d[..s]] + Frames(rest)[..k - 1];
      ConcatCons(d[..s], Frames(rest)[..k - 1]);
      var o' := |Concat(Frames(rest)[..k - 1])|;
      assert rest[o'..] == d[s + o'..];
    }
  }

  /** What the loop leaves behind after its last message is not a complete
      message: fewer bytes than a header, or fewer than the header declares. */
  lemma {:induction false} RemainderIncomplete(d: seq<byte>)
    requires Progressing(d)
    ensures Consumed(d) <= |d|
    ensures Incomplete(d[Consumed(d)..])
    ensures !Check(d[Consumed(d)..]).complete
  {
    FramesPartition(d);
    var c := Check(d);
    if c.complete {
      var s := c.sizeOfMessage;
      RemainderIncomplete(d[s..]);
      assert d[s..][Consumed(d[s..])..] == d[Consumed(d)..];
    }
  }

  /** A region made of well-formed messages followed by an incomplete tail is
      one the loop handles, and it yields exactly those messages, in order,
      byte for byte; the tail is what it leaves. */
  lemma {:induction false} FramesOfConcat(ms: seq<seq<byte>>, tail: seq<byte>)
    requires forall i :: 0 <= i < |ms| ==> WellFormed(ms[i])
    requires Incomplete(tail)
    ensures Progressing(Concat(ms) + tail)
    ensures Frames(Concat(ms) + tail) == ms
    ensures Consumed(Concat(ms) + tail) == |Concat(ms)|
  {
    var d := Concat(ms) + tail;
    if ms == [] {
      assert d == tail;
    } else {
      var m := ms[0];
      assert d == m + (Concat(ms[1..]) + tail);
      assert d[..|m|] == m;
      DecodeReadsPrefixOnly(m, d);
      assert Check(d) == MessageCheck(true, |m|);
      assert d[|m|..] == Concat(ms[1..]) + tail;
      FramesOfConcat(ms[1..], tail);
    }
  }

  /** A header encoded with the total length of header plus payload starts a
      well-formed message. */
  lemma EncodedMessageWellFormed(h: TCPPacketHeader, payload: seq<byte>)
    requires h.size as int == HeaderSize + |payload|
    ensures WellFormed(EncodeHeader(h) + payload)
  {
    HeaderRoundTrip(h, payload);
  }

  /** With a whole header present, a header declaring size 0 is accepted as a
      complete message of zero bytes, so the loop pushes an empty message and
      does not advance: the region is outside `Progressing`. */
  lemma ZeroSizeStalls(d: seq<byte>)
    requires |d| >= HeaderSize && ReadTotalSize(d) == 0
    ensures Check(d) == MessageCheck(true, 0)
    ensures !Progressing(d)
  {
  }
}
