// The receiving side for codecs without a format of their own: packets are handed from the source to
// the consumer by way of two buffers.

module AnyFormatRead {
  import opened Bits

  datatype Status = Available | Full

  datatype MediaPacket = MediaPacket(data: seq<Byte>, timeToPlay: int, lastBuffer: bool, frameNumber: int)

  datatype DecodeState = DecodeIdle | SourceDataReady | EmptyDataToSink

  /** What becomes of a packet that arrives. */
  datatype Arrival = Dropped | Stored | Refused

  // ---------- order ----------

  /** `a` is what is left of `b` when some elements are taken out. */
  predicate Subsequence<T(==)>(a: seq<T>, b: seq<T>)
    decreases |b|
  {
    if b == [] then a == []
    else
      Subsequence(a, b[..|b| - 1])
      || (a != [] && a[|a| - 1] == b[|b| - 1] && Subsequence(a[..|a| - 1], b[..|b| - 1]))
  }

  lemma {:induction false} SubsequenceShorter<T>(a: seq<T>, b: seq<T>)
    requires Subsequence(a, b)
    ensures |a| <= |b| && (|a| == |b| ==> a == b)
    decreases |b|
  {
    if b != [] {
      if Subsequence(a, b[..|b| - 1]) {
        SubsequenceShorter(a, b[..|b| - 1]);
      } else {
        SubsequenceShorter(a[..|a| - 1], b[..|b| - 1]);
        assert a == a[..|a| - 1] + [a[|a| - 1]];
        assert b == b[..|b| - 1] + [b[|b| - 1]];
      }
    }
  }

  lemma SubsequenceAppend<T>(a: seq<T>, b: seq<T>, x: T)
    requires Subsequence(a, b)
    ensures Subsequence(a + [x], b + [x]) && Subsequence(a, b + [x])
  {
    assert (b + [x])[..|b + [x]| - 1] == b && (a + [x])[..|a + [x]| - 1] == a;
  }

  /** Taking out one more element, or any number of elements at the end. */
  lemma {:induction false} SubsequenceWithout<T>(a: seq<T>, b: seq<T>, i: nat)
    requires Subsequence(a, b) && i < |a|
    ensures Subsequence(a[..i] + a[i + 1..], b)
    decreases |b|
  {
    var c, n, m := a[..i] + a[i + 1..], |a| - 1, |b| - 1;
    if Subsequence(a, b[..m]) {
      SubsequenceWithout(a, b[..m], i);
    } else if i == n {
      assert c == a[..n];
    } else {
      SubsequenceWithout(a[..n], b[..m], i);
      assert c[..|c| - 1] == a[..n][..i] + a[..n][i + 1..];
    }
  }

  // ---------- the two buffers ----------

  class FrameBuffer {
    var status: Status
    var content: MediaPacket

    constructor ()
      ensures status == Available
    {
      status := Available;
      content := MediaPacket([], 0, false, 0);
    }
  }

  class AnyPayloadFormatRead {
    const frameBufferOne: FrameBuffer
    const frameBufferTwo: FrameBuffer
    var currentBuffer: FrameBuffer?
    var state: DecodeState
    var active: bool
    var packetCount: nat
    var fillRequested: bool

    /** The packets stored and those delivered so far, and how many have been given up undelivered. */
    ghost var accepted: seq<MediaPacket>
    ghost var delivered: seq<MediaPacket>
    ghost var givenUp: nat

    ghost function Other(): FrameBuffer
      reads this`currentBuffer
    {
      if currentBuffer == frameBufferOne then frameBufferTwo else frameBufferOne
    }

    /** The current buffer holds a packet. */
    ghost predicate Holds()
      reads this`currentBuffer, frameBufferOne, frameBufferTwo
    {
      currentBuffer != null && (currentBuffer == frameBufferOne || currentBuffer == frameBufferTwo)
      && currentBuffer.status == Full
    }

    /** The packet in the current buffer has not been delivered yet. */
    ghost predicate Undelivered()
      reads this`currentBuffer, this`active, frameBufferOne, frameBufferTwo
    {
      Holds() && active
    }

    /** The packets that wait for delivery, in order. */
    ghost function Waiting(): (ps: seq<MediaPacket>)
      reads this`currentBuffer, this`active, frameBufferOne, frameBufferTwo
    {
      (if Undelivered() then [currentBuffer.content] else [])
      + if Holds() && Other().status == Full then [Other().content] else []
    }

    /** A packet is held in the current buffer, or in none. */
    ghost predicate Buffers()
      reads this`currentBuffer, this`state, this`active, frameBufferOne, frameBufferTwo
    {
      && frameBufferOne != frameBufferTwo
      && (currentBuffer == null || currentBuffer == frameBufferOne || currentBuffer == frameBufferTwo)
      && (frameBufferOne.status == Full || frameBufferTwo.status == Full ==> Holds())
      && (active ==> state != DecodeIdle) && (active && currentBuffer != null ==> Holds())
    }

    ghost predicate Valid()
      reads this, frameBufferOne, frameBufferTwo
    {
      && Buffers() && Subsequence(delivered + Waiting(), accepted)
      && |accepted| == |delivered| + |Waiting()| + givenUp
    }

    /** Nothing is lost, repeated or reordered as long as no packet has been given up. */
    lemma FirstInFirstOut()
      requires Valid()
      ensures givenUp == 0 <==> accepted == delivered + Waiting()
      ensures Subsequence(delivered + Waiting(), accepted)
    {
      hide Waiting;
      SubsequenceShorter(delivered + Waiting(), accepted);
    }

    constructor ()
      ensures Valid() && accepted == [] == delivered && givenUp == 0 && Waiting() == []
      ensures currentBuffer == null && !active && packetCount == 0 && !fillRequested && state == DecodeIdle
      ensures fresh(frameBufferOne) && fresh(frameBufferTwo)
    {
      frameBufferOne := new FrameBuffer();
      frameBufferTwo := new FrameBuffer();
      currentBuffer := null;
      state, active := DecodeIdle, false;
      packetCount, fillRequested := 0, false;
      accepted, delivered, givenUp := [], [], 0;
    }

    /** Starts the state machine on a new state; a change that its rules do not allow is ignored. */
    method ChangeState(newState: DecodeState)
      modifies this`state, this`active
      ensures newState == EmptyDataToSink && old(state) == DecodeIdle ==> state == old(state) && active == old(active)
      ensures !(newState == EmptyDataToSink && old(state) == DecodeIdle) ==> state == newState
      ensures !(newState == EmptyDataToSink && old(state) == DecodeIdle) ==>
        active == (newState != DecodeIdle || old(active))
    {
      var changeState := match newState
        case DecodeIdle => true
        case SourceDataReady => true
        case EmptyDataToSink => state == SourceDataReady || state == EmptyDataToSink;
      if changeState {
        state := newState;
        if state != DecodeIdle {
          active := true;
        }
      }
    }

    /** Hands the first buffer to the consumer, which passes it in to ask for data. The queue is kept when the first
        buffer is the current one, or when nothing is held and no step is due. A packet in the second buffer is
        otherwise lost to the queue, or comes after the one that arrived behind it. */
    method CreateSourceBuffer() returns (buffer: FrameBuffer)
      requires Valid()
      modifies this`currentBuffer
      ensures buffer == currentBuffer == frameBufferOne
      ensures old(currentBuffer == frameBufferOne || (!Holds() && !active)) ==> Valid() && Waiting() == old(Waiting())
      ensures old(!Holds() && !active) ==> !Holds()
      ensures old(!Holds() && active && currentBuffer != frameBufferOne) ==> !Valid()
      ensures old(Holds() && currentBuffer == frameBufferTwo) && frameBufferOne.status != Full ==>
        !Valid() && !Holds() && Waiting() == []
      ensures old(Holds() && currentBuffer == frameBufferTwo) && frameBufferOne.status == Full ==>
        Holds() && Waiting() == (if active then [frameBufferOne.content] else []) + [frameBufferTwo.content]
    {
      hide Subsequence;
      currentBuffer := frameBufferOne;
      buffer := frameBufferOne;
      assert old(!Holds() && !active) ==> Waiting() == old(Waiting());
    }

    method Fill(target: FrameBuffer, other: FrameBuffer, packet: MediaPacket)
      requires Buffers() && target.status == Available
      requires (target == frameBufferOne && other == frameBufferTwo)
        || (target == frameBufferTwo && other == frameBufferOne)
      modifies this`currentBuffer, this`state, this`active, target
      ensures Buffers() && Waiting() == old(Waiting()) + [packet]
      ensures old(Holds()) ==>
        Holds() && currentBuffer == old(currentBuffer) && active == old(active) && state == old(state)
      ensures !old(Holds()) ==> Undelivered() && state == SourceDataReady
      ensures target.status == Full && target.content == packet
    {
      target.content := packet;
      target.status := Full;
      if other.status == Available {
        currentBuffer := target;
        ChangeState(SourceDataReady);
      }
    }

    /** Puts a packet into a free buffer; when the other one is free too it is the next to be delivered. */
    method Store(target: FrameBuffer, other: FrameBuffer, packet: MediaPacket)
      requires Valid() && target.status == Available
      requires (target == frameBufferOne && other == frameBufferTwo)
        || (target == frameBufferTwo && other == frameBufferOne)
      modifies this`currentBuffer, this`state, this`active, this`accepted, target
      ensures Valid() && accepted == old(accepted) + [packet] && Waiting() == old(Waiting()) + [packet]
      ensures old(Holds()) ==>
        Holds() && currentBuffer == old(currentBuffer) && active == old(active) && state == old(state)
      ensures !old(Holds()) ==> Undelivered() && state == SourceDataReady
      ensures target.status == Full && target.content == packet
    {
      hide Subsequence, Waiting, Holds, Buffers, Undelivered;
      Fill(target, other, packet);
      accepted := accepted + [packet];
      SubsequenceAppend(delivered + old(Waiting()), old(accepted), packet);
      assert delivered + old(Waiting()) + [packet] == delivered + (old(Waiting()) + [packet]);
    }

    /** The source has a packet. It is stored unless it is empty or both buffers are in use. */
    method BufferFilled(packet: MediaPacket) returns (arrival: Arrival)
      requires Valid()
      modifies this`packetCount, this`currentBuffer, this`state, this`active, this`accepted
      modifies frameBufferOne, frameBufferTwo
      ensures Valid() && packetCount == old(packetCount) + 1
      ensures arrival == Dropped <==> packet.data == []
      ensures arrival == Refused <==>
        packet.data != [] && old(frameBufferOne.status) == Full && old(frameBufferTwo.status) == Full
      ensures arrival == Stored ==>
        accepted == old(accepted) + [packet] && Waiting() == old(Waiting()) + [packet]
      ensures arrival != Stored ==> accepted == old(accepted) && Waiting() == old(Waiting())
      ensures arrival == Stored && !old(Holds()) ==> Undelivered() && state == SourceDataReady
      ensures arrival == Stored ==>
        var target := if old(frameBufferOne.status) == Available then frameBufferOne else frameBufferTwo;
        target.status == Full && target.content == packet
      ensures old(Holds()) ==>
        Holds() && currentBuffer == old(currentBuffer) && active == old(active) && state == old(state)
      ensures old(Holds()) ==> currentBuffer.content == old(currentBuffer).content == old(currentBuffer.content)
    {
      hide Subsequence, Waiting;
      packetCount := packetCount + 1;
      if packet.data == [] {
        return Dropped;
      } else if frameBufferOne.status == Available {
        Store(frameBufferOne, frameBufferTwo, packet);
      } else if frameBufferTwo.status == Available {
        Store(frameBufferTwo, frameBufferOne, packet);
      } else {
        return Refused;
      }
      arrival := Stored;
    }

    /** The consumer returns the current buffer and asks for more. The result says whether the source is
        asked for a packet. */
    method FillBuffer(buffer: FrameBuffer) returns (requested: bool)
      requires Valid() && buffer == currentBuffer
      modifies this`fillRequested, this`currentBuffer, this`state, this`active, this`givenUp
      modifies frameBufferOne, frameBufferTwo
      ensures Valid() && delivered == old(delivered)
      ensures Waiting() == if old(Undelivered()) then old(Waiting())[1..] else old(Waiting())
      ensures givenUp == old(givenUp) + if old(Undelivered()) then 1 else 0
      ensures requested <==> Waiting() == []
      ensures requested <==> !Holds()
      ensures !requested ==> Undelivered() && state == SourceDataReady
      ensures fillRequested
    {
      hide Subsequence;
      fillRequested := true;
      ghost var ws, early := Waiting(), Undelivered();
      if currentBuffer != null {
        currentBuffer.status := Available;
        currentBuffer := null;
      }
      requested := false;
      if frameBufferOne.status == Full {
        currentBuffer := frameBufferOne;
        ChangeState(SourceDataReady);
      } else if frameBufferTwo.status == Full {
        currentBuffer := frameBufferTwo;
        ChangeState(SourceDataReady);
      } else {
        requested := true;
      }
      if early {
        givenUp := givenUp + 1;
        HeadGivenUp(delivered, ws, accepted);
      }
      assert Waiting() == if early then ws[1..] else ws;
    }

    /** One step of the state machine. Without a current buffer the step is broken off. */
    method RunL()
      requires Valid()
      modifies this`state, this`active, this`delivered
      ensures Valid() && accepted == old(accepted) && givenUp == old(givenUp)
      ensures delivered + Waiting() == old(delivered + Waiting())
      ensures delivered == if old(active) && old(state) == EmptyDataToSink && currentBuffer != null
        then old(delivered) + [currentBuffer.content] else old(delivered)
      ensures old(active) && old(state) == SourceDataReady && currentBuffer != null ==>
        active && state == EmptyDataToSink
      ensures !(old(active) && old(state) == SourceDataReady && currentBuffer != null) ==> !active
    {
      hide Subsequence;
      if active {
        ghost var ws := Waiting();
        active := false;
        if currentBuffer != null {
          if state == SourceDataReady {
            ChangeState(EmptyDataToSink);
          } else {
            delivered := delivered + [currentBuffer.content];
            HeadDelivered(old(delivered), ws, Waiting());
          }
        }
      }
    }

    /** The scheduler runs the state machine until it is idle: the packet in the current buffer is delivered. */
    method RunUntilIdle()
      requires Valid()
      modifies this`state, this`active, this`delivered
      ensures Valid() && !active && accepted == old(accepted) && givenUp == old(givenUp)
      ensures delivered == old(delivered) + if old(Undelivered()) then [old(currentBuffer.content)] else []
      ensures delivered + Waiting() == old(delivered + Waiting())
    {
      hide Subsequence;
      ghost var ws := Waiting();
      while active
        invariant Valid() && accepted == old(accepted) && givenUp == old(givenUp)
        invariant delivered + Waiting() == old(delivered) + ws
        invariant active ==> old(active) && delivered == old(delivered)
        invariant !active ==>
          delivered == old(delivered) + if old(Undelivered()) then [old(currentBuffer.content)] else []
        decreases if !active then 0 else if state == SourceDataReady then 2 else 1
      {
        RunL();
      }
    }

    /** The consumer returns each packet after its delivery: everything that waits is delivered, once and in order. */
    method Drain()
      requires Valid()
      modifies this`state, this`active, this`delivered, this`fillRequested, this`currentBuffer, this`givenUp
      modifies frameBufferOne, frameBufferTwo
      ensures Valid() && !Holds() && Waiting() == [] && accepted == old(accepted) && givenUp == old(givenUp)
      ensures delivered == old(delivered + Waiting())
      ensures givenUp == 0 <==> delivered == accepted
    {
      hide Subsequence;
      ghost var all := delivered + Waiting();
      RunUntilIdle();
      while currentBuffer != null && currentBuffer.status == Full
        invariant Valid() && !active && delivered + Waiting() == all
        invariant accepted == old(accepted) && givenUp == old(givenUp)
        decreases if Holds() then 1 + |Waiting()| else 0
      {
        var _ := FillBuffer(currentBuffer);
        RunUntilIdle();
      }
      FirstInFirstOut();
    }

    /** Stops handing on; what waits is given up. */
    method CancelDlRequest()
      requires Valid()
      modifies this`state, this`active, this`fillRequested, this`givenUp, frameBufferOne, frameBufferTwo
      ensures Valid() && Waiting() == [] && delivered == old(delivered) && !Holds()
      ensures givenUp == old(givenUp) + |old(Waiting())| && !fillRequested && !active && state == DecodeIdle
    {
      hide Subsequence;
      ghost var ws := Waiting();
      active := false;
      ChangeState(DecodeIdle);
      frameBufferOne.status := Available;
      frameBufferTwo.status := Available;
      fillRequested := false;
      givenUp := givenUp + |ws|;
      assert Waiting() == [];
      AllGivenUp(delivered, ws, accepted);
    }
  }

  lemma HeadGivenUp<T>(d: seq<T>, ws: seq<T>, b: seq<T>)
    requires Subsequence(d + ws, b) && ws != []
    ensures Subsequence(d + ws[1..], b)
  {
    hide Subsequence;
    SubsequenceWithout(d + ws, b, |d|);
    assert (d + ws)[..|d|] + (d + ws)[|d| + 1..] == d + ws[1..];
  }

  lemma {:induction false} AllGivenUp<T>(d: seq<T>, ws: seq<T>, b: seq<T>)
    requires Subsequence(d + ws, b)
    ensures Subsequence(d + [], b)
    decreases |ws|
  {
    hide Subsequence;
    if ws == [] {
      assert d + ws == d + [];
    } else {
      HeadGivenUp(d, ws, b);
      AllGivenUp(d, ws[1..], b);
    }
  }

  lemma HeadDelivered<T>(d: seq<T>, ws: seq<T>, rest: seq<T>)
    requires ws != [] && rest == ws[1..]
    ensures d + [ws[0]] + rest == d + ws
  {
  }
}
