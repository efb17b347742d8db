/** The ring of asynchronous argument buffers of dsp_rpc.c: requests take the eight
    buffers in turn and send their address; the DSP reads a buffer when it gets there. */
module AsyncRing {

  const BUF_NUM := 8
  const WORDS := 8

  datatype Message = Message(number: nat, slot: nat)

  /** A call of fft_request or fft_stream_input: the words it stores, and whether mpmq_send
      succeeds; or the DSP taking the next message. */
  datatype Event = Request(args: seq<int>, sent: bool) | Consume

  /** index, slots and queue are the program's; asked lists the requests' words so far. */
  datatype Rpc = Rpc(index: nat, slots: seq<seq<int>>, queue: seq<Message>, asked: seq<seq<int>>)

  predicate ValidEvent(e: Event) {
    e.Request? ==> |e.args| <= WORDS
  }

  predicate Shape(s: Rpc) {
    s.index < BUF_NUM && |s.slots| == BUF_NUM && forall k :: 0 <= k < BUF_NUM ==> |s.slots[k]| == WORDS
  }

  ghost predicate Initial(s: Rpc) {
    Shape(s) && s.index == 0 && s.queue == [] && s.asked == []
  }

  /** Storing words at the front of a buffer leaves its other words stale. */
  function Stored(slot: seq<int>, args: seq<int>): (r: seq<int>)
    requires |args| <= |slot|
    ensures |r| == |slot|
  {
    args + slot[|args|..]
  }

  function Next(s: Rpc, e: Event): (t: Rpc)
    requires Shape(s) && ValidEvent(e)
    ensures Shape(t)
  {
    match e
    case Request(args, sent) =>
      Rpc((s.index + 1) % BUF_NUM,
          s.slots[s.index := Stored(s.slots[s.index], args)],
          if sent then s.queue + [Message(|s.asked|, s.index)] else s.queue,
          s.asked + [args])
    case Consume =>
      if s.queue == [] then s else s.(queue := s.queue[1..])
  }

  function After(s: Rpc, events: seq<Event>): (t: Rpc)
    requires Shape(s) && forall k :: 0 <= k < |events| ==> ValidEvent(events[k])
    ensures Shape(t)
    decreases |events|
  {
    if events == [] then s else Next(After(s, events[..|events| - 1]), events[|events| - 1])
  }

  // --------------------------------------------------------------- the invariant

  /** The number of the latest of n requests that used a slot; negative when there is none. */
  function LastWriter(n: nat, slot: nat): (m: int)
    requires slot < BUF_NUM
    ensures m < n && m >= n - BUF_NUM && m % BUF_NUM == slot
  {
    n - 1 - (n - 1 - slot) % BUF_NUM
  }

  ghost predicate Inv(s: Rpc) {
    && Shape(s) && s.index == |s.asked| % BUF_NUM
    && (forall k :: 0 <= k < |s.asked| ==> |s.asked[k]| <= WORDS)
    && (forall i :: 0 <= i < |s.queue| ==>
          s.queue[i].number < |s.asked| && s.queue[i].slot == s.queue[i].number % BUF_NUM)
    && (forall i, j :: 0 <= i < j < |s.queue| ==> s.queue[i].number < s.queue[j].number)
    && (forall k :: 0 <= k < BUF_NUM ==> HoldsLatest(s, k))
  }

  /** A slot starts with the words of the latest request that used it. */
  ghost predicate HoldsLatest(s: Rpc, k: nat)
    requires Shape(s) && k < BUF_NUM
  {
    var m := LastWriter(|s.asked|, k);
    m >= 0 ==> s.asked[m] <= s.slots[k]
  }

  lemma WriterAfter(n: nat, slot: nat)
    requires slot < BUF_NUM
    ensures LastWriter(n + 1, slot) == if n % BUF_NUM == slot then n else LastWriter(n, slot)
  {
  }

  lemma NextInv(s: Rpc, e: Event)
    requires Inv(s) && ValidEvent(e)
    ensures Inv(Next(s, e))
  {
    var t := Next(s, e);
    forall k | 0 <= k < BUF_NUM
      ensures HoldsLatest(t, k)
    {
      assert HoldsLatest(s, k);
      if e.Request? {
        WriterAfter(|s.asked|, k);
      }
    }
  }

  lemma {:induction false} AlwaysInv(s: Rpc, events: seq<Event>)
    requires Initial(s) && forall k :: 0 <= k < |events| ==> ValidEvent(events[k])
    ensures Inv(After(s, events))
    decreases |events|
  {
    if events != [] {
      AlwaysInv(s, events[..|events| - 1]);
      NextInv(After(s, events[..|events| - 1]), events[|events| - 1]);
    }
  }

  // -------------------------------------------------------------------- the law

  /** The message's slot has not been taken over by a later request. */
  ghost predicate Owns(s: Rpc, msg: Message)
    requires msg.slot < BUF_NUM
  {
    LastWriter(|s.asked|, msg.slot) == msg.number
  }

  /** At most eight requests, sent or not, since the oldest outstanding one. */
  ghost predicate Window(s: Rpc) {
    s.queue == [] || |s.asked| - s.queue[0].number <= 8
  }

  /** Main result, in every state of every run: all outstanding messages own their slots
      exactly when the window holds; and then the slots are distinct and each still
      begins with the words stored for its message. */
  lemma RingLaw(s: Rpc, events: seq<Event>)
    requires Initial(s) && forall k :: 0 <= k < |events| ==> ValidEvent(events[k])
    ensures var t := After(s, events);
            && (forall i :: 0 <= i < |t.queue| ==> t.queue[i].slot < BUF_NUM && t.queue[i].number < |t.asked|)
            && (Window(t) <==> forall i :: 0 <= i < |t.queue| ==> Owns(t, t.queue[i]))
            && (Window(t) ==>
                  && (forall i, j :: 0 <= i < j < |t.queue| ==> t.queue[i].slot != t.queue[j].slot)
                  && (forall i :: 0 <= i < |t.queue| ==> t.asked[t.queue[i].number] <= t.slots[t.queue[i].slot]))
  {
    AlwaysInv(s, events);
    var t := After(s, events);
    forall i | 0 <= i < |t.queue|
      ensures Owns(t, t.queue[i]) <==> |t.asked| - t.queue[i].number <= BUF_NUM
    {
      OwnsIffRecent(t, t.queue[i]);
    }
    if Window(t) {
      forall i | 0 <= i < |t.queue|
        ensures Owns(t, t.queue[i]) && t.asked[t.queue[i].number] <= t.slots[t.queue[i].slot]
      {
        assert i > 0 ==> t.queue[0].number < t.queue[i].number;
        assert HoldsLatest(t, t.queue[i].slot);
      }
    }
  }

  lemma OwnsIffRecent(s: Rpc, msg: Message)
    requires msg.number < |s.asked| && msg.slot == msg.number % BUF_NUM
    ensures Owns(s, msg) <==> |s.asked| - msg.number <= BUF_NUM
  {
  }

  /** Failed sends count too: one message is overtaken by eight requests that were never sent. */
  lemma UnsentRequestsOverwrite(s: Rpc) returns (events: seq<Event>)
    requires Initial(s)
    ensures |events| == 9 && forall k :: 0 <= k < |events| ==> ValidEvent(events[k])
    ensures var t := After(s, events);
            t.queue == [Message(0, 0)] && t.asked != [] && t.asked[0] == [1] && t.slots[0][0] == 2 && !Window(t)
  {
    var e0 := [Request([1], true)];
    events := e0;
    assert events[..0] == [];
    var t := After(s, events);
    assert t == Next(s, events[0]);
    for k := 0 to 8
      invariant |events| == k + 1 && forall i :: 0 <= i < |events| ==> ValidEvent(events[i])
      invariant t == After(s, events) && |t.asked| == k + 1 && t.asked[0] == [1]
      invariant t.queue == [Message(0, 0)] && t.index == (k + 1) % BUF_NUM
      invariant k == 8 ==> t.slots[0][0] == 2
    {
      var more := events + [Request([2], false)];
      assert more[..|events|] == events;
      events := more;
      t := Next(t, Request([2], false));
    }
  }

  // ------------------------------------------------------------- the imperative code

  /** The static data of dsp_rpc.c; rows of s_buffer are sequences of eight words.  The
      messages in flight and the list of requests are history, not the caller's memory. */
  class Caller {
    const buffer: array<seq<int>>
    var index: nat
    ghost var queue: seq<Message>
    ghost var asked: seq<seq<int>>

    ghost function State(): (s: Rpc)
      reads this, buffer
    {
      Rpc(index, buffer[..], queue, asked)
    }

    ghost predicate Valid()
      reads this, buffer
    {
      Shape(State())
    }

    constructor ()
      ensures Valid() && Initial(State()) && fresh(buffer)
    {
      buffer := new seq<int>[BUF_NUM](_ => [0, 0, 0, 0, 0, 0, 0, 0]);
      index, queue, asked := 0, [], [];
    }

    method GetAsyncBuffer() returns (k: nat)
      requires Valid()
      modifies this`index
      ensures Valid() && k == old(index) && index == (k + 1) % BUF_NUM
    {
      k := index;
      index := index + 1;
      index := index % BUF_NUM;
    }

    method DspSend(k: nat, sendOk: bool)
      modifies this`queue
      ensures queue == if sendOk then old(queue) + [Message(|asked|, k)] else old(queue)
    {
      if sendOk {
        queue := queue + [Message(|asked|, k)];
      }
    }

    method FftRequest(code: int, desc: int, sendOk: bool)
      requires Valid()
      modifies this, buffer
      ensures Valid() && State() == Next(old(State()), Request([code, desc], sendOk))
    {
      var k := GetAsyncBuffer();
      ghost var row := buffer[k];
      buffer[k] := buffer[k][0 := code][1 := desc];
      assert buffer[k] == Stored(row, [code, desc]);
      DspSend(k, sendOk);
      asked := asked + [[code, desc]];
    }

    method FftStreamInput(code: int, buf: int, size: int, sendOk: bool)
      requires Valid()
      modifies this, buffer
      ensures Valid() && State() == Next(old(State()), Request([code, buf, size], sendOk))
    {
      var k := GetAsyncBuffer();
      ghost var row := buffer[k];
      buffer[k] := buffer[k][0 := code][1 := buf][2 := size];
      assert buffer[k] == Stored(row, [code, buf, size]);
      DspSend(k, sendOk);
      asked := asked + [[code, buf, size]];
    }
  }
}
