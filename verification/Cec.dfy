// The CEC receive queue (common/cec.c): messages of varying length in a ring of
// bytes, filled from an interrupt and emptied by the host side.
module Cec {
  import opened Ring

  type Octet = x: int | 0 <= x < 256
  type Bytes = seq<Octet>

  const MAX_CEC_MSG_LEN := 16

  datatype Status = Success | Inval | Overflow

  /** Messages the queue may hold. */
  type Message = m: Bytes | 0 < |m| <= 16 witness [0]

  /** How messages lie in the ring: each behind its length. */
  function Encode(msgs: seq<Message>): Bytes {
    if msgs == [] then [] else [|msgs[0]| as Octet] + msgs[0] + Encode(msgs[1..])
  }

  lemma {:induction false} EncodeSnoc(msgs: seq<Message>, m: Message)
    ensures Encode(msgs + [m]) == Encode(msgs) + [|m| as Octet] + m
  {
    if msgs == [] {
      assert Encode([m]) == [|m| as Octet] + m + Encode([]);
    } else {
      assert (msgs + [m])[1..] == msgs[1..] + [m];
      EncodeSnoc(msgs[1..], m);
    }
  }

  lemma ContentSnoc(reading: Bytes, msgs: seq<Message>, m: Message, was: Bytes, now: Bytes)
    requires was == reading + Encode(msgs) && now == reading + Encode(msgs + [m])
    ensures now == was + [|m| as Octet] + m && |now| == |was| + 1 + |m|
  {
    EncodeSnoc(msgs, m);
    assert reading + (Encode(msgs) + [|m| as Octet] + m) == reading + Encode(msgs) + [|m| as Octet] + m;
  }

  /** The bytes s lie in the ring from offset o on. */
  ghost predicate Lies(buf: Bytes, o: nat, s: Bytes) {
    && o < |buf| && |s| < |buf|
    && forall k :: 0 <= k < |s| ==> buf[Place(o, k, |buf|)] == s[k]
  }

  /**
   * When a push is accepted: there is room for the length, the message and the one
   * byte that tells a full ring from an empty one.
   */
  predicate Room(n: nat, used: nat, m: Bytes) {
    used + 1 + |m| + 1 <= n
  }

  function PushStatus(n: nat, used: nat, m: Bytes): Status {
    if |m| == 0 || |m| > MAX_CEC_MSG_LEN then Inval
    else if Room(n, used, m) then Success else Overflow
  }

  /** The first i bytes of a message lie behind the bytes of the ring and a place for its length. */
  ghost predicate HasPart(buf: Bytes, o: nat, used: nat, msg: Bytes, i: nat)
    requires o < |buf| && used + 1 + i <= |buf| && i <= |msg|
  {
    forall j :: 0 <= j < i ==> buf[Place(o, used + 1 + j, |buf|)] == msg[j]
  }

  lemma OneMoreByte(buf: Bytes, o: nat, bytes: Bytes, msg: Bytes, i: nat)
    requires Lies(buf, o, bytes) && i < |msg| && |bytes| + 1 + i < |buf| && HasPart(buf, o, |bytes|, msg, i)
    ensures var now := buf[Place(o, |bytes| + 1 + i, |buf|) := msg[i]];
            Lies(now, o, bytes) && HasPart(now, o, |bytes|, msg, i + 1)
  {
  }

  /** The length byte goes in last and makes the message part of the ring. */
  lemma Committed(buf: Bytes, now: Bytes, o: nat, bytes: Bytes, msg: Bytes)
    requires Lies(buf, o, bytes) && |bytes| + 1 + |msg| < |buf| && |msg| < 256
    requires HasPart(buf, o, |bytes|, msg, |msg|)
    requires now == buf[Place(o, |bytes|, |buf|) := |msg|]
    ensures Lies(now, o, bytes + [|msg| as Octet] + msg)
  {
    var all := bytes + [|msg| as Octet] + msg;
    forall k | 0 <= k < |all| ensures now[Place(o, k, |now|)] == all[k] {
      if k > |bytes| {
        var j := k - |bytes| - 1;
        assert buf[Place(o, |bytes| + 1 + j, |buf|)] == msg[j];
      }
    }
  }

  /** The bytes some messages need: a length byte each, and their own. */
  function BytesFor(msgs: seq<Message>): nat {
    if msgs == [] then 0 else BytesFor(msgs[..|msgs| - 1]) + 1 + |msgs[|msgs| - 1]|
  }

  lemma {:induction false} EncodeNeeds(msgs: seq<Message>)
    ensures |Encode(msgs)| == BytesFor(msgs)
    decreases |msgs|
  {
    if msgs != [] {
      var init, last := msgs[..|msgs| - 1], msgs[|msgs| - 1];
      EncodeNeeds(init);
      EncodeSnoc(init, last);
      assert msgs == init + [last];
    }
  }

  /**
   * When a message is taken: it has 1 to 16 bytes, and these, its length and one more byte fit
   * beside the messages held - however short it is, and whatever is held.
   */
  lemma TakenExactly(n: nat, msgs: seq<Message>, m: Bytes)
    ensures PushStatus(n, |Encode(msgs)|, m) == Success <==> 1 <= |m| <= 16 && BytesFor(msgs) + |m| + 2 <= n
    ensures PushStatus(n, |Encode(msgs)|, m) == Inval <==> !(1 <= |m| <= 16)
  {
    EncodeNeeds(msgs);
  }

  /** The smallest ring that takes every legal message: one byte more than the guard asks for. */
  lemma CapacityGuard(n: nat)
    ensures (forall m: Message :: PushStatus(n, 0, m) == Success) <==> n >= MAX_CEC_MSG_LEN + 2
  {
    var longest: Message := seq(16, i => 0);
    assert PushStatus(n, 0, longest) == Success <==> n >= MAX_CEC_MSG_LEN + 2;
  }

  /**
   * What a ring of n bytes admits of the first k arrivals, one before each byte taken of
   * a message of len bytes: an arrival is refused when it does not fit beside the bytes
   * still to be taken, the rest of the queue and the arrivals admitted so far.
   */
  function Admitted(n: nat, len: nat, queue: seq<Message>, arrivals: nat -> Bytes, k: nat): (r: seq<Message>)
    requires k <= len
    ensures |r| <= k
  {
    if k == 0 then [] else
      var before := Admitted(n, len, queue, arrivals, k - 1);
      var m := arrivals(k - 1);
      if PushStatus(n, len - (k - 1) + |Encode(queue + before)|, m) == Success then before + [m] else before
  }

  /** The first i bytes of a message are copied, the others still to be read. */
  ghost predicate Copied(msg: Bytes, i: nat, reading: Bytes, message: Bytes) {
    && i + |reading| == |message| && i <= |msg|
    && (forall k :: 0 <= k < i ==> msg[k] == message[k])
    && (forall k :: 0 <= k < |reading| ==> reading[k] == message[i + k])
  }

  lemma AllCopied(msg: Bytes, reading: Bytes, message: Bytes)
    requires Copied(msg, |message|, reading, message)
    ensures reading == [] && msg[..|message|] == message
  {
  }

  /** In a ring the queue leaves room in for everything that may come, all arrivals are admitted. */
  lemma {:induction false} RoomyRingAdmitsAll(n: nat, len: nat, queue: seq<Message>, arrivals: nat -> Bytes, k: nat)
    requires k <= len && (forall j :: 0 <= j < k ==> 0 < |arrivals(j)| <= MAX_CEC_MSG_LEN)
    requires len + |Encode(queue)| + (MAX_CEC_MSG_LEN + 1) * k < n
    ensures var all := Admitted(n, len, queue, arrivals, k);
            && |all| == k && (forall j :: 0 <= j < k ==> all[j] == arrivals(j))
            && |Encode(queue + all)| <= |Encode(queue)| + (MAX_CEC_MSG_LEN + 1) * k
  {
    if k == 0 {
      assert queue + [] == queue;
    } else {
      RoomyRingAdmitsAll(n, len, queue, arrivals, k - 1);
      var before := Admitted(n, len, queue, arrivals, k - 1);
      EncodeSnoc(queue + before, arrivals(k - 1));
      assert queue + before + [arrivals(k - 1)] == queue + (before + [arrivals(k - 1)]);
    }
  }

  // ------------------------------------------------------------- whole runs

  datatype Call = PushCall(m: Bytes) | PopCall | FlushCall

  datatype Reply = Pushed(status: Status) | Popped(message: Message) | Nothing | Flushed

  /** How a message leaves the queue: handed to the host, or dropped by a flush. */
  datatype Departure = Given(message: Message) | Dropped(message: Message)

  /** What a bounded FIFO of messages answers to a call, and what it holds afterwards. */
  function Serve(n: nat, queue: seq<Message>, c: Call): (seq<Message>, Reply) {
    match c
    case PushCall(m) =>
      var status := PushStatus(n, |Encode(queue)|, m);
      (if status == Success then queue + [m] else queue, Pushed(status))
    case PopCall => if queue == [] then ([], Nothing) else (queue[1..], Popped(queue[0]))
    case FlushCall => ([], Flushed)
  }

  /** A whole run of calls, the last one split off. */
  function ServeAll(n: nat, queue: seq<Message>, calls: seq<Call>): (r: (seq<Message>, seq<Reply>))
    ensures |r.1| == |calls|
    decreases |calls|
  {
    if calls == [] then (queue, []) else
      var (before, replies) := ServeAll(n, queue, calls[..|calls| - 1]);
      var (after, reply) := Serve(n, before, calls[|calls| - 1]);
      (after, replies + [reply])
  }

  /** The messages a run has accepted, in order. */
  function Accepted(calls: seq<Call>, replies: seq<Reply>): seq<Bytes>
    requires |calls| == |replies|
    decreases |calls|
  {
    if calls == [] then [] else
      var k := |calls| - 1;
      Accepted(calls[..k], replies[..k])
      + if calls[k].PushCall? && replies[k] == Pushed(Success) then [calls[k].m] else []
  }

  /** The messages the host has been given, in order. */
  function Delivered(replies: seq<Reply>): seq<Message>
    decreases |replies|
  {
    if replies == [] then [] else
      var k := |replies| - 1;
      Delivered(replies[..k]) + if replies[k].Popped? then [replies[k].message] else []
  }

  function DropAll(queue: seq<Message>): seq<Departure> {
    if queue == [] then [] else [Dropped(queue[0])] + DropAll(queue[1..])
  }

  /** The messages that have left the queue, in the order they left. */
  function Departures(n: nat, queue: seq<Message>, calls: seq<Call>): seq<Departure>
    decreases |calls|
  {
    if calls == [] then [] else
      var k := |calls| - 1;
      var before := ServeAll(n, queue, calls[..k]).0;
      Departures(n, queue, calls[..k])
      + match calls[k]
        case PushCall(_) => []
        case PopCall => if before == [] then [] else [Given(before[0])]
        case FlushCall => DropAll(before)
  }

  function Messages(left: seq<Departure>): seq<Message> {
    if left == [] then [] else [left[0].message] + Messages(left[1..])
  }

  function GivenOnes(left: seq<Departure>): seq<Message> {
    if left == [] then []
    else (if left[0].Given? then [left[0].message] else []) + GivenOnes(left[1..])
  }

  lemma {:induction false} MessagesConcat(a: seq<Departure>, b: seq<Departure>)
    ensures Messages(a + b) == Messages(a) + Messages(b)
  {
    if a == [] {
      assert a + b == b;
    } else {
      assert (a + b)[1..] == a[1..] + b;
      MessagesConcat(a[1..], b);
    }
  }

  lemma {:induction false} GivenConcat(a: seq<Departure>, b: seq<Departure>)
    ensures GivenOnes(a + b) == GivenOnes(a) + GivenOnes(b)
  {
    if a == [] {
      assert a + b == b;
    } else {
      assert (a + b)[1..] == a[1..] + b;
      GivenConcat(a[1..], b);
    }
  }

  lemma {:induction false} DropAllIs(queue: seq<Message>)
    ensures Messages(DropAll(queue)) == queue && GivenOnes(DropAll(queue)) == []
  {
    if queue != [] {
      DropAllIs(queue[1..]);
      assert DropAll(queue)[1..] == DropAll(queue[1..]);
    }
  }

  /**
   * No message is lost, repeated, torn or overtaken: those held first and those accepted
   * are, in this order, those that have left and those still held; the host has been given
   * exactly the ones that left other than by a flush; and the ring has not overfilled.
   */
  ghost predicate Conserves(n: nat, queue: seq<Message>, calls: seq<Call>) {
    var (after, replies) := ServeAll(n, queue, calls);
    var left := Departures(n, queue, calls);
    && queue + Accepted(calls, replies) == Messages(left) + after
    && Delivered(replies) == GivenOnes(left)
    && |Encode(after)| < n
  }

  lemma {:induction false} RunConserves(n: nat, queue: seq<Message>, calls: seq<Call>)
    requires |Encode(queue)| < n
    ensures Conserves(n, queue, calls)
    decreases |calls|
  {
    if calls != [] {
      RunConserves(n, queue, calls[..|calls| - 1]);
      match calls[|calls| - 1]
      case PushCall(m) => LastPush(n, queue, calls, m);
      case PopCall => LastPop(n, queue, calls);
      case FlushCall => LastFlush(n, queue, calls);
    }
  }

  lemma Regroup(a: seq<Bytes>, b: seq<Bytes>, c: seq<Bytes>)
    ensures (a + b) + c == a + (b + c)
  {
  }

  /** The books still balance after a message comes in, one is handed over, all are dropped. */
  lemma TakesIn(queue: seq<Bytes>, taken: seq<Bytes>, left: seq<Bytes>, before: seq<Bytes>, m: Bytes)
    requires queue + taken == left + before
    ensures queue + (taken + [m]) == left + (before + [m])
  {
    Regroup(queue, taken, [m]);
    Regroup(left, before, [m]);
  }

  lemma HandsOver(left: seq<Departure>, before: seq<Message>)
    requires before != []
    ensures var now := left + [Given(before[0])];
            Messages(left) + before == Messages(now) + before[1..] && GivenOnes(now) == GivenOnes(left) + [before[0]]
  {
    MessagesConcat(left, [Given(before[0])]);
    GivenConcat(left, [Given(before[0])]);
    assert before == [before[0]] + before[1..];
    Regroup(Messages(left), [before[0]], before[1..]);
  }

  lemma DropsAll(left: seq<Departure>, before: seq<Message>)
    ensures var now := left + DropAll(before);
            Messages(left) + before == Messages(now) + [] && GivenOnes(now) == GivenOnes(left)
  {
    MessagesConcat(left, DropAll(before));
    GivenConcat(left, DropAll(before));
    DropAllIs(before);
  }

  lemma LastPush(n: nat, queue: seq<Message>, calls: seq<Call>, m: Bytes)
    requires calls != [] && Conserves(n, queue, calls[..|calls| - 1]) && calls[|calls| - 1] == PushCall(m)
    ensures Conserves(n, queue, calls)
  {
    var k := |calls| - 1;
    var (before, replies) := ServeAll(n, queue, calls[..k]);
    var left, taken := Departures(n, queue, calls[..k]), Accepted(calls[..k], replies);
    assert ServeAll(n, queue, calls).1[..k] == replies;
    assert left + [] == left && taken + [] == taken && Delivered(replies) + [] == Delivered(replies);
    if PushStatus(n, |Encode(before)|, m) == Success {
      EncodeSnoc(before, m);
      TakesIn(queue, taken, Messages(left), before, m);
    }
  }

  lemma LastPop(n: nat, queue: seq<Message>, calls: seq<Call>)
    requires calls != [] && Conserves(n, queue, calls[..|calls| - 1]) && calls[|calls| - 1] == PopCall
    ensures Conserves(n, queue, calls)
  {
    var k := |calls| - 1;
    var (before, replies) := ServeAll(n, queue, calls[..k]);
    var left, taken := Departures(n, queue, calls[..k]), Accepted(calls[..k], replies);
    assert ServeAll(n, queue, calls).1[..k] == replies;
    assert left + [] == left && taken + [] == taken && Delivered(replies) + [] == Delivered(replies);
    if before != [] {
      HandsOver(left, before);
    }
  }

  lemma LastFlush(n: nat, queue: seq<Message>, calls: seq<Call>)
    requires calls != [] && Conserves(n, queue, calls[..|calls| - 1]) && calls[|calls| - 1] == FlushCall
    ensures Conserves(n, queue, calls)
  {
    var k := |calls| - 1;
    var (before, replies) := ServeAll(n, queue, calls[..k]);
    var left, taken := Departures(n, queue, calls[..k]), Accepted(calls[..k], replies);
    assert ServeAll(n, queue, calls).1[..k] == replies;
    assert taken + [] == taken && Delivered(replies) + [] == Delivered(replies);
    DropsAll(left, before);
  }

  class RxQueue {
    const buf: array<Octet>
    var readOffset: nat
    var writeOffset: nat
    ghost var reading: Bytes            // what is left of a message being popped
    ghost var messages: seq<Message>    // the messages after it, oldest first

    /** Everything between the two offsets. */
    ghost function Content(): Bytes
      reads this
    {
      reading + Encode(messages)
    }

    ghost predicate Valid()
      reads this, buf
    {
      && 17 <= buf.Length <= 255
      && readOffset < buf.Length
      && |Content()| < buf.Length
      && writeOffset == Place(readOffset, |Content()|, buf.Length)
      && Lies(buf[..], readOffset, Content())
    }

    /** The sizes the preprocessor lets through. */
    constructor (size: nat)
      requires MAX_CEC_MSG_LEN + 1 <= size <= 255
      ensures Valid() && fresh(buf) && buf.Length == size && reading == [] && messages == []
    {
      buf := new Octet[size];
      readOffset, writeOffset, reading, messages := 0, 0, [], [];
    }

    /** cec_rx_queue_flush */
    method Flush()
      requires Valid()
      modifies this
      ensures Valid() && reading == [] && messages == []
    {
      readOffset := 0;
      writeOffset := 0;
      reading, messages := [], [];
    }

    /** The writing part of a push: the message goes in behind a zero length. */
    method Fill(msg: Bytes) returns (offset: nat, full: bool)
      requires Valid() && 0 < |msg| <= MAX_CEC_MSG_LEN
      modifies buf
      ensures Lies(buf[..], readOffset, Content())
      ensures full <==> |Content()| + 1 + |msg| > buf.Length
      ensures !full ==> offset == Place(readOffset, |Content()| + 1 + |msg|, buf.Length)
      ensures !full ==> HasPart(buf[..], readOffset, |Content()|, msg, |msg|)
    {
      var n := buf.Length;
      ghost var used, bytes := |Content()|, Content();
      offset := writeOffset;
      buf[offset] := 0;
      NextPlace(offset, n);
      offset := (offset + 1) % n;
      full := false;
      var i := 0;
      while i < |msg|
        invariant i <= |msg| && used + 1 + i <= n && offset == Place(readOffset, used + 1 + i, n)
        invariant Lies(buf[..], readOffset, bytes) && HasPart(buf[..], readOffset, used, msg, i)
      {
        if offset == readOffset {
          full := true;
          return;
        }
        OneMoreByte(buf[..], readOffset, bytes, msg, i);
        buf[offset] := msg[i];
        NextPlace(offset, n);
        offset := (offset + 1) % n;
        i := i + 1;
      }
    }

    /** The committing part of a push. */
    method Commit(msg: Bytes, offset: nat)
      requires Valid() && 0 < |msg| <= MAX_CEC_MSG_LEN && |Content()| + 1 + |msg| < buf.Length
      requires offset == Place(readOffset, |Content()| + 1 + |msg|, buf.Length)
      requires HasPart(buf[..], readOffset, |Content()|, msg, |msg|)
      modifies buf, `writeOffset, `messages
      ensures Valid() && messages == old(messages) + [msg]
    {
      ghost var was, bytes := buf[..], Content();
      buf[writeOffset] := |msg|;
      Committed(was, buf[..], readOffset, bytes, msg);
      writeOffset := offset;
      ContentSnoc(reading, messages, msg, bytes, reading + Encode(messages + [msg]));
      messages := messages + [msg];
    }

    /**
     * cec_rx_queue_push: appends the message when there is room for it. A push that
     * fails leaves the messages alone, whatever bytes it has written.
     */
    method Push(msg: Bytes) returns (rv: Status)
      requires Valid()
      modifies buf, `writeOffset, `messages
      ensures Valid() && rv == PushStatus(buf.Length, old(|Content()|), msg)
      ensures rv == Success ==> 0 < |msg| <= 16 && messages == old(messages) + [msg]
      ensures rv != Success ==> messages == old(messages)
    {
      if |msg| > MAX_CEC_MSG_LEN || |msg| == 0 {
        return Inval;
      }
      var offset, full := Fill(msg);
      if full || offset == readOffset {
        return Overflow;
      }
      Commit(msg, offset);
      return Success;
    }

    /** The start of a pop: take the length of the oldest message out of the ring. */
    method TakeLength() returns (len: int)
      requires Valid() && reading == []
      modifies `readOffset, `reading, `messages
      ensures Valid()
      ensures old(messages) == [] ==> len == -1 && messages == [] && reading == []
      ensures old(messages) != [] ==>
        reading == old(messages)[0] && len == |reading| && messages == old(messages)[1..]
    {
      if readOffset == writeOffset {
        return -1;
      }
      assert Content()[0] == |messages[0]|;
      len := buf[readOffset];
      if len == 0 || len > MAX_CEC_MSG_LEN {
        assert false;
      }
      NextPlace(readOffset, buf.Length);
      reading, messages := messages[0], messages[1..];
      readOffset := (readOffset + 1) % buf.Length;
      assert Content() == old(Content())[1..];
    }

    /** One byte of a pop. */
    method TakeByte() returns (b: Octet)
      requires Valid() && reading != []
      modifies `readOffset, `reading
      ensures Valid() && b == old(reading)[0] && reading == old(reading)[1..]
    {
      assert Content()[0] == reading[0];
      b := buf[readOffset];
      NextPlace(readOffset, buf.Length);
      reading := reading[1..];
      readOffset := (readOffset + 1) % buf.Length;
      assert Content() == old(Content())[1..];
    }

    /** cec_rx_queue_pop: the oldest message, whole; -1 when there is none. */
    method Pop(msg: array<Octet>) returns (rv: int, len: nat)
      requires Valid() && reading == [] && msg.Length == MAX_CEC_MSG_LEN && msg != buf
      modifies `readOffset, `reading, `messages, msg
      ensures Valid() && reading == []
      ensures old(messages) == [] ==> rv == -1 && len == 0 && messages == []
      ensures old(messages) != [] ==>
        rv == 0 && len == |old(messages)[0]| && msg[..len] == old(messages)[0]
        && messages == old(messages)[1..]
    {
      ghost var was := messages;
      var n := TakeLength();
      if n < 0 {
        return -1, 0;
      }
      var i := 0;
      while i < n
        invariant 0 <= i <= n && Valid() && messages == was[1..]
        invariant |was[0]| == n && reading == was[0][i..]
        invariant msg[..i] == was[0][..i]
      {
        msg[i] := TakeByte();
        i := i + 1;
      }
      return 0, n;
    }

    /** A receive interrupt and then one byte of a pop. */
    method ArrivalThenByte(m: Bytes, msg: array<Octet>, i: nat) returns (rv: Status)
      requires Valid() && reading != [] && i < msg.Length && msg != buf
      modifies this, buf, msg
      ensures Valid() && rv == PushStatus(buf.Length, old(|reading| + |Encode(messages)|), m)
      ensures forall message :: old(Copied(msg[..], i, reading, message)) ==> Copied(msg[..], i + 1, reading, message)
      ensures rv == Success ==> 0 < |m| <= 16 && messages == old(messages) + [m]
      ensures rv != Success ==> messages == old(messages)
    {
      rv := Push(m);
      var b := TakeByte();
      msg[i] := b;
    }

    /** The same for one byte of a pop under interrupts, and what of the arrivals has been admitted then. */
    method InterruptedByte(msg: array<Octet>, i: nat, n: nat, arrivals: nat -> Bytes, ghost message: Bytes,
                           ghost queue: seq<Message>, ghost before: seq<Message>) returns (ghost accepted: seq<Message>)
      requires Valid() && i < n == |message| && n <= msg.Length && msg != buf && Copied(msg[..], i, reading, message)
      requires messages == queue + before && before == Admitted(buf.Length, n, queue, arrivals, i)
      modifies this, buf, msg
      ensures Valid() && Copied(msg[..], i + 1, reading, message)
      ensures messages == queue + accepted && accepted == Admitted(buf.Length, n, queue, arrivals, i + 1)
    {
      ghost var held := messages;
      var rv := ArrivalThenByte(arrivals(i), msg, i);
      accepted := if rv == Success then before + [arrivals(i)] else before;
    }

    /**
     * A pop with a receive interrupt before every byte it copies. Pushes do not take the
     * lock; the message popped is the oldest one all the same, and every arrival that
     * fits beside what is still in the ring follows the rest, in order.
     */
    method PopUnderInterrupts(msg: array<Octet>, arrivals: nat -> Bytes) returns (len: nat, ghost accepted: seq<Message>)
      requires Valid() && reading == [] && messages != [] && msg.Length == MAX_CEC_MSG_LEN && msg != buf
      modifies this, buf, msg
      ensures Valid() && reading == []
      ensures len == |old(messages)[0]| && msg[..len] == old(messages)[0]
      ensures messages == old(messages)[1..] + accepted
      ensures accepted == Admitted(buf.Length, len, old(messages)[1..], arrivals, len)
    {
      ghost var message, queue := messages[0], messages[1..];
      accepted := [];
      var n := TakeLength();
      var i := 0;
      while i < n
        invariant 0 <= i <= n == |message| && Valid() && Copied(msg[..], i, reading, message)
        invariant messages == queue + accepted && accepted == Admitted(buf.Length, n, queue, arrivals, i)
      {
        accepted := InterruptedByte(msg, i, n, arrivals, message, queue, accepted);
        i := i + 1;
      }
      AllCopied(msg[..], reading, message);
      return n, accepted;
    }

    /** Any sequence of calls is answered, and leaves the ring, as by the bounded FIFO. */
    method Execute(calls: seq<Call>) returns (replies: seq<Reply>)
      requires Valid() && reading == []
      modifies this, buf
      ensures Valid() && reading == []
      ensures (messages, replies) == ServeAll(buf.Length, old(messages), calls)
    {
      replies := [];
      var msg := new Octet[MAX_CEC_MSG_LEN];
      for i := 0 to |calls|
        invariant Valid() && reading == [] && fresh(msg)
        invariant (messages, replies) == ServeAll(buf.Length, old(messages), calls[..i])
      {
        assert calls[..i + 1][..i] == calls[..i];
        var reply := Answer(calls[i], msg);
        replies := replies + [reply];
      }
      assert calls[..|calls|] == calls;
    }

    /** One call, with a buffer for the message of a pop. */
    method Answer(c: Call, msg: array<Octet>) returns (reply: Reply)
      requires Valid() && reading == [] && msg.Length == MAX_CEC_MSG_LEN && msg != buf
      modifies this, buf, msg
      ensures Valid() && reading == []
      ensures (messages, reply) == Serve(buf.Length, old(messages), c)
    {
      match c
      case PushCall(m) =>
        var status := Push(m);
        reply := Pushed(status);
      case PopCall =>
        var rv, len := Pop(msg);
        reply := if rv < 0 then Nothing else Popped(msg[..len]);
      case FlushCall =>
        Flush();
        reply := Flushed;
    }
  }
}
