/**
  Reassembly of OBD-II responses from CAN frames (obd_message of
  endpoint/OBDComp/monitor/monitor.c), after the multi-frame format of section 9.6 of
  ISO 15765-2:2016.  The count of bytes received so far is a static variable: it is shared by
  all messages of the process and never reset.
 */
module CanMonitor {
  import opened Common

  type Byte = x: int | 0 <= x < 256

  type Frame = f: seq<Byte> | |f| == 8 witness [0, 0, 0, 0, 0, 0, 0, 0]

  /** The high nibble of the first byte: 0 single, 1 first, 2 consecutive, 3 flow control. */
  function MessageType(f: Frame): int {
    f[0] / 16
  }

  /** The static counter and the message being assembled; no buffer yet is None. */
  datatype Obd = Obd(appended: int, data: Option<seq<Byte>>, len: nat)

  /** Blocked: waiting for a frame that does not come.  Overrun: a copy outside the buffer. */
  datatype Outcome = Done | Blocked | Overrun

  datatype Result = Result(outcome: Outcome, obd: Obd, rest: seq<Frame>)

  function DeclaredSize(f: Frame): nat {
    var high: int, low: int := f[0], f[1];
    high % 16 * 256 + low
  }

  function Message(o: Obd, f: Frame, incoming: seq<Frame>): Result
    decreases |incoming|, 1
  {
    match MessageType(f)
    case 0 => Result(Done, Obd(o.appended, Some(f), 8), incoming)
    case 1 =>
      var size := DeclaredSize(f);
      if size < 6 then Result(Overrun, o, incoming)
      else Continue(Obd(o.appended + 6, Some(f[2..] + Repeat(0, size - 6)), size), incoming)
    case 2 =>
      if o.data.None? || o.appended < 0 || o.appended + 7 > |o.data.value| then Result(Overrun, o, incoming)
      else
        var d := o.data.value;
        Continue(o.(data := Some(d[..o.appended] + f[1..] + d[o.appended + 7..]), appended := o.appended + 7), incoming)
    case _ => Continue(o, incoming)
  }

  /** The completeness test and the receive that follows it. */
  function Continue(o: Obd, incoming: seq<Frame>): Result
    decreases |incoming|, 0
  {
    if o.len == o.appended then Result(Done, o, incoming)
    else if incoming == [] then Result(Blocked, o, [])
    else Message(o, incoming[0], incoming[1..])
  }

  /** One query: the first frame is received, then the message is assembled in an empty object. */
  function QueryFrom(counter: int, bus: seq<Frame>): Result {
    if bus == [] then Result(Blocked, Obd(counter, None, 0), [])
    else Message(Obd(counter, None, 0), bus[0], bus[1..])
  }

  /** A process that makes one query after another, frames arriving before each; it goes no
      further than a query that does not complete. */
  function Session(counter: int, bus: seq<Frame>, arrivals: seq<seq<Frame>>): (r: seq<Result>)
    ensures |r| <= |arrivals|
    decreases |arrivals|
  {
    if arrivals == [] then []
    else
      var r := QueryFrom(counter, bus + arrivals[0]);
      if r.outcome != Done then [r] else [r] + Session(r.obd.appended, r.rest, arrivals[1..])
  }

  lemma SessionStep(done: seq<Result>, counter: int, bus: seq<Frame>, arrivals: seq<seq<Frame>>, i: nat)
    requires i < |arrivals|
    ensures var r := QueryFrom(counter, bus + arrivals[i]);
            done + Session(counter, bus, arrivals[i..]) ==
              if r.outcome != Done then done + [r]
              else (done + [r]) + Session(r.obd.appended, r.rest, arrivals[i + 1..])
  {
    assert arrivals[i..][0] == arrivals[i] && arrivals[i..][1..] == arrivals[i + 1..];
    var r := QueryFrom(counter, bus + arrivals[i]);
    var rest := Session(r.obd.appended, r.rest, arrivals[i + 1..]);
    assert done + ([r] + rest) == (done + [r]) + rest;
  }

  class Monitor {
    var appendData: int
    var data: Option<seq<Byte>>
    var dataLen: nat
    var bus: seq<Frame>

    ghost function View(): Obd
      reads this
    {
      Obd(appendData, data, dataLen)
    }

    constructor (bus: seq<Frame>)
      ensures View() == Obd(0, None, 0) && this.bus == bus
    {
      appendData, data, dataLen := 0, None, 0;
      this.bus := bus;
    }

    /** The caller clears the data object, and nothing else, before each query. */
    method Clear()
      modifies this`data, this`dataLen
      ensures View() == Obd(old(appendData), None, 0)
    {
      data, dataLen := None, 0;
    }

    method ObdMessage(frame: Frame) returns (outcome: Outcome)
      modifies this
      ensures Result(outcome, View(), bus) == Message(old(View()), frame, old(bus))
      decreases |bus|
    {
      var kind := MessageType(frame);
      if kind == 0 {
        data, dataLen := Some(frame), 8;
        return Done;
      } else if kind == 1 {
        var size := DeclaredSize(frame);
        if size < 6 {
          return Overrun;
        }
        data, dataLen := Some(frame[2..] + Repeat(0, size - 6)), size;
        appendData := appendData + 6;
      } else if kind == 2 {
        if data.None? || appendData < 0 || appendData + 7 > |data.value| {
          return Overrun;
        }
        data := Some(data.value[..appendData] + frame[1..] + data.value[appendData + 7..]);
        appendData := appendData + 7;
      }
      if dataLen == appendData {
        return Done;
      }
      if bus == [] {
        return Blocked;
      }
      var next := bus[0];
      bus := bus[1..];
      outcome := ObdMessage(next);
    }

    method Query() returns (outcome: Outcome)
      modifies this
      ensures Result(outcome, View(), bus) == QueryFrom(old(appendData), old(bus))
    {
      Clear();
      if bus == [] {
        return Blocked;
      }
      var first := bus[0];
      bus := bus[1..];
      outcome := ObdMessage(first);
    }

    /** The loop of get_obd_datasets over the queried identifiers. */
    method GetDatasets(arrivals: seq<seq<Frame>>) returns (results: seq<Result>)
      modifies this
      ensures results == Session(old(appendData), old(bus), arrivals)
    {
      results := [];
      for i := 0 to |arrivals|
        invariant results + Session(appendData, bus, arrivals[i..]) == Session(old(appendData), old(bus), arrivals)
      {
        SessionStep(results, appendData, bus, arrivals, i);
        bus := bus + arrivals[i];
        var outcome := Query();
        results := results + [Result(outcome, Obd(appendData, data, dataLen), bus)];
        if outcome != Done {
          return;
        }
      }
      assert arrivals[|arrivals|..] == [];
    }
  }

  // ----- the sender's side of the format -----

  function FirstFrame(payload: seq<Byte>): Frame
    requires 6 <= |payload| <= 4095
  {
    [16 + |payload| / 256, |payload| % 256] + payload[..6]
  }

  /** The consecutive frames for the bytes after the first six; the last is zero-filled. */
  function Consecutive(rest: seq<Byte>, index: nat): seq<Frame> {
    if rest == [] then []
    else if |rest| < 7 then [[32 + index % 16] + rest + Repeat(0, 7 - |rest|)]
    else [[32 + index % 16] + rest[..7]] + Consecutive(rest[7..], index + 1)
  }

  ghost predicate AllConsecutive(fs: seq<Frame>) {
    forall i :: 0 <= i < |fs| ==> MessageType(fs[i]) == 2
  }

  function Joined(fs: seq<Frame>): (r: seq<Byte>)
    ensures |r| == 7 * |fs|
  {
    if fs == [] then [] else fs[0][1..] + Joined(fs[1..])
  }

  lemma {:induction false} ConsecutiveShape(rest: seq<Byte>, index: nat)
    ensures AllConsecutive(Consecutive(rest, index))
    ensures |Consecutive(rest, index)| == (|rest| + 6) / 7
    ensures |rest| % 7 == 0 ==> Joined(Consecutive(rest, index)) == rest
    decreases |rest|
  {
    if |rest| >= 7 {
      ConsecutiveShape(rest[7..], index + 1);
      assert rest == rest[..7] + rest[7..];
    }
  }

  // ----- what the receiver makes of consecutive frames -----

  ghost predicate Filling(o: Obd) {
    o.data.Some? && |o.data.value| == o.len && 0 <= o.appended
  }

  lemma TakesFrame(o: Obd, incoming: seq<Frame>)
    requires Filling(o) && o.appended + 7 <= o.len && incoming != [] && MessageType(incoming[0]) == 2
    ensures var d, a, f := o.data.value, o.appended, incoming[0];
            var o' := o.(data := Some(d[..a] + f[1..] + d[a + 7..]), appended := a + 7);
            && Filling(o') && o'.data.value[..a + 7] == d[..a] + f[1..]
            && Continue(o, incoming) == Continue(o', incoming[1..])
  {
  }

  lemma ConsecutiveTail(incoming: seq<Frame>, n: nat)
    requires 1 <= n <= |incoming| && AllConsecutive(incoming[..n])
    ensures MessageType(incoming[0]) == 2 && AllConsecutive(incoming[1..][..n - 1])
    ensures Joined(incoming[..n]) == incoming[0][1..] + Joined(incoming[1..][..n - 1])
  {
    var p, q := incoming[..n], incoming[1..][..n - 1];
    assert p[0] == incoming[0] && p[1..] == q;
    forall i | 0 <= i < |q|
      ensures MessageType(q[i]) == 2
    {
      assert q[i] == p[1..][i] == p[i + 1];
    }
  }

  /** If the missing byte count is a multiple of seven, exactly that many frames are taken. */
  lemma {:induction false} FillsExactly(o: Obd, n: nat, incoming: seq<Frame>)
    requires Filling(o) && o.appended + 7 * n == o.len && n <= |incoming|
    requires AllConsecutive(incoming[..n])
    ensures Continue(o, incoming) ==
            Result(Done, Obd(o.len, Some(o.data.value[..o.appended] + Joined(incoming[..n])), o.len), incoming[n..])
    decreases n
  {
    var d, a := o.data.value, o.appended;
    if n == 0 {
      assert incoming[..0] == [];
      assert d[..a] + [] == d;
    } else {
      var f, tail := incoming[0], incoming[1..];
      ConsecutiveTail(incoming, n);
      TakesFrame(o, incoming);
      var o' := o.(data := Some(d[..a] + f[1..] + d[a + 7..]), appended := a + 7);
      FillsExactly(o', n - 1, tail);
      assert (d[..a] + f[1..]) + Joined(tail[..n - 1]) == d[..a] + (f[1..] + Joined(tail[..n - 1]));
      assert incoming[n..] == tail[n - 1..];
    }
  }

  /** Otherwise the stop test is never met, and once enough frames are there one of them is
      copied outside the buffer. */
  lemma {:induction false} NeverFills(o: Obd, n: nat, incoming: seq<Frame>)
    requires Filling(o) && o.appended != o.len && (o.appended < o.len ==> (o.len - o.appended) % 7 != 0)
    requires 1 <= n <= |incoming| && AllConsecutive(incoming[..n]) && o.len - o.appended <= 7 * n
    ensures Continue(o, incoming).outcome == Overrun
    decreases n
  {
    ConsecutiveTail(incoming, n);
    if o.appended + 7 <= o.len {
      TakesFrame(o, incoming);
      var d, a, f := o.data.value, o.appended, incoming[0];
      NeverFills(o.(data := Some(d[..a] + f[1..] + d[a + 7..]), appended := a + 7), n - 1, incoming[1..]);
    }
  }

  /** Receiving a payload on a process whose counter stands at c. */
  function Receive(c: nat, payload: seq<Byte>, tail: seq<Frame>): Result
    requires 6 <= |payload| <= 4095
  {
    Message(Obd(c, None, 0), FirstFrame(payload), Consecutive(payload[6..], 1) + tail)
  }

  /** A first frame starts a new buffer of its declared size, whatever was being assembled. */
  lemma FirstFrameRead(o: Obd, payload: seq<Byte>, incoming: seq<Frame>)
    requires 6 <= |payload| <= 4095
    ensures Message(o, FirstFrame(payload), incoming) ==
            Continue(Obd(o.appended + 6, Some(payload[..6] + Repeat(0, |payload| - 6)), |payload|), incoming)
  {
  }

  /** The first n whole frames carry the first 7n bytes. */
  lemma {:induction false} JoinedPrefix(rest: seq<Byte>, index: nat, n: nat)
    requires 7 * n <= |rest|
    ensures n <= |Consecutive(rest, index)| && Joined(Consecutive(rest, index)[..n]) == rest[..7 * n]
    decreases n
  {
    var fs := Consecutive(rest, index);
    if n > 0 {
      JoinedPrefix(rest[7..], index + 1, n - 1);
      var tail := Consecutive(rest[7..], index + 1);
      assert fs[..n][0] == fs[0] && fs[..n][1..] == tail[..n - 1];
      assert rest[..7 * n] == rest[..7] + rest[7..][..7 * (n - 1)];
    }
  }

  lemma PrefixConsecutive(fs: seq<Frame>, tail: seq<Frame>, n: nat)
    requires AllConsecutive(fs) && n <= |fs|
    ensures AllConsecutive((fs + tail)[..n]) && (fs + tail)[..n] == fs[..n] && (fs + tail)[n..] == fs[n..] + tail
  {
    assert (fs + tail)[..n] == fs[..n];
  }

  /** Whether the counter, starting at c, ever equals the declared length. */
  predicate Meets(c: nat, len: nat) {
    c + 6 <= len && (len - 6 - c) % 7 == 0
  }

  /** What is in the buffer when it does: after the first six bytes a gap as long as the counter
      was, then the payload's next bytes, its last c bytes missing. */
  function Gapped(c: nat, payload: seq<Byte>): seq<Byte>
    requires 6 <= |payload| && c + 6 <= |payload|
  {
    payload[..6] + Repeat(0, c) + payload[6..|payload| - c]
  }

  lemma ReceiveMeets(c: nat, payload: seq<Byte>, tail: seq<Frame>)
    requires 6 <= |payload| <= 4095 && Meets(c, |payload|)
    ensures var n := (|payload| - 6 - c) / 7;
            && n <= |Consecutive(payload[6..], 1)|
            && Receive(c, payload, tail) ==
                 Result(Done, Obd(|payload|, Some(Gapped(c, payload)), |payload|),
                        Consecutive(payload[6..], 1)[n..] + tail)
  {
    var rest, n := payload[6..], (|payload| - 6 - c) / 7;
    var fs := Consecutive(rest, 1);
    var o := Obd(c + 6, Some(payload[..6] + Repeat(0, |payload| - 6)), |payload|);
    FirstFrameRead(Obd(c, None, 0), payload, fs + tail);
    ConsecutiveShape(rest, 1);
    JoinedPrefix(rest, 1, n);
    PrefixConsecutive(fs, tail, n);
    FillsExactly(o, n, fs + tail);
    assert o.data.value[..c + 6] == payload[..6] + Repeat(0, c);
    assert rest[..7 * n] == payload[6..|payload| - c];
  }

  lemma ReceiveMisses(c: nat, payload: seq<Byte>, tail: seq<Frame>)
    requires 7 <= |payload| <= 4095 && !Meets(c, |payload|)
    ensures Receive(c, payload, tail).outcome == Overrun
  {
    var rest := payload[6..];
    var fs := Consecutive(rest, 1);
    ConsecutiveShape(rest, 1);
    FirstFrameRead(Obd(c, None, 0), payload, fs + tail);
    PrefixConsecutive(fs, tail, |fs|);
    NeverFills(Obd(c + 6, Some(payload[..6] + Repeat(0, |payload| - 6)), |payload|), |fs|, fs + tail);
  }

  /** A message met by a counter above zero leaves frames of its own unread. */
  lemma FramesLeftOver(c: nat, payload: seq<Byte>, tail: seq<Frame>)
    requires 6 <= |payload| <= 4095 && Meets(c, |payload|)
    ensures var fs, n := Consecutive(payload[6..], 1), (|payload| - 6 - c) / 7;
            && n <= |fs|
            && (|tail| < |fs[n..] + tail| <==> 0 < c)
            && (c == 0 ==> fs[n..] + tail == tail && Gapped(c, payload) == payload)
  {
    ConsecutiveShape(payload[6..], 1);
    assert c == 0 ==> payload[..6] + Repeat(0, c) == payload[..6];
  }

  /** For every value of the counter that earlier messages left behind, every multi-frame
      payload and whatever follows on the bus: the message completes exactly when the counter can
      meet its length, and otherwise overruns its buffer; it is received whole, from exactly its
      own frames, if and only if the counter was zero and the length is 6 + 7k. */
  lemma ReceiveExactly(c: nat, payload: seq<Byte>, tail: seq<Frame>)
    requires 7 <= |payload| <= 4095
    ensures Receive(c, payload, tail).outcome == if Meets(c, |payload|) then Done else Overrun
    ensures Receive(c, payload, tail) == Result(Done, Obd(|payload|, Some(payload), |payload|), tail)
       <==> c == 0 && |payload| % 7 == 6
  {
    if Meets(c, |payload|) {
      ReceiveMeets(c, payload, tail);
      FramesLeftOver(c, payload, tail);
    } else {
      ReceiveMisses(c, payload, tail);
    }
  }

  /** The counter is never reset: after one completed multi-frame message no further one is
      received correctly.  It completes, with the gap in its middle and frames of its own left
      unread, exactly when its length is 5 modulo 7 and at least six more than the first. */
  lemma SecondMessageNeverCorrect(first: seq<Byte>, second: seq<Byte>, tail: seq<Frame>)
    requires 13 <= |first| <= 4095 && |first| % 7 == 6 && 7 <= |second| <= 4095
    ensures var bus := [FirstFrame(second)] + (Consecutive(second[6..], 1) + tail);
            Receive(0, first, bus) == Result(Done, Obd(|first|, Some(first), |first|), bus)
    ensures var r := Receive(|first|, second, tail);
            && (r.outcome == Done <==> |second| % 7 == 5 && |first| + 6 <= |second|)
            && (r.outcome == Done ==> r.obd.data == Some(Gapped(|first|, second)) && |tail| < |r.rest|)
            && r != Result(Done, Obd(|second|, Some(second), |second|), tail)
  {
    ReceiveExactly(0, first, [FirstFrame(second)] + (Consecutive(second[6..], 1) + tail));
    AfterOneMessage(|first|, second, tail);
  }

  lemma AfterOneMessage(c: nat, second: seq<Byte>, tail: seq<Frame>)
    requires 13 <= c && c % 7 == 6 && 7 <= |second| <= 4095
    ensures var r := Receive(c, second, tail);
            && (r.outcome == Done <==> |second| % 7 == 5 && c + 6 <= |second|)
            && (r.outcome == Done ==> r.obd.data == Some(Gapped(c, second)) && |tail| < |r.rest|)
            && r != Result(Done, Obd(|second|, Some(second), |second|), tail)
  {
    ReceiveExactly(c, second, tail);
    if Meets(c, |second|) {
      ReceiveMeets(c, second, tail);
      FramesLeftOver(c, second, tail);
    }
  }

  /** A run in which the second message completes with zeros in it: 13 bytes, then 26. */
  lemma SecondMessageCompletesCorrupted(payload: seq<Byte>, tail: seq<Frame>)
    requires |payload| == 26
    ensures Receive(13, payload, tail).outcome == Done
    ensures Receive(13, payload, tail).obd.data == Some(payload[..6] + Repeat(0, 13) + payload[6..13])
  {
    ReceiveMeets(13, payload, tail);
  }

  // ----- single frames, other frames, and too few frames -----

  /** The sender's side of a message of up to seven bytes: the length, the bytes, zeros. */
  function SingleFrame(payload: seq<Byte>): Frame
    requires |payload| <= 7
  {
    [|payload|] + payload + Repeat(0, 7 - |payload|)
  }

  /** A single frame is received whatever the counter is and leaves it alone: the data are the frame,
      with the length in front of the bytes. */
  lemma SingleFrameReceived(c: int, payload: seq<Byte>, tail: seq<Frame>)
    requires |payload| <= 7
    ensures var r := QueryFrom(c, [SingleFrame(payload)] + tail);
            && r.outcome == Done && r.rest == tail && r.obd.appended == c && r.obd.len == 8
            && r.obd.data.Some? && |r.obd.data.value| == 8 && r.obd.data.value[0] == |payload|
            && r.obd.data.value[1..1 + |payload|] == payload
  {
    var bus := [SingleFrame(payload)] + tail;
    assert bus[0] == SingleFrame(payload) && bus[1..] == tail;
  }

  /** Frames of other kinds are read and dropped while a message is incomplete. */
  lemma {:induction false} OthersDropped(o: Obd, others: seq<Frame>, incoming: seq<Frame>)
    requires o.len != o.appended && forall i :: 0 <= i < |others| ==> MessageType(others[i]) >= 3
    ensures Continue(o, others + incoming) == Continue(o, incoming)
    decreases |others|
  {
    if others == [] {
      assert others + incoming == incoming;
    } else {
      assert (others + incoming)[0] == others[0] && (others + incoming)[1..] == others[1..] + incoming;
      OthersDropped(o, others[1..], incoming);
    }
  }

  /** As the first frame of a query they are dropped too, except that a counter of zero meets the
      length of the empty object and completes the query without data. */
  lemma OtherFrameFirst(c: int, f: Frame, tail: seq<Frame>)
    requires MessageType(f) >= 3
    ensures QueryFrom(c, [f] + tail) ==
            if c == 0 then Result(Done, Obd(0, None, 0), tail) else QueryFrom(c, tail)
  {
    var o := Obd(c, None, 0);
    assert ([f] + tail)[0] == f && ([f] + tail)[1..] == tail;
    assert Message(o, f, tail) == Continue(o, tail);
  }

  /** A consecutive frame without a message to belong to, and a first frame that declares less than
      it carries, are copied outside any buffer. */
  lemma StrayFramesOverrun(c: int, f: Frame, tail: seq<Frame>)
    requires MessageType(f) == 2 || (MessageType(f) == 1 && f[0] == 16 && f[1] < 6)
    ensures QueryFrom(c, [f] + tail) == Result(Overrun, Obd(c, None, 0), tail)
  {
    assert ([f] + tail)[0] == f && ([f] + tail)[1..] == tail;
  }

  /** With too few consecutive frames the process waits, with what came in its place. */
  lemma {:induction false} WaitsForTheRest(o: Obd, incoming: seq<Frame>)
    requires Filling(o) && AllConsecutive(incoming) && o.appended + 7 * |incoming| < o.len
    ensures var r, a := Continue(o, incoming), o.appended + 7 * |incoming|;
            && r.outcome == Blocked && r.rest == [] && r.obd.appended == a && r.obd.len == o.len
            && r.obd.data.Some? && |r.obd.data.value| == o.len
            && r.obd.data.value[..a] == o.data.value[..o.appended] + Joined(incoming)
    decreases |incoming|
  {
    if incoming != [] {
      var d, a, f := o.data.value, o.appended, incoming[0];
      assert incoming[..|incoming|] == incoming && incoming[1..][..|incoming| - 1] == incoming[1..];
      ConsecutiveTail(incoming, |incoming|);
      TakesFrame(o, incoming);
      WaitsForTheRest(o.(data := Some(d[..a] + f[1..] + d[a + 7..]), appended := a + 7), incoming[1..]);
      assert (d[..a] + f[1..]) + Joined(incoming[1..]) == d[..a] + (f[1..] + Joined(incoming[1..]));
    }
  }

  // ----- whole runs -----

  /** The counter only grows. */
  lemma {:induction false} MessageCounts(o: Obd, f: Frame, incoming: seq<Frame>)
    ensures Message(o, f, incoming).obd.appended >= o.appended
    ensures MessageType(f) == 1 && DeclaredSize(f) >= 6 ==> Message(o, f, incoming).obd.appended >= o.appended + 6
    decreases |incoming|, 1
  {
    var size := DeclaredSize(f);
    if MessageType(f) == 1 && size >= 6 {
      ContinueCounts(Obd(o.appended + 6, Some(f[2..] + Repeat(0, size - 6)), size), incoming);
    } else if MessageType(f) == 2 && o.data.Some? && 0 <= o.appended && o.appended + 7 <= |o.data.value| {
      var d, a := o.data.value, o.appended;
      ContinueCounts(o.(data := Some(d[..a] + f[1..] + d[a + 7..]), appended := a + 7), incoming);
    } else if MessageType(f) != 0 && MessageType(f) != 1 && MessageType(f) != 2 {
      ContinueCounts(o, incoming);
    }
  }

  lemma {:induction false} ContinueCounts(o: Obd, incoming: seq<Frame>)
    ensures Continue(o, incoming).obd.appended >= o.appended
    decreases |incoming|, 0
  {
    if o.len != o.appended && incoming != [] {
      MessageCounts(o, incoming[0], incoming[1..]);
    }
  }

  /** What query i of a run finds on the bus, and the counter it starts from. */
  ghost function BusBefore(counter: int, bus: seq<Frame>, arrivals: seq<seq<Frame>>, i: nat): seq<Frame>
    requires i < |Session(counter, bus, arrivals)|
  {
    (if i == 0 then bus else Session(counter, bus, arrivals)[i - 1].rest) + arrivals[i]
  }

  ghost function CounterBefore(counter: int, bus: seq<Frame>, arrivals: seq<seq<Frame>>, i: nat): int
    requires i < |Session(counter, bus, arrivals)|
  {
    if i == 0 then counter else Session(counter, bus, arrivals)[i - 1].obd.appended
  }

  lemma {:induction false} SessionAt(counter: int, bus: seq<Frame>, arrivals: seq<seq<Frame>>, i: nat)
    requires i < |Session(counter, bus, arrivals)|
    ensures Session(counter, bus, arrivals)[i] ==
            QueryFrom(CounterBefore(counter, bus, arrivals, i), BusBefore(counter, bus, arrivals, i))
    decreases |arrivals|
  {
    var r := QueryFrom(counter, bus + arrivals[0]);
    if r.outcome == Done {
      var later := Session(r.obd.appended, r.rest, arrivals[1..]);
      if later != [] {
        SessionAt(r.obd.appended, r.rest, arrivals[1..], if i == 0 then 0 else i - 1);
      }
    }
  }

  lemma {:induction false} CounterGrows(counter: int, bus: seq<Frame>, arrivals: seq<seq<Frame>>, i: nat, j: nat)
    requires i <= j < |Session(counter, bus, arrivals)|
    ensures CounterBefore(counter, bus, arrivals, i) <= CounterBefore(counter, bus, arrivals, j)
    decreases j
  {
    if i < j {
      CounterGrows(counter, bus, arrivals, i, j - 1);
      QueryCounts(counter, bus, arrivals, j - 1);
    }
  }

  lemma QueryCounts(counter: int, bus: seq<Frame>, arrivals: seq<seq<Frame>>, i: nat)
    requires i < |Session(counter, bus, arrivals)|
    ensures var c, b := CounterBefore(counter, bus, arrivals, i), BusBefore(counter, bus, arrivals, i);
            && Session(counter, bus, arrivals)[i].obd.appended >= c
            && (b != [] && MessageType(b[0]) == 1 && DeclaredSize(b[0]) >= 6 ==>
                  Session(counter, bus, arrivals)[i].obd.appended >= c + 6)
  {
    SessionAt(counter, bus, arrivals, i);
    var c, b := CounterBefore(counter, bus, arrivals, i), BusBefore(counter, bus, arrivals, i);
    if b != [] {
      MessageCounts(Obd(c, None, 0), b[0], b[1..]);
    }
  }

  /** The bus holds a multi-frame message, and a query takes it, with all its bytes in their places
      and from exactly its own frames. */
  ghost predicate Whole(counter: int, bus: seq<Frame>, payload: seq<Byte>, tail: seq<Frame>) {
    && 7 <= |payload| <= 4095 && bus == [FirstFrame(payload)] + (Consecutive(payload[6..], 1) + tail)
    && var r := QueryFrom(counter, bus);
    && r.outcome == Done && r.obd.data == Some(payload) && r.rest == tail
  }

  ghost predicate WholeAt(counter: int, bus: seq<Frame>, arrivals: seq<seq<Frame>>, i: nat)
    requires i < |Session(counter, bus, arrivals)|
  {
    exists payload, tail ::
      Whole(CounterBefore(counter, bus, arrivals, i), BusBefore(counter, bus, arrivals, i), payload, tail)
  }

  /** That takes a counter of zero and a length of 6 + 7k. */
  lemma WholeNeedsZero(counter: nat, bus: seq<Frame>, payload: seq<Byte>, tail: seq<Frame>)
    requires Whole(counter, bus, payload, tail)
    ensures counter == 0 && |payload| % 7 == 6
    ensures bus[0] == FirstFrame(payload) && MessageType(bus[0]) == 1 && DeclaredSize(bus[0]) >= 6
  {
    assert bus[0] == FirstFrame(payload) && bus[1..] == Consecutive(payload[6..], 1) + tail;
    assert QueryFrom(counter, bus) == Receive(counter, payload, tail);
    ReceiveExactly(counter, payload, tail);
    if Meets(counter, |payload|) {
      ReceiveMeets(counter, payload, tail);
    }
  }

  /** Once a query has read a first frame, no later query of the run receives a multi-frame message
      whole: whatever arrives, and whatever the queries in between read. */
  lemma NoneWholeAfterAFirstFrame(counter: nat, bus: seq<Frame>, arrivals: seq<seq<Frame>>, i: nat, j: nat)
    requires i < j < |Session(counter, bus, arrivals)|
    requires var b := BusBefore(counter, bus, arrivals, i);
             b != [] && MessageType(b[0]) == 1 && DeclaredSize(b[0]) >= 6
    ensures !WholeAt(counter, bus, arrivals, j)
  {
    CounterGrows(counter, bus, arrivals, 0, i);
    QueryCounts(counter, bus, arrivals, i);
    CounterGrows(counter, bus, arrivals, i + 1, j);
    forall payload, tail
      ensures !Whole(CounterBefore(counter, bus, arrivals, j), BusBefore(counter, bus, arrivals, j), payload, tail)
    {
      if Whole(CounterBefore(counter, bus, arrivals, j), BusBefore(counter, bus, arrivals, j), payload, tail) {
        WholeNeedsZero(CounterBefore(counter, bus, arrivals, j), BusBefore(counter, bus, arrivals, j), payload, tail);
      }
    }
  }

  /** So over every run of queries, of any length and with any traffic, at most one multi-frame
      message is received whole. */
  lemma AtMostOneWhole(counter: nat, bus: seq<Frame>, arrivals: seq<seq<Frame>>, i: nat, j: nat)
    requires i < j < |Session(counter, bus, arrivals)|
    ensures !(WholeAt(counter, bus, arrivals, i) && WholeAt(counter, bus, arrivals, j))
  {
    if WholeAt(counter, bus, arrivals, i) {
      var payload, tail :|
        Whole(CounterBefore(counter, bus, arrivals, i), BusBefore(counter, bus, arrivals, i), payload, tail);
      CounterGrows(counter, bus, arrivals, 0, i);
      WholeNeedsZero(CounterBefore(counter, bus, arrivals, i), BusBefore(counter, bus, arrivals, i), payload, tail);
      NoneWholeAfterAFirstFrame(counter, bus, arrivals, i, j);
    }
  }
}
