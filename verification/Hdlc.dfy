/** HDLC byte stuffing and the streaming deframer that undoes it. */
module Hdlc {
  import opened Text

  const FLAG: bv8 := 0x7E
  const ESCAPE: bv8 := 0x7D
  const ESCAPE_XOR: bv8 := 0x20

  function Stuffed(data: seq<bv8>): seq<bv8> {
    if data == [] then []
    else Stuffed(data[..|data| - 1]) + StuffedByte(data[|data| - 1])
  }

  function StuffedByte(b: bv8): seq<bv8> {
    if b == FLAG || b == ESCAPE then [ESCAPE, b ^ ESCAPE_XOR] else [b]
  }

  function Framed(data: seq<bv8>): seq<bv8> {
    [FLAG] + Stuffed(data) + [FLAG]
  }

  method Frame(data: seq<bv8>) returns (output: seq<bv8>)
    ensures output == Framed(data)
  {
    output := [FLAG];
    for i := 0 to |data|
      invariant output == [FLAG] + Stuffed(data[..i])
    {
      assert data[..i + 1][..i] == data[..i];
      if data[i] == FLAG || data[i] == ESCAPE {
        output := output + [ESCAPE, data[i] ^ ESCAPE_XOR];
      } else {
        output := output + [data[i]];
      }
    }
    assert data[..|data|] == data;
    output := output + [FLAG];
  }

  /** `frame_to_slice`: the frame, in place, exactly when the buffer has room for it. */
  method FrameToSlice(data: seq<bv8>, output: array<bv8>) returns (len: Option<nat>)
    modifies output
    ensures len == if |Framed(data)| <= output.Length then Some(|Framed(data)|) else None
    ensures len.Some? ==> output[..len.value] == Framed(data)
  {
    hide Stuffed, StuffedByte;
    StuffedGrows(data, 0);
    if output.Length == 0 {
      return None;
    }
    output[0] := FLAG;
    var pos := 1;
    assert output[..pos] == [FLAG] + Stuffed(data[..0]) by { StuffedNothing(data); }
    for i := 0 to |data|
      invariant pos == 1 + |Stuffed(data[..i])| <= output.Length
      invariant output[..pos] == [FLAG] + Stuffed(data[..i])
    {
      StuffedStep(data, i);
      StuffedGrows(data, i + 1);
      var bytes := StuffedByte(data[i]);
      for k := 0 to |bytes|
        invariant pos == 1 + |Stuffed(data[..i])| + k <= output.Length
        invariant output[..pos] == [FLAG] + Stuffed(data[..i]) + bytes[..k]
      {
        if pos >= output.Length {
          return None;
        }
        output[pos] := bytes[k];
        pos := pos + 1;
        assert output[..pos] == output[..pos - 1] + [bytes[k]];
      }
      assert bytes[..|bytes|] == bytes;
    }
    assert data[..|data|] == data;
    if pos >= output.Length {
      return None;
    }
    output[pos] := FLAG;
    pos := pos + 1;
    assert output[..pos] == output[..pos - 1] + [FLAG];
    len := Some(pos);
  }

  lemma StuffedNothing(data: seq<bv8>)
    ensures Stuffed(data[..0]) == []
  {
  }

  lemma StuffedStep(data: seq<bv8>, i: nat)
    requires i < |data|
    ensures Stuffed(data[..i + 1]) == Stuffed(data[..i]) + StuffedByte(data[i])
  {
    assert data[..i + 1][..i] == data[..i];
  }

  lemma {:induction false} StuffedGrows(data: seq<bv8>, i: nat)
    requires i <= |data|
    ensures |Stuffed(data[..i])| <= |Stuffed(data)|
    decreases |data| - i
  {
    if i == |data| {
      assert data[..i] == data;
    } else {
      assert data[..i + 1][..i] == data[..i];
      StuffedGrows(data, i + 1);
    }
  }

  /** A frame holds FLAG at its two ends and nowhere else. */
  lemma {:induction false} FlagOnlyAtEnds(data: seq<bv8>)
    ensures FLAG !in Stuffed(data)
  {
    if data != [] {
      FlagOnlyAtEnds(data[..|data| - 1]);
      assert FLAG ^ ESCAPE_XOR == 0x5E && ESCAPE ^ ESCAPE_XOR == 0x5D;
    }
  }

  // ----- The deframer

  datatype Result = Frame(payload: seq<bv8>) | Oversized

  datatype State = State(buffer: seq<bv8>, inFrame: bool, escapeNext: bool)

  const IDLE: State := State([], false, false)

  function Pushed(s: State, max: nat, b: bv8): (State, seq<Result>) {
    if |s.buffer| >= max then (IDLE, [Oversized]) else (s.(buffer := s.buffer + [b]), [])
  }

  function Next(s: State, max: nat, b: bv8): (State, seq<Result>) {
    if b == FLAG then
      if s.inFrame && s.buffer != [] then (IDLE, [Result.Frame(s.buffer)]) else (State([], true, false), [])
    else if !s.inFrame then (s, [])
    else if s.escapeNext then Pushed(s.(escapeNext := false), max, b ^ ESCAPE_XOR)
    else if b == ESCAPE then (s.(escapeNext := true), [])
    else Pushed(s, max, b)
  }

  function Fed(s: State, max: nat, bytes: seq<bv8>): (State, seq<Result>) {
    if bytes == [] then (s, [])
    else
      var (s1, rs) := Fed(s, max, bytes[..|bytes| - 1]);
      var (s2, r) := Next(s1, max, bytes[|bytes| - 1]);
      (s2, rs + r)
  }

  class Deframer {
    var buffer: seq<bv8>
    var inFrame: bool
    var escapeNext: bool
    const maxFrame: nat

    ghost function Model(): State
      reads this
    {
      State(buffer, inFrame, escapeNext)
    }

    constructor (maxFrame: nat)
      ensures Model() == IDLE && this.maxFrame == maxFrame
    {
      this.maxFrame := maxFrame;
      buffer, inFrame, escapeNext := [], false, false;
    }

    method Reset()
      modifies this
      ensures Model() == IDLE
    {
      buffer, inFrame, escapeNext := [], false, false;
    }

    method Push(b: bv8) returns (r: seq<Result>)
      modifies this
      ensures (Model(), r) == Pushed(old(Model()), maxFrame, b)
    {
      if |buffer| >= maxFrame {
        Reset();
        return [Oversized];
      }
      buffer := buffer + [b];
      r := [];
    }

    method ProcessByte(b: bv8) returns (r: seq<Result>)
      modifies this
      ensures (Model(), r) == Next(old(Model()), maxFrame, b)
    {
      r := [];
      if b == FLAG {
        if inFrame && buffer != [] {
          r := [Result.Frame(buffer)];
          Reset();
        } else {
          inFrame := true;
          buffer := [];
          escapeNext := false;
        }
      } else if inFrame {
        if escapeNext {
          escapeNext := false;
          r := Push(b ^ ESCAPE_XOR);
        } else if b == ESCAPE {
          escapeNext := true;
        } else {
          r := Push(b);
        }
      }
    }

    method Process(data: seq<bv8>) returns (results: seq<Result>)
      modifies this
      ensures (Model(), results) == Fed(old(Model()), maxFrame, data)
    {
      hide Next;
      results := [];
      for i := 0 to |data|
        invariant (Model(), results) == Fed(old(Model()), maxFrame, data[..i])
      {
        assert data[..i + 1][..i] == data[..i];
        var r := ProcessByte(data[i]);
        results := results + r;
      }
      assert data[..|data|] == data;
    }
  }

  /** However the stream is cut into reads, the results are the same. */
  lemma {:induction false} FedConcat(s: State, max: nat, a: seq<bv8>, b: seq<bv8>)
    ensures var (s1, r1) := Fed(s, max, a);
            var (s2, r2) := Fed(s1, max, b);
            Fed(s, max, a + b) == (s2, r1 + r2)
  {
    hide Next;
    var (s1, r1) := Fed(s, max, a);
    if b == [] {
      assert a + b == a && r1 + [] == r1;
    } else {
      var n := |b| - 1;
      FedConcat(s, max, a, b[..n]);
      assert (a + b)[..|a + b| - 1] == a + b[..n];
      var (s2, r2) := Fed(s1, max, b[..n]);
      var r3 := Next(s2, max, b[n]).1;
      assert r1 + r2 + r3 == r1 + (r2 + r3);
    }
  }

  /** The buffer never outgrows the ceiling, whatever arrives. */
  lemma {:induction false} BufferBounded(s: State, max: nat, bytes: seq<bv8>)
    requires |s.buffer| <= max
    ensures |Fed(s, max, bytes).0.buffer| <= max
  {
    if bytes != [] {
      BufferBounded(s, max, bytes[..|bytes| - 1]);
    }
  }

  // ----- Frames in, messages out

  /** What the deframer reports for one framed message. */
  function Reported(m: seq<bv8>, max: nat): seq<Result> {
    if m == [] then [] else if |m| <= max then [Result.Frame(m)] else [Oversized]
  }

  function AllReported(ms: seq<seq<bv8>>, max: nat): seq<Result> {
    if ms == [] then [] else Reported(ms[0], max) + AllReported(ms[1..], max)
  }

  function Stream(ms: seq<seq<bv8>>): seq<bv8> {
    if ms == [] then [] else Framed(ms[0]) + Stream(ms[1..])
  }

  /** A FLAG arriving now opens a frame. */
  predicate Ready(s: State) {
    !(s.inFrame && s.buffer != [])
  }

  lemma FedOne(s: State, max: nat, b: bv8)
    ensures Fed(s, max, [b]) == Next(s, max, b)
  {
    hide Next;
    assert [b][..0] == [];
    assert [] + Next(s, max, b).1 == Next(s, max, b).1;
  }

  lemma {:induction false} FedIdle(s: State, max: nat, bytes: seq<bv8>)
    requires !s.inFrame && FLAG !in bytes
    ensures Fed(s, max, bytes) == (s, [])
  {
    if bytes != [] {
      FedIdle(s, max, bytes[..|bytes| - 1]);
      assert bytes[|bytes| - 1] in bytes;
      var none: seq<Result> := [];
      assert none + none == none;
    }
  }

  lemma FedStuffedByte(s: State, max: nat, b: bv8)
    requires s.inFrame && !s.escapeNext
    ensures Fed(s, max, StuffedByte(b)) == Pushed(s, max, b)
  {
    if b == FLAG || b == ESCAPE {
      var e := b ^ ESCAPE_XOR;
      assert e == 0x5E || e == 0x5D;
      assert e ^ ESCAPE_XOR == b;
      FedConcat(s, max, [ESCAPE], [e]);
      FedOne(s, max, ESCAPE);
      FedOne(s.(escapeNext := true), max, e);
      assert [ESCAPE] + [e] == [ESCAPE, e];
    } else {
      FedOne(s, max, b);
    }
  }

  /** Stuffed data inside a frame is collected, until one byte too many drops the frame. */
  lemma {:induction false} FedStuffed(max: nat, data: seq<bv8>)
    ensures Fed(State([], true, false), max, Stuffed(data)) ==
            if |data| <= max then (State(data, true, false), []) else (IDLE, [Oversized])
  {
    hide Next, StuffedByte;
    if data != [] {
      var n := |data| - 1;
      assert Stuffed(data) == Stuffed(data[..n]) + StuffedByte(data[n]);
      hide Fed, Stuffed;
      FedStuffed(max, data[..n]);
      FedConcat(State([], true, false), max, Stuffed(data[..n]), StuffedByte(data[n]));
      if n <= max {
        FedStuffedByte(State(data[..n], true, false), max, data[n]);
        assert data == data[..n] + [data[n]];
        var pushed := Pushed(State(data[..n], true, false), max, data[n]).1;
        assert [] + pushed == pushed;
      } else {
        FlagOnlyAtEnds(data);
        assert FLAG !in StuffedByte(data[n]);
        FedIdle(IDLE, max, StuffedByte(data[n]));
        assert [Oversized] + [] == [Oversized];
      }
    }
  }

  /** What one frame brings out of any state: its message if the deframer was ready for a frame, else the
      frame that was still open, closed by this one's first FLAG. */
  function FirstReported(s: State, m: seq<bv8>, max: nat): seq<Result> {
    if Ready(s) then Reported(m, max) else [Result.Frame(s.buffer)]
  }

  lemma FedFrame(s: State, max: nat, m: seq<bv8>)
    ensures Fed(s, max, Framed(m)).1 == FirstReported(s, m, max)
    ensures Ready(Fed(s, max, Framed(m)).0)
  {
    hide Stuffed;
    var body := Stuffed(m);
    FedConcat(s, max, [FLAG] + body, [FLAG]);
    FedConcat(s, max, [FLAG], body);
    FedOne(s, max, FLAG);
    if Ready(s) {
      FedStuffed(max, m);
      var s2 := Fed(s, max, [FLAG] + body).0;
      FedOne(s2, max, FLAG);
    } else {
      FlagOnlyAtEnds(m);
      FedIdle(IDLE, max, body);
      FedOne(IDLE, max, FLAG);
    }
  }

  /** Between frames, a stream of framed messages is reported message by message: each delivered whole
      if it fits the ceiling, dropped once if it does not, and an empty one passed over. */
  lemma {:induction false} StreamReturns(s: State, max: nat, ms: seq<seq<bv8>>)
    requires Ready(s)
    ensures Fed(s, max, Stream(ms)).1 == AllReported(ms, max) && Ready(Fed(s, max, Stream(ms)).0)
    decreases ms
  {
    hide Framed, Next;
    if ms != [] {
      FedFrame(s, max, ms[0]);
      var s1 := Fed(s, max, Framed(ms[0])).0;
      FedConcat(s, max, Framed(ms[0]), Stream(ms[1..]));
      StreamReturns(s1, max, ms[1..]);
    }
  }

  /** From any state at all, whatever garbage came before: one frame, in which a frame left open is closed
      and the frame's own message lost, and every later message is reported. */
  lemma Resynchronises(s: State, max: nat, m: seq<bv8>, ms: seq<seq<bv8>>)
    ensures Fed(s, max, Framed(m) + Stream(ms)).1 == FirstReported(s, m, max) + AllReported(ms, max)
  {
    hide Framed, Next, Stream;
    FedFrame(s, max, m);
    FedConcat(s, max, Framed(m), Stream(ms));
    StreamReturns(Fed(s, max, Framed(m)).0, max, ms);
  }

  lemma {:induction false} ReportedAll(ms: seq<seq<bv8>>, max: nat)
    requires forall m :: m in ms ==> m != [] && |m| <= max
    ensures |AllReported(ms, max)| == |ms|
    ensures forall i :: 0 <= i < |ms| ==> AllReported(ms, max)[i] == Result.Frame(ms[i])
  {
    if ms != [] {
      assert ms[0] in ms;
      ReportedAll(ms[1..], max);
    }
  }

  function Longest(ms: seq<seq<bv8>>): (n: nat)
    ensures forall m :: m in ms ==> |m| <= n
  {
    if ms == [] then 0
    else
      var n := Longest(ms[1..]);
      if |ms[0]| > n then |ms[0]| else n
  }

  /** A stream of frames of non-empty messages can be split in only one way. */
  lemma StreamIsUnambiguous(ms: seq<seq<bv8>>, ns: seq<seq<bv8>>)
    requires [] !in ms && [] !in ns && Stream(ms) == Stream(ns)
    ensures ms == ns
  {
    hide Stream, Fed, AllReported;
    var max := Longest(ms + ns);
    assert forall m :: m in ms ==> m in ms + ns;
    assert forall m :: m in ns ==> m in ms + ns;
    StreamReturns(IDLE, max, ms);
    StreamReturns(IDLE, max, ns);
    ReportedAll(ms, max);
    ReportedAll(ns, max);
    forall i | 0 <= i < |ms| ensures ms[i] == ns[i] {
      assert Result.Frame(ms[i]) == Result.Frame(ns[i]);
    }
  }

  /** Every frame, byte by byte: 7E at both ends, and between them each byte of the message in its place, with
      7D 5E for 7E and 7D 5D for 7D. */
  lemma {:induction false} FrameBytes(data: seq<bv8>)
    ensures Framed(data) == [0x7E] + Stuffed(data) + [0x7E]
    ensures data == [] ==> Stuffed(data) == []
    ensures data != [] ==>
              var b := data[|data| - 1];
              Stuffed(data) == Stuffed(data[..|data| - 1])
                               + (if b == 0x7E then [0x7D, 0x5E] else if b == 0x7D then [0x7D, 0x5D] else [b])
  {
    assert (0x7E as bv8) ^ 0x20 == 0x5E && (0x7D as bv8) ^ 0x20 == 0x5D;
  }
}
