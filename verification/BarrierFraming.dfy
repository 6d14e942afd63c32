/** The byte layer of the barrier connections: length-prefixed frames after a naming handshake. */
module BarrierFraming {
  import opened Options
  import opened Bytes

  /** A runner's name, as the UTF-8 bytes it is compared and sent by. */
  type Name = seq<Byte>

  const WORD: nat := 0x1_0000_0000
  const FRAME_CAP: nat := 16 * 1024
  const NAME_CAP: nat := 256

  // ----- one frame -----

  /** `u32::to_be_bytes`. */
  function ToBytes(n: nat): (bs: seq<Byte>)
    requires n < WORD
    ensures |bs| == 4
  {
    [n / 256 / 256 / 256, n / 256 / 256 % 256, n / 256 % 256, n % 256]
  }

  /** `u32::from_be_bytes`. */
  function FromBytes(bs: seq<Byte>): (n: nat)
    requires |bs| == 4
    ensures n < WORD
  {
    ((bs[0] as nat * 256 + bs[1]) * 256 + bs[2]) * 256 + bs[3]
  }

  lemma LengthRoundTrip(n: nat)
    requires n < WORD
    ensures FromBytes(ToBytes(n)) == n
  {
  }

  lemma DigitSplits(high: nat, low: Byte)
    ensures (high * 256 + low) / 256 == high && (high * 256 + low) % 256 == low
  {
  }

  lemma BytesRoundTrip(bs: seq<Byte>)
    requires |bs| == 4
    ensures ToBytes(FromBytes(bs)) == bs
  {
    DigitSplits((bs[0] as nat * 256 + bs[1]) * 256 + bs[2], bs[3]);
    DigitSplits(bs[0] as nat * 256 + bs[1], bs[2]);
    DigitSplits(bs[0], bs[1]);
  }

  /** A frame; the length is cast to 32 bits. */
  function FrameOf(payload: seq<Byte>): seq<Byte> { ToBytes(|payload| % WORD) + payload }

  /** Four bytes of length, highest first, then the payload. */
  lemma FrameLayout(payload: seq<Byte>)
    requires |payload| < WORD
    ensures var f := FrameOf(payload);
      |f| == 4 + |payload| && f[4..] == payload
      && |payload| == f[0] as nat * 0x100_0000 + f[1] as nat * 0x1_0000 + f[2] as nat * 0x100 + f[3]
  {
    LengthRoundTrip(|payload|);
  }

  datatype Read = Frame(payload: seq<Byte>, rest: seq<Byte>) | Starved | Oversize

  function ReadFrom(stream: seq<Byte>, cap: nat): (r: Read)
    ensures r.Frame? ==> |r.rest| < |stream|
  {
    if |stream| < 4 then Starved
    else
      var n := FromBytes(stream[..4]);
      if n > cap then Oversize
      else if |stream| < 4 + n then Starved
      else Frame(stream[4..4 + n], stream[4 + n..])
  }

  /** Whole frames read back, if they are within the cap; longer ones are refused by their length
      alone. */
  lemma ReadUndoesFrame(payload: seq<Byte>, tail: seq<Byte>, cap: nat)
    requires |payload| < WORD
    ensures ReadFrom(FrameOf(payload) + tail, cap) == if |payload| <= cap then Frame(payload, tail) else Oversize
  {
    hide ToBytes, FromBytes;
    var stream := FrameOf(payload) + tail;
    LengthRoundTrip(|payload|);
    assert stream[..4] == ToBytes(|payload|);
    assert stream[4..4 + |payload|] == payload && stream[4 + |payload|..] == tail;
  }

  /** Whatever is read as a frame is, byte for byte, the frame of what was read. */
  lemma ReadIsExact(stream: seq<Byte>, cap: nat)
    requires ReadFrom(stream, cap).Frame?
    ensures var Frame(payload, rest) := ReadFrom(stream, cap);
      |payload| <= cap && |payload| < WORD && stream == FrameOf(payload) + rest
  {
    hide ToBytes, FromBytes;
    BytesRoundTrip(stream[..4]);
    var n := FromBytes(stream[..4]);
    assert stream == stream[..4] + (stream[4..4 + n] + stream[4 + n..]);
  }

  /** A frame cut short is never read. */
  lemma TornFrameIsNotRead(payload: seq<Byte>, k: nat, cap: nat)
    requires |payload| < WORD && k < |FrameOf(payload)|
    ensures !ReadFrom(FrameOf(payload)[..k], cap).Frame?
  {
    hide ToBytes, FromBytes;
    if k >= 4 {
      assert FrameOf(payload)[..k][..4] == ToBytes(|payload|);
      LengthRoundTrip(|payload|);
    }
  }

  /** More bytes do not change a frame that can be read, or a length already refused. */
  lemma ReadIgnoresWhatFollows(s: seq<Byte>, t: seq<Byte>, cap: nat)
    ensures ReadFrom(s, cap).Frame? ==>
      ReadFrom(s + t, cap) == Frame(ReadFrom(s, cap).payload, ReadFrom(s, cap).rest + t)
    ensures ReadFrom(s, cap).Oversize? ==> ReadFrom(s + t, cap).Oversize?
  {
    hide ToBytes, FromBytes;
    if |s| >= 4 {
      assert (s + t)[..4] == s[..4];
      var n := FromBytes(s[..4]);
      if 4 + n <= |s| {
        assert (s + t)[4..4 + n] == s[4..4 + n] && (s + t)[4 + n..] == s[4 + n..] + t;
      }
    }
  }

  // ----- streams of frames -----

  function Stream(payloads: seq<seq<Byte>>): seq<Byte> {
    if payloads == [] then [] else FrameOf(payloads[0]) + Stream(payloads[1..])
  }

  /** All a reader can take from a stream; `dead` if it then meets a length above the cap. */
  datatype Decoded = Decoded(frames: seq<seq<Byte>>, rest: seq<Byte>, dead: bool) {
    function After(earlier: seq<seq<Byte>>): Decoded { this.(frames := earlier + frames) }
  }

  function Decode(stream: seq<Byte>): Decoded
    decreases |stream|
  {
    match ReadFrom(stream, FRAME_CAP)
    case Frame(payload, rest) => Decode(rest).After([payload])
    case Starved => Decoded([], stream, false)
    case Oversize => Decoded([], stream, true)
  }

  /** How many leading payloads are within the cap. */
  function Fitting(payloads: seq<seq<Byte>>): (n: nat)
    ensures n <= |payloads|
    ensures forall i :: 0 <= i < n ==> |payloads[i]| <= FRAME_CAP
    ensures n < |payloads| ==> |payloads[n]| > FRAME_CAP
  {
    if payloads == [] || |payloads[0]| > FRAME_CAP then 0 else 1 + Fitting(payloads[1..])
  }

  predicate Castable(payloads: seq<seq<Byte>>) { forall i :: 0 <= i < |payloads| ==> |payloads[i]| < WORD }

  lemma AfterAfter(d: Decoded, first: seq<seq<Byte>>, second: seq<seq<Byte>>)
    ensures d.After(second).After(first) == d.After(first + second)
  {
    assert first + (second + d.frames) == first + second + d.frames;
  }

  lemma DecodeOneFrame(payload: seq<Byte>, more: seq<Byte>)
    requires |payload| < WORD
    ensures |payload| <= FRAME_CAP ==> Decode(FrameOf(payload) + more) == Decode(more).After([payload])
    ensures |payload| > FRAME_CAP ==> Decode(FrameOf(payload) + more) == Decoded([], FrameOf(payload) + more, true)
  {
    hide ReadFrom, FrameOf;
    ReadUndoesFrame(payload, more, FRAME_CAP);
  }

  /** Decoding undoes encoding: the reader gets exactly the payloads before the first one above the
      cap, and such a payload kills it. What follows (`tail`) is read as if it came alone. */
  lemma {:induction false} DecodeUndoesStream(payloads: seq<seq<Byte>>, tail: seq<Byte>)
    requires Castable(payloads)
    ensures
      var n := Fitting(payloads);
      Decode(Stream(payloads) + tail) ==
        if n == |payloads| then Decode(tail).After(payloads)
        else Decoded(payloads[..n], Stream(payloads[n..]) + tail, true)
  {
    hide Decode, FrameOf;
    if payloads == [] {
      assert Stream(payloads) + tail == tail;
    } else {
      var n, more := Fitting(payloads), Stream(payloads[1..]) + tail;
      assert Stream(payloads) + tail == FrameOf(payloads[0]) + more;
      DecodeOneFrame(payloads[0], more);
      DecodeUndoesStream(payloads[1..], tail);
      assert [payloads[0]] + payloads[1..] == payloads;
      if n == |payloads| {
        AfterAfter(Decode(tail), [payloads[0]], payloads[1..]);
      } else if n > 0 {
        assert [payloads[0]] + payloads[1..][..n - 1] == payloads[..n];
        assert payloads[1..][n - 1..] == payloads[n..];
      }
    }
  }

  /** No stream decodes to frames that are not literally in it: what was decoded, encoded again,
      followed by what is left, is the stream. */
  lemma {:induction false} DecodeIsExact(stream: seq<Byte>)
    ensures Stream(Decode(stream).frames) + Decode(stream).rest == stream
    ensures Castable(Decode(stream).frames) && Fitting(Decode(stream).frames) == |Decode(stream).frames|
    decreases |stream|
  {
    match ReadFrom(stream, FRAME_CAP) {
      case Frame(payload, rest) =>
        ReadIsExact(stream, FRAME_CAP);
        DecodeIsExact(rest);
        assert Decode(stream).frames[1..] == Decode(rest).frames;
      case _ =>
        assert Stream([]) + stream == stream;
    }
  }

  /** Reading as bytes arrive is reading them all at once: `s` first, then the leftover with `t`. */
  lemma {:induction false} DecodeIsIncremental(s: seq<Byte>, t: seq<Byte>)
    ensures !Decode(s).dead ==> Decode(s + t) == Decode(Decode(s).rest + t).After(Decode(s).frames)
    ensures Decode(s).dead ==> Decode(s + t) == Decoded(Decode(s).frames, Decode(s).rest + t, true)
    decreases |s|
  {
    hide ReadFrom;
    ReadIgnoresWhatFollows(s, t, FRAME_CAP);
    match ReadFrom(s, FRAME_CAP) {
      case Frame(payload, rest) =>
        assert Decode(s + t) == Decode(rest + t).After([payload]);
        DecodeIsIncremental(rest, t);
        AfterAfter(Decode(Decode(rest).rest + t), [payload], Decode(rest).frames);
      case Starved =>
        assert Decode(s + t).After([]) == Decode(s + t);
      case Oversize =>
    }
  }

  /** `j` payloads are whole within the first `k` bytes. */
  predicate WholeWithin(payloads: seq<seq<Byte>>, k: nat, j: nat) {
    j <= |payloads| && |Stream(payloads[..j])| <= k && (j < |payloads| ==> k < |Stream(payloads[..j + 1])|)
  }

  /** A stream cut at any point decodes exactly the frames that are whole before the cut. */
  lemma {:induction false} CutDecodesTheWholeFrames(payloads: seq<seq<Byte>>, k: nat)
    requires Fitting(payloads) == |payloads| && k <= |Stream(payloads)|
    ensures exists j: nat :: WholeWithin(payloads, k, j) && Decode(Stream(payloads)[..k]).frames == payloads[..j]
  {
    hide ReadFrom, FrameOf;
    if payloads == [] {
      assert WholeWithin(payloads, k, 0) && Decode(Stream(payloads)[..k]).frames == payloads[..0] by {
        StarvedAtEnd();
      }
    } else if k < |FrameOf(payloads[0])| {
      CutInFirstFrame(payloads, k);
    } else {
      var m := k - |FrameOf(payloads[0])|;
      CutDecodesTheWholeFrames(payloads[1..], m);
      var j: nat :| WholeWithin(payloads[1..], m, j) && Decode(Stream(payloads[1..])[..m]).frames == payloads[1..][..j];
      CutAfterFirstFrame(payloads, k, j);
    }
  }

  lemma StarvedAtEnd()
    ensures Decode([]) == Decoded([], [], false)
  {
  }

  lemma CutInFirstFrame(payloads: seq<seq<Byte>>, k: nat)
    requires payloads != [] && |payloads[0]| <= FRAME_CAP && k < |FrameOf(payloads[0])|
    ensures WholeWithin(payloads, k, 0) && Decode(Stream(payloads)[..k]).frames == []
  {
    hide FrameOf;
    assert Stream(payloads)[..k] == FrameOf(payloads[0])[..k];
    TornFrameIsNotRead(payloads[0], k, FRAME_CAP);
    assert payloads[..1][1..] == payloads[..0];
    assert Stream(payloads[..1]) == FrameOf(payloads[0]);
  }

  lemma CutAfterFirstFrame(payloads: seq<seq<Byte>>, k: nat, j: nat)
    requires payloads != [] && |payloads[0]| <= FRAME_CAP && |FrameOf(payloads[0])| <= k <= |Stream(payloads)|
    requires WholeWithin(payloads[1..], k - |FrameOf(payloads[0])|, j)
    requires Decode(Stream(payloads[1..])[..k - |FrameOf(payloads[0])|]).frames == payloads[1..][..j]
    ensures WholeWithin(payloads, k, j + 1) && Decode(Stream(payloads)[..k]).frames == payloads[..j + 1]
  {
    hide ReadFrom, FrameOf;
    var frame := FrameOf(payloads[0]);
    var more := Stream(payloads[1..])[..k - |frame|];
    assert Stream(payloads)[..k] == frame + more;
    ReadUndoesFrame(payloads[0], more, FRAME_CAP);
    assert payloads[..j + 1] == [payloads[0]] + payloads[1..][..j];
    assert payloads[..j + 1][1..] == payloads[1..][..j];
    if j + 1 < |payloads| {
      assert payloads[..j + 2][1..] == payloads[1..][..j + 1];
    }
  }

  // ----- a connection -----

  /** The connecting side's first frame; a name above the cap is not sent. */
  function Hello(name: Name): Option<seq<Byte>> {
    if |name| > NAME_CAP then None else Some(FrameOf(name))
  }

  datatype Greeting = Greeting(name: Name, rest: seq<Byte>)

  /** The accepting side: the name must be one of `expected`, which holds valid UTF-8 only. */
  function ReadHello(stream: seq<Byte>, expected: set<Name>): Option<Greeting> {
    match ReadFrom(stream, NAME_CAP)
    case Frame(name, rest) => if name in expected then Some(Greeting(name, rest)) else None
    case _ => None
  }

  /** A whole connection, cut at any point: before the handshake is complete nobody is recognised;
      after it the peer is known and its whole frames are decoded, no others. */
  lemma ConnectionRoundTrip(name: Name, payloads: seq<seq<Byte>>, expected: set<Name>, k: nat)
    requires Hello(name).Some? && name in expected && Fitting(payloads) == |payloads|
    requires k <= |Hello(name).value + Stream(payloads)|
    ensures
      var hello := Hello(name).value;
      var got := ReadHello((hello + Stream(payloads))[..k], expected);
      if k < |hello| then got == None
      else got.Some? && got.value.name == name && got.value.rest == Stream(payloads)[..k - |hello|]
           && Decode(got.value.rest).frames <= payloads
           && (k == |hello| + |Stream(payloads)| ==> Decode(got.value.rest) == Decoded(payloads, [], false))
  {
    hide ReadFrom, FrameOf, Stream, Decode;
    var hello := Hello(name).value;
    var cut := (hello + Stream(payloads))[..k];
    if k < |hello| {
      assert cut == hello[..k];
      TornFrameIsNotRead(name, k, NAME_CAP);
    } else {
      var rest := Stream(payloads)[..k - |hello|];
      assert cut == hello + rest;
      ReadUndoesFrame(name, rest, NAME_CAP);
      CutDecodesTheWholeFrames(payloads, k - |hello|);
      DecodeUndoesStream(payloads, []);
      StarvedAtEnd();
      assert Stream(payloads) + [] == Stream(payloads) && Decode([]).After(payloads) == Decoded(payloads, [], false);
    }
  }

  // ----- the stream operations -----

  /** `write_barrier_frame`: `room` bytes are taken before the connection fails. */
  method WriteFrame(stream: seq<Byte>, payload: seq<Byte>, room: nat) returns (ok: bool, written: seq<Byte>)
    ensures ok <==> |FrameOf(payload)| <= room
    ensures written == stream + if ok then FrameOf(payload) else FrameOf(payload)[..room]
  {
    var length := ToBytes(|payload| % WORD);
    if room < 4 {
      assert FrameOf(payload)[..room] == length[..room];
      return false, stream + length[..room];
    }
    written := stream + length;
    if room - 4 < |payload| {
      assert FrameOf(payload)[..room] == length + payload[..room - 4];
      return false, written + payload[..room - 4];
    }
    return true, written + payload;
  }
}
