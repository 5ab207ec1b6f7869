// Open H.264 rectangles of a VNC session: one decoder per rectangle, and the pixels that come out
// (plugins/vnc/src/h264.rs).

module H264Pixels {
  import opened FixedWidth
  import opened DirtyRects
  import opened Pixels

  /** RGBA bytes as the opaque BGRA bytes of the same pixels. */
  ghost function Bgra(rgba: seq<u8>): (r: seq<u8>)
    requires |rgba| % 4 == 0
    ensures |r| == |rgba|
  {
    seq(|rgba|, k requires 0 <= k < |rgba| => if k % 4 == 3 then 0xff else rgba[k - k % 4 + 2 - k % 4])
  }

  /** The top left `width` by `height` corner of a decoded frame. */
  ghost function Corner(rgba: seq<u8>, frameWidth: nat, width: u32, height: u32): (r: seq<u8>)
    requires Readable(rgba, frameWidth, 0, 0, width, height)
    ensures |r| == 4 * (width * height) && |r| % 4 == 0
  {
    Crop(rgba, frameWidth, Rect(0, 0, width, height))
  }

  /** The byte written for channel `c` of pixel (x, y). */
  lemma CornerPixel(rgba: seq<u8>, frameWidth: nat, width: u32, height: u32, x: nat, y: nat, c: nat)
    requires Readable(rgba, frameWidth, 0, 0, width, height) && x < width && y < height && c < 4
    ensures var source, target := FirstByte(frameWidth, x, y), FirstByte(width, x, y);
            && source + 4 <= |rgba| && target + 4 <= 4 * (width * height)
            && Bgra(Corner(rgba, frameWidth, width, height))[target + c]
               == if c == 3 then 0xff else rgba[source + 2 - c]
  {
    FirstByteBound(frameWidth, x, y, height);
    FirstByteBound(width, x, y, height);
    var channel := if c == 3 then 3 else 2 - c;
    var k := FirstByte(width, x, y) + c;
    PixelOfByte(width, x, y, channel);
    SamePhase(width, x, y, c);
    hide ColumnOf, RowOf, Readable;
    assert Corner(rgba, frameWidth, width, height)[k - k % 4 + channel]
        == CropByte(rgba, frameWidth, Rect(0, 0, width, height), k - k % 4 + channel);
    SamePhase(width, x, y, channel);
  }

  /** One pixel with its first and third channel exchanged and its alpha filled. */
  function BgraPixel(rgba: seq<u8>): seq<u8> {
    if |rgba| == 4 then [rgba[2], rgba[1], rgba[0], 0xff] else []
  }

  lemma ConvertedPixel(rgba: seq<u8>, frameWidth: nat, width: u32, height: u32, x: nat, y: nat)
    requires Readable(rgba, frameWidth, 0, 0, width, height) && x < width && y < height
    ensures PixelAt(Bgra(Corner(rgba, frameWidth, width, height)), width, x, y)
            == BgraPixel(PixelAt(rgba, frameWidth, x, y))
  {
    assert x < frameWidth;
    hide Readable, FirstByte, Bgra, Corner;
    CornerPixel(rgba, frameWidth, width, height, x, y, 0);
    CornerPixel(rgba, frameWidth, width, height, x, y, 1);
    CornerPixel(rgba, frameWidth, width, height, x, y, 2);
    CornerPixel(rgba, frameWidth, width, height, x, y, 3);
    var bgra := Bgra(Corner(rgba, frameWidth, width, height));
    var source, target := FirstByte(frameWidth, x, y), FirstByte(width, x, y);
    FourBytes(rgba, source);
    FourBytes(bgra, target);
  }

  lemma FourBytes(bytes: seq<u8>, first: nat)
    requires first + 4 <= |bytes|
    ensures bytes[first..first + 4] == [bytes[first], bytes[first + 1], bytes[first + 2], bytes[first + 3]]
  {
  }

  lemma ConvertedPixels(rgba: seq<u8>, frameWidth: nat, width: u32, height: u32)
    requires Readable(rgba, frameWidth, 0, 0, width, height)
    ensures forall x: nat, y: nat | x < width && y < height ::
              PixelAt(Bgra(Corner(rgba, frameWidth, width, height)), width, x, y)
              == BgraPixel(PixelAt(rgba, frameWidth, x, y))
  {
    hide Readable, PixelAt, Bgra, BgraPixel, Corner;
    forall x: nat, y: nat | x < width && y < height
      ensures PixelAt(Bgra(Corner(rgba, frameWidth, width, height)), width, x, y)
              == BgraPixel(PixelAt(rgba, frameWidth, x, y))
    {
      ConvertedPixel(rgba, frameWidth, width, height, x, y);
    }
  }

  /** `h264_frame_to_bgra`, once its size checks have passed. */
  method FrameToBgra(rgba: seq<u8>, frameWidth: nat, width: u32, height: u32, bgra: array<u8>)
    requires Readable(rgba, frameWidth, 0, 0, width, height)
    requires bgra.Length == 4 * (width * height)
    modifies bgra
    ensures bgra[..] == Bgra(Corner(rgba, frameWidth, width, height))
  {
    hide Readable, FirstByte, Bgra, Corner;
    RowStarts(width, 0);
    for y := 0 to height
      invariant FirstByte(width, 0, y) == 4 * (width * y)
      invariant forall k | 0 <= k < FirstByte(width, 0, y) && k < bgra.Length ::
                  bgra[k] == Bgra(Corner(rgba, frameWidth, width, height))[k]
    {
      for x := 0 to width
        invariant forall k | 0 <= k < FirstByte(width, x, y) && k < bgra.Length ::
                    bgra[k] == Bgra(Corner(rgba, frameWidth, width, height))[k]
      {
        var source, target := FirstByte(frameWidth, x, y), FirstByte(width, x, y);
        CornerPixel(rgba, frameWidth, width, height, x, y, 0);
        CornerPixel(rgba, frameWidth, width, height, x, y, 1);
        CornerPixel(rgba, frameWidth, width, height, x, y, 2);
        CornerPixel(rgba, frameWidth, width, height, x, y, 3);
        bgra[target] := rgba[source + 2];
        bgra[target + 1] := rgba[source + 1];
        bgra[target + 2] := rgba[source];
        bgra[target + 3] := 0xff;
        AlongRow(width, x, 1, y);
      }
      NextRowStarts(width, y);
      RowStarts(width, y + 1);
    }
  }

  lemma RowStarts(width: nat, y: nat)
    ensures FirstByte(width, 0, y) == 4 * (width * y)
  {
  }

  lemma NextRowStarts(width: nat, y: nat)
    ensures FirstByte(width, width, y) == FirstByte(width, 0, y + 1)
  {
  }
}

module H264Contexts {
  import opened Wrappers
  import opened FixedWidth
  import opened DirtyRects
  import opened Pixels
  import opened H264Pixels

  const MAX_CONTEXTS: nat := 64
  const MAX_FRAME_BYTES: nat := 128 * 1024 * 1024

  datatype RfbRect = RfbRect(x: u16, y: u16, width: u16, height: u16)

  datatype Frame = Frame(rgba: seq<u8>, width: nat, height: nat)

  /** A decoder from the library: its state before any payload, and what one payload does to it. */
  datatype Decoder<!S> = Decoder(initial: S, decode: (S, seq<u8>) -> (S, Result<Option<Frame>, string>))

  datatype Call = Call(rect: RfbRect, resetAll: bool, resetContext: bool, payload: seq<u8>)

  datatype Outcome =
    | NoData | EmptyArea | TooManyContexts | NoDecoder
    | DecodeFailed | NoFrame | BadFrame | Pixels(bgra: seq<u8>)

  function AfterResets<S>(contexts: map<RfbRect, S>, call: Call): map<RfbRect, S> {
    var kept := if call.resetAll then map[] else contexts;
    if call.resetContext then kept - {call.rect} else kept
  }

  predicate FrameUsable(rect: RfbRect, frame: Frame) {
    && rect.width <= frame.width && rect.height <= frame.height
    && |frame.rgba| == 4 * (frame.width * frame.height)
    && 4 * (rect.width * rect.height) <= MAX_FRAME_BYTES
  }

  lemma UsableIsReadable(rect: RfbRect, frame: Frame)
    requires FrameUsable(rect, frame)
    ensures Readable(frame.rgba, frame.width, 0, 0, rect.width, rect.height)
  {
    MulMonotone(frame.width, frame.width, rect.height, frame.height);
  }

  ghost function Converted(rect: RfbRect, frame: Frame): (r: Outcome)
    ensures r.BadFrame? || r.Pixels?
  {
    if !FrameUsable(rect, frame) then BadFrame
    else
      UsableIsReadable(rect, frame);
      Pixels(Bgra(Corner(frame.rgba, frame.width, rect.width, rect.height)))
  }

  /** `decode_payload`; `available` says whether the library can make one more decoder. */
  ghost function DecodePayload<S>(d: Decoder<S>, contexts: map<RfbRect, S>, call: Call, available: bool)
    : (map<RfbRect, S>, Outcome)
  {
    var kept := AfterResets(contexts, call);
    if call.payload == [] then (kept, NoData)
    else if call.rect.width == 0 || call.rect.height == 0 then (kept, EmptyArea)
    else if call.rect !in kept && |kept| >= MAX_CONTEXTS then (kept, TooManyContexts)
    else if call.rect !in kept && !available then (kept, NoDecoder)
    else
      var (next, result) := d.decode(if call.rect in kept then kept[call.rect] else d.initial, call.payload);
      if result.Err? then (kept - {call.rect}, DecodeFailed)
      else (kept[call.rect := next], if result.value.None? then NoFrame else Converted(call.rect, result.value.value))
  }

  // ----- what each decoder has seen -----

  datatype Logged = Logged(call: Call, outcome: Outcome)

  predicate Fed(outcome: Outcome) {
    outcome.NoFrame? || outcome.BadFrame? || outcome.Pixels?
  }

  /** The payloads for a rectangle since its last reset, global reset or decode failure; None when there were none. */
  function Since(log: seq<Logged>, rect: RfbRect): Option<seq<seq<u8>>> {
    if log == [] then None
    else
      var entry := log[|log| - 1];
      var before := Since(log[..|log| - 1], rect);
      var kept := if entry.call.resetAll || (entry.call.resetContext && entry.call.rect == rect) then None else before;
      if entry.call.rect != rect then kept
      else if Fed(entry.outcome) then Some(kept.GetOr([]) + [entry.call.payload])
      else if entry.outcome.DecodeFailed? then None
      else kept
  }

  /** The state of a decoder that was given exactly these payloads. */
  function Folded<S>(d: Decoder<S>, payloads: seq<seq<u8>>): S {
    if payloads == [] then d.initial else d.decode(Folded(d, payloads[..|payloads| - 1]), payloads[|payloads| - 1]).0
  }

  /** Every cached decoder has seen exactly its own rectangle's payloads, and there are never more than 64 of them. */
  ghost predicate CacheInv<S(!new)>(d: Decoder<S>, contexts: map<RfbRect, S>, log: seq<Logged>) {
    && |contexts| <= MAX_CONTEXTS
    && (forall rect :: rect in contexts <==> Since(log, rect).Some?)
    && (forall rect | rect in contexts :: contexts[rect] == Folded(d, Since(log, rect).value))
  }

  lemma SizeAfterRemoval<S>(m: map<RfbRect, S>, key: RfbRect)
    ensures |m - {key}| <= |m|
  {
    var rest := m - {key};
    if key in m {
      assert m == rest[key := m[key]];
    } else {
      assert rest == m;
    }
  }

  lemma SizeAfterUpdate<S>(m: map<RfbRect, S>, key: RfbRect, value: S)
    ensures |m[key := value]| == |m| + if key in m then 0 else 1
  {
    if key in m {
      assert m[key := value].Keys == m.Keys;
      assert |m[key := value].Keys| == |m[key := value]| && |m.Keys| == |m|;
    }
  }

  lemma SizeAfterResets<S>(contexts: map<RfbRect, S>, call: Call)
    ensures |AfterResets(contexts, call)| <= |contexts|
  {
    SizeAfterRemoval(if call.resetAll then map[] else contexts, call.rect);
  }

  lemma StepSize<S>(d: Decoder<S>, contexts: map<RfbRect, S>, call: Call, available: bool)
    requires |contexts| <= MAX_CONTEXTS
    ensures |DecodePayload(d, contexts, call, available).0| <= MAX_CONTEXTS
  {
    hide Converted, AfterResets;
    var kept := AfterResets(contexts, call);
    SizeAfterResets(contexts, call);
    SizeAfterRemoval(kept, call.rect);
    var next := d.decode(if call.rect in kept then kept[call.rect] else d.initial, call.payload).0;
    SizeAfterUpdate(kept, call.rect, next);
  }

  lemma StepState<S(!new)>(d: Decoder<S>, contexts: map<RfbRect, S>, log: seq<Logged>, call: Call, available: bool,
                           rect: RfbRect)
    requires CacheInv(d, contexts, log)
    ensures var (after, outcome) := DecodePayload(d, contexts, call, available);
            var grown := log + [Logged(call, outcome)];
            (rect in after <==> Since(grown, rect).Some?)
              && (rect in after ==> after[rect] == Folded(d, Since(grown, rect).value))
  {
    hide Converted, FrameUsable;
    var outcome := DecodePayload(d, contexts, call, available).1;
    var grown := log + [Logged(call, outcome)];
    assert grown[..|log|] == log;
    var kept := AfterResets(contexts, call);
    if rect == call.rect && Fed(outcome) {
      var payloads := if rect in kept then Since(log, rect).value else [];
      assert (payloads + [call.payload])[..|payloads|] == payloads;
    }
  }

  lemma StepKeeps<S(!new)>(d: Decoder<S>, contexts: map<RfbRect, S>, log: seq<Logged>, call: Call, available: bool)
    requires CacheInv(d, contexts, log)
    ensures var (after, outcome) := DecodePayload(d, contexts, call, available);
            CacheInv(d, after, log + [Logged(call, outcome)])
  {
    hide DecodePayload, Since, Folded;
    StepSize(d, contexts, call, available);
    var (after, outcome) := DecodePayload(d, contexts, call, available);
    var grown := log + [Logged(call, outcome)];
    forall rect
      ensures (rect in after <==> Since(grown, rect).Some?)
              && (rect in after ==> after[rect] == Folded(d, Since(grown, rect).value))
    {
      StepState(d, contexts, log, call, available, rect);
    }
  }

  /**
   * What a call returns depends on its rectangle's own history alone: without payload or area it says so, without a
   * decoder or room for one it is refused, and otherwise the decoder that saw this history decides.
   */
  lemma OutcomeIsTheHistory<S(!new)>(d: Decoder<S>, contexts: map<RfbRect, S>, log: seq<Logged>, call: Call,
                                     available: bool)
    requires CacheInv(d, contexts, log)
    ensures var outcome := DecodePayload(d, contexts, call, available).1;
            var seen := if call.resetAll || call.resetContext then None else Since(log, call.rect);
            var others := if call.resetAll then 0 else |contexts - {call.rect}|;
            var sized := call.payload != [] && call.rect.width > 0 && call.rect.height > 0;
            && (outcome.NoData? <==> call.payload == [])
            && (outcome.EmptyArea? <==> call.payload != [] && !sized)
            && (outcome.TooManyContexts? <==> sized && seen.None? && others >= 64)
            && (outcome.NoDecoder? <==> sized && seen.None? && others < 64 && !available)
            && (sized && (seen.Some? || (others < 64 && available)) ==>
                  var result := d.decode(Folded(d, seen.GetOr([])), call.payload).1;
                  && (outcome.DecodeFailed? <==> result.Err?)
                  && (outcome.NoFrame? <==> result == Ok(None))
                  && (result.Ok? && result.value.Some? ==> outcome == Converted(call.rect, result.value.value)))
  {
    hide Converted, Since, Folded, AfterResets, CacheInv;
    KeptHistory(d, contexts, log, call);
  }

  lemma KeptHistory<S(!new)>(d: Decoder<S>, contexts: map<RfbRect, S>, log: seq<Logged>, call: Call)
    requires CacheInv(d, contexts, log)
    ensures var kept := AfterResets(contexts, call);
            var seen := if call.resetAll || call.resetContext then None else Since(log, call.rect);
            && (call.rect in kept <==> seen.Some?)
            && (call.rect in kept ==> kept[call.rect] == Folded(d, seen.value))
            && (call.rect !in kept ==> |kept| == if call.resetAll then 0 else |contexts - {call.rect}|)
            && Folded(d, []) == d.initial
  {
    hide Since;
    var kept := AfterResets(contexts, call);
    assert call.rect !in kept ==> kept == if call.resetAll then map[] else contexts - {call.rect};
  }

  ghost function Run<S(!new)>(d: Decoder<S>, contexts: map<RfbRect, S>, log: seq<Logged>, calls: seq<(Call, bool)>)
    : (map<RfbRect, S>, seq<Logged>)
    decreases |calls|
  {
    if calls == [] then (contexts, log)
    else
      var (after, outcome) := DecodePayload(d, contexts, calls[0].0, calls[0].1);
      Run(d, after, log + [Logged(calls[0].0, outcome)], calls[1..])
  }

  /**
   * Over any sequence of rectangles, resets, failures and refusals the cache is the fold of each rectangle's own
   * history.
   */
  lemma {:induction false} CacheIsTheHistory<S(!new)>(d: Decoder<S>, contexts: map<RfbRect, S>, log: seq<Logged>,
                                                      calls: seq<(Call, bool)>)
    requires CacheInv(d, contexts, log)
    ensures var (after, grown) := Run(d, contexts, log, calls); CacheInv(d, after, grown)
    decreases |calls|
  {
    hide DecodePayload, CacheInv;
    if calls != [] {
      StepKeeps(d, contexts, log, calls[0].0, calls[0].1);
      var (after, outcome) := DecodePayload(d, contexts, calls[0].0, calls[0].1);
      CacheIsTheHistory(d, after, log + [Logged(calls[0].0, outcome)], calls[1..]);
    }
  }

  lemma EmptyCache<S(!new)>(d: Decoder<S>)
    ensures CacheInv(d, map[], [])
  {
  }

  /** Without a global reset a rectangle's payload touches no other rectangle's decoder. */
  lemma OtherRectanglesUntouched<S>(d: Decoder<S>, contexts: map<RfbRect, S>, call: Call, available: bool)
    requires !call.resetAll
    ensures var after := DecodePayload(d, contexts, call, available).0;
            after - {call.rect} == contexts - {call.rect}
  {
    hide Converted;
  }
}

module VncH264 {
  import opened FixedWidth
  import opened Pixels
  import opened H264Pixels
  import opened H264Contexts

  class VncH264State<S(!new)> {
    const decoder: Decoder<S>
    var contexts: map<RfbRect, S>
    ghost var log: seq<Logged>

    constructor (decoder: Decoder<S>)
      ensures this.decoder == decoder && contexts == map[] && log == []
      ensures CacheInv(decoder, contexts, log)
    {
      this.decoder, contexts, log := decoder, map[], [];
      new;
      EmptyCache(decoder);
    }

    method DecodePayload(call: Call, available: bool) returns (outcome: Outcome)
      requires CacheInv(decoder, contexts, log)
      modifies this
      ensures (contexts, outcome) == H264Contexts.DecodePayload(decoder, old(contexts), call, available)
      ensures log == old(log) + [Logged(call, outcome)]
      ensures CacheInv(decoder, contexts, log)
    {
      hide CacheInv, Converted;
      StepKeeps(decoder, contexts, log, call, available);
      outcome := Decode(call, available);
      log := log + [Logged(call, outcome)];
    }

    method Decode(call: Call, available: bool) returns (outcome: Outcome)
      modifies `contexts
      ensures (contexts, outcome) == H264Contexts.DecodePayload(decoder, old(contexts), call, available)
    {
      hide Converted;
      if call.resetAll {
        contexts := map[];
      }
      if call.resetContext {
        contexts := contexts - {call.rect};
      }
      if call.payload == [] {
        return NoData;
      }
      if call.rect.width == 0 || call.rect.height == 0 {
        return EmptyArea;
      }
      if call.rect !in contexts && |contexts| >= MAX_CONTEXTS {
        return TooManyContexts;
      }
      if call.rect !in contexts && !available {
        return NoDecoder;
      }
      var state := if call.rect in contexts then contexts[call.rect] else decoder.initial;
      var (next, result) := decoder.decode(state, call.payload);
      if result.Err? {
        // Later payloads build on this one, so the decoder is worthless now.
        contexts := contexts - {call.rect};
        return DecodeFailed;
      }
      contexts := contexts[call.rect := next];
      if result.value.None? {
        return NoFrame;
      }
      outcome := Convert(call.rect, result.value.value);
    }

    /** Refused exactly when the frame is too small, of the wrong length or too large; otherwise opaque and BGRA. */
    static method Convert(rect: RfbRect, frame: Frame) returns (outcome: Outcome)
      ensures outcome == Converted(rect, frame)
      ensures outcome.BadFrame? <==>
              || frame.width < rect.width || frame.height < rect.height
              || |frame.rgba| != 4 * (frame.width * frame.height)
              || 4 * (rect.width * rect.height) > 128 * 1024 * 1024
      ensures outcome.Pixels? ==>
                && |outcome.bgra| == 4 * (rect.width * rect.height)
                && forall x: nat, y: nat | x < rect.width && y < rect.height ::
                     PixelAt(outcome.bgra, rect.width, x, y) == BgraPixel(PixelAt(frame.rgba, frame.width, x, y))
    {
      if !FrameUsable(rect, frame) {
        return BadFrame;
      }
      UsableIsReadable(rect, frame);
      var bgra := new u8[4 * (rect.width * rect.height)];
      FrameToBgra(frame.rgba, frame.width, rect.width, rect.height, bgra);
      ConvertedPixels(frame.rgba, frame.width, rect.width, rect.height);
      return Pixels(bgra[..]);
    }
  }
}
