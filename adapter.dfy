/**
 * The pure decisions of the adapter: which libretro format a pixel type is
 * declared as, which row stride a frame is handed over with, which log level a
 * gfxprim debug message gets, which events the left-button edge detector queues,
 * what draining the queue asks of the host, and the constant entry points.
 */
module Adapter {
  import opened Wrappers
  import opened Gfxprim
  import opened Libretro
  import opened Effects

  // ---------------------------------------------------------------------------
  // Pixel formats and frame stride

  /** Bytes one pixel of a libretro format occupies (the reference for strides). */
  function FormatBytes(f: PixelFormat): nat
  {
    match f
    case Format0RGB1555 => 2
    case FormatXRGB8888 => 4
    case FormatRGB565 => 2
  }

  /**
   * The format retro_load_game declares for a pixel type: XRGB8888 for an
   * xRGB8888 pixmap and RGB565 for every other pixel type.
   */
  function FormatFor(t: PixelType): (f: PixelFormat)
    ensures f == FormatXRGB8888 <==> t == PixelXRGB8888
    ensures f == FormatRGB565 <==> t != PixelXRGB8888
  {
    if t == PixelXRGB8888 then FormatXRGB8888 else FormatRGB565
  }

  /**
   * The pitch retro_flip hands to the host, or None when retro_flip has no case
   * for the pixel type. `w << 2` is an unsigned shift of a 32-bit width, so it
   * wraps; `w * sizeof(uint16_t)` is computed in size_t, which on a 64-bit
   * size_t cannot wrap for a 32-bit width (the model assumes a 64-bit size_t).
   */
  function Stride(t: PixelType, w: u32): (r: Option<nat>)
    ensures r.Some? <==> t == PixelRGB565 || t == PixelXRGB8888
  {
    match t
    case PixelXRGB8888 => Some((w * 4) % U32Limit)
    case PixelRGB565 => Some(w * 2)
    case PixelOther => None
  }

  /**
   * The video_cb call retro_flip makes for a pixmap: one frame of the pixmap's
   * size with its stride, or none when the pixel type is unsupported.
   */
  function FrameCalls(p: Pixmap): (r: seq<Effect>)
    ensures |r| <= 1
    ensures r == [] <==> p.pixelType == PixelOther
    ensures r != [] ==> r[0].VideoRefresh? && r[0].width == p.w && r[0].height == p.h
    ensures r != [] ==> r[0].pitch == Stride(p.pixelType, p.w).value
  {
    match Stride(p.pixelType, p.w)
    case Some(pitch) => [VideoRefresh(p.w, p.h, pitch)]
    case None => []
  }

  /**
   * For a supported pixel type and any width whose shift does not wrap, the
   * stride is the width times the bytes per pixel of the format declared to
   * the host, so the frame handed over matches the negotiated format.
   */
  lemma StrideMatchesDeclaredFormat(t: PixelType, w: u32)
    requires t == PixelRGB565 || t == PixelXRGB8888
    requires w < 0x4000_0000
    ensures Stride(t, w) == Some(w * FormatBytes(FormatFor(t)))
  {
  }

  /** The shift wraps: an xRGB8888 pixmap 2^30 pixels wide is handed over with pitch 0. */
  lemma StrideWrapsAt2To30()
    ensures Stride(PixelXRGB8888, 0x4000_0000) == Some(0)
    ensures Stride(PixelRGB565, 0x4000_0000) == Some(0x8000_0000)
  {
  }

  // ---------------------------------------------------------------------------
  // Debug levels

  /**
   * The libretro log level retro_debug forwards a gfxprim debug message with:
   * TODO goes to DEBUG, WARN to WARN, BUG and FATAL to ERROR, every other level
   * to INFO.
   */
  function LogLevelFor(level: int): (r: LogLevel)
    ensures r == LogDebug <==> level == DebugTodo
    ensures r == LogWarn <==> level == DebugWarn
    ensures r == LogError <==> level == DebugBug || level == DebugFatal
    ensures r == LogInfo <==> level !in {DebugTodo, DebugWarn, DebugBug, DebugFatal}
  {
    if level == DebugTodo then LogDebug
    else if level == DebugWarn then LogWarn
    else if level == DebugBug then LogError
    else if level == DebugFatal then LogError
    else LogInfo
  }

  // ---------------------------------------------------------------------------
  // Edge-triggered input

  /** The stored button value after a run of readings that started from `stored`. */
  function LastReading(stored: bool, readings: seq<bool>): bool
  {
    if readings == [] then stored else readings[|readings| - 1]
  }

  /** The events one poll queues: the reading, when it differs from the stored value. */
  function PollEvents(stored: bool, reading: bool, usec: int): seq<Event>
  {
    if reading != stored then [LeftButtonEvent(reading, usec)] else []
  }

  /**
   * The events successive polls queue when the stored left-button value starts
   * at `stored` and the host reports `readings`: one event per reading that
   * differs from the value stored before it, whose code is the new value. The
   * definition follows the polls in order: the last poll's events come last.
   */
  function EdgeEvents(stored: bool, readings: seq<bool>, usec: int): (r: seq<Event>)
    ensures |r| <= |readings|
  {
    if readings == [] then []
    else
      var before := readings[..|readings| - 1];
      EdgeEvents(stored, before, usec)
      + PollEvents(LastReading(stored, before), readings[|readings| - 1], usec)
  }

  /** One poll queues the new value exactly when it differs from the stored one. */
  lemma OnePollEdge(stored: bool, r: bool, usec: int)
    ensures EdgeEvents(stored, [r], usec) == if r != stored then [LeftButtonEvent(r, usec)] else []
  {
    assert [r][..0] == [];
  }

  /** Polling once more queues the events of one poll after those queued so far. */
  lemma EdgeEventsSnoc(stored: bool, readings: seq<bool>, r: bool, usec: int)
    ensures EdgeEvents(stored, readings + [r], usec)
         == EdgeEvents(stored, readings, usec) + EdgeEvents(LastReading(stored, readings), [r], usec)
  {
    assert (readings + [r])[..|readings|] == readings;
    OnePollEdge(LastReading(stored, readings), r, usec);
  }

  /** EdgeEventsSnoc for the prefixes a loop over the readings walks through. */
  lemma EdgeEventsPrefixStep(stored: bool, readings: seq<bool>, i: nat, usec: int)
    requires i < |readings|
    ensures EdgeEvents(stored, readings[..i + 1], usec)
         == EdgeEvents(stored, readings[..i], usec) + EdgeEvents(LastReading(stored, readings[..i]), [readings[i]], usec)
    ensures LastReading(stored, readings[..i + 1]) == readings[i]
  {
    assert readings[..i + 1] == readings[..i] + [readings[i]];
    EdgeEventsSnoc(stored, readings[..i], readings[i], usec);
  }

  /** No event is queued exactly when every reading equals the stored value. */
  lemma {:induction false} EdgeEventsEmptyIff(stored: bool, readings: seq<bool>, usec: int)
    ensures EdgeEvents(stored, readings, usec) == []
        <==> forall i :: 0 <= i < |readings| ==> readings[i] == stored
  {
    if readings != [] {
      var before := readings[..|readings| - 1];
      var last := readings[|readings| - 1];
      EdgeEventsEmptyIff(stored, before, usec);
      if forall i :: 0 <= i < |before| ==> before[i] == stored {
        assert LastReading(stored, before) == stored;
      }
      if forall i :: 0 <= i < |readings| ==> readings[i] == stored {
        assert forall i :: 0 <= i < |before| ==> before[i] == readings[i];
      }
      if EdgeEvents(stored, readings, usec) == [] {
        assert EdgeEvents(stored, before, usec) == [];
        assert forall i :: 0 <= i < |before| ==> before[i] == stored;
        assert last == LastReading(stored, before) == stored;
        forall i | 0 <= i < |readings| ensures readings[i] == stored {
          if i < |before| { assert readings[i] == before[i]; }
        }
      }
    }
  }

  /** `ev` is a left-button press or release stamped with time `usec`. */
  predicate IsLeftButtonEvent(ev: Event, usec: int)
  {
    ev == LeftButtonEvent(ev.code == EvKeyDown, usec)
  }

  /** Every queued event is a left-button press or release stamped with the poll's time. */
  lemma {:induction false} EdgeEventsAreLeftButton(stored: bool, readings: seq<bool>, usec: int)
    ensures forall ev :: ev in EdgeEvents(stored, readings, usec) ==> IsLeftButtonEvent(ev, usec)
  {
    if readings != [] {
      var before := readings[..|readings| - 1];
      var r := readings[|readings| - 1];
      EdgeEventsAreLeftButton(stored, before, usec);
      var prev := EdgeEvents(stored, before, usec);
      var added := PollEvents(LastReading(stored, before), r, usec);
      assert IsLeftButtonEvent(LeftButtonEvent(r, usec), usec);
      assert EdgeEvents(stored, readings, usec) == prev + added;
    }
  }

  /**
   * The queued events alternate between press and release: the first is the
   * opposite of the stored value, each one has the opposite code of the one
   * before, and the last one (if any) is the final reading; with no event the
   * final reading is the stored value. With EdgeEventsSnoc and OnePollEdge,
   * which fix how many events each poll adds, this rules out a duplicated or
   * dropped transition.
   */
  lemma {:induction false} EdgeEventsAlternate(stored: bool, readings: seq<bool>, usec: int)
    ensures var e := EdgeEvents(stored, readings, usec);
      && (e != [] ==> e[0] == LeftButtonEvent(!stored, usec))
      && (forall k :: 0 <= k < |e| - 1 ==> e[k + 1].code != e[k].code)
      && (e != [] ==> e[|e| - 1] == LeftButtonEvent(LastReading(stored, readings), usec))
      && (e == [] ==> LastReading(stored, readings) == stored)
  {
    if readings != [] {
      var before := readings[..|readings| - 1];
      var r := readings[|readings| - 1];
      EdgeEventsAlternate(stored, before, usec);
      var prev := EdgeEvents(stored, before, usec);
      var e := EdgeEvents(stored, readings, usec);
      var lastBefore := LastReading(stored, before);
      assert e == prev + PollEvents(lastBefore, r, usec);
      if r != lastBefore {
        assert e == prev + [LeftButtonEvent(r, usec)];
        assert forall k :: 0 <= k < |prev| ==> e[k] == prev[k];
        if prev != [] {
          assert e[|prev| - 1] == LeftButtonEvent(lastBefore, usec);
        }
      } else {
        assert e == prev;
      }
    }
  }

  /** The readings false, true, true, false queue exactly a press and then a release. */
  lemma PressReleaseQueuesTwo(usec: int)
    ensures EdgeEvents(false, [false, true, true, false], usec)
         == [LeftButtonEvent(true, usec), LeftButtonEvent(false, usec)]
  {
    var rs := [false, true, true, false];
    assert rs[..3] == [false, true, true];
    assert rs[..3][..2] == [false, true];
    assert rs[..3][..2][..1] == [false];
    assert [false][..0] == [];
    assert EdgeEvents(false, [false], usec) == [];
    assert EdgeEvents(false, [false, true], usec) == [LeftButtonEvent(true, usec)];
    assert EdgeEvents(false, [false, true, true], usec) == [LeftButtonEvent(true, usec)];
  }

  // ---------------------------------------------------------------------------
  // Draining the event queue

  /**
   * The host calls event_loop makes while draining a queue: one shutdown
   * request for every left-button key-down, in queue order, and nothing else.
   */
  function DrainCalls(queue: seq<Event>): (r: seq<Effect>)
    ensures |r| <= |queue|
    ensures forall i :: 0 <= i < |r| ==> r[i] == EnvShutdown
  {
    if queue == [] then []
    else (if IsLeftPress(queue[0]) then [EnvShutdown] else []) + DrainCalls(queue[1..])
  }

  /** Draining two queues one after the other makes the calls of both, in order. */
  lemma {:induction false} DrainCallsAppend(a: seq<Event>, b: seq<Event>)
    ensures DrainCalls(a + b) == DrainCalls(a) + DrainCalls(b)
  {
    if a == [] {
      assert a + b == b;
    } else {
      assert (a + b)[0] == a[0];
      assert (a + b)[1..] == a[1..] + b;
      DrainCallsAppend(a[1..], b);
    }
  }

  /**
   * One step of draining a queue from the front: the rest of the queue after
   * event i is the queue after i + 1, and the calls for the first i + 1 events
   * are those for the first i and then those for event i alone.
   */
  lemma DrainCallsPrefixStep(queue: seq<Event>, i: nat)
    requires i < |queue|
    ensures queue[i..][0] == queue[i] && queue[i..][1..] == queue[i + 1..]
    ensures DrainCalls(queue[..i + 1])
         == DrainCalls(queue[..i]) + (if IsLeftPress(queue[i]) then [EnvShutdown] else [])
  {
    assert queue[..i + 1] == queue[..i] + [queue[i]];
    DrainCallsAppend(queue[..i], [queue[i]]);
    assert [queue[i]][1..] == [];
  }

  /** Draining requests a shutdown exactly when the queue holds a left-button key-down. */
  lemma {:induction false} DrainShutdownIff(queue: seq<Event>)
    ensures EnvShutdown in DrainCalls(queue) <==> exists i :: 0 <= i < |queue| && IsLeftPress(queue[i])
  {
    if queue != [] {
      DrainShutdownIff(queue[1..]);
      if exists i :: 0 <= i < |queue[1..]| && IsLeftPress(queue[1..][i]) {
        var i :| 0 <= i < |queue[1..]| && IsLeftPress(queue[1..][i]);
        assert IsLeftPress(queue[i + 1]);
      }
      if exists i :: 0 <= i < |queue| && IsLeftPress(queue[i]) {
        var i :| 0 <= i < |queue| && IsLeftPress(queue[i]);
        if i > 0 { assert queue[1..][i - 1] == queue[i]; }
      }
    }
  }

  /**
   * A poll that sees the left button go from released to pressed queues an
   * event whose draining requests a shutdown, whatever was queued before it.
   */
  lemma PressThenDrainShutsDown(queue: seq<Event>, usec: int)
    ensures EnvShutdown in DrainCalls(queue + EdgeEvents(false, [true], usec))
  {
    var press := LeftButtonEvent(true, usec);
    assert EdgeEvents(false, [true], usec) == [press];
    DrainCallsAppend(queue, [press]);
    assert DrainCalls([press]) == [EnvShutdown];
  }

  // ---------------------------------------------------------------------------
  // Deinitialisation

  /**
   * The release calls retro_deinit makes for a backend: the pixmap, the timers
   * and the clipboard data, each only when present, each at most once.
   */
  function ReleaseCalls(b: Backend): (r: seq<Effect>)
    ensures PixmapFree in r <==> b.pixmap.Some?
    ensures TimersFree in r <==> b.timers
    ensures ClipboardFree in r <==> b.clipboard
    ensures forall i, j :: 0 <= i < j < |r| ==> r[i] != r[j]
    ensures forall i :: 0 <= i < |r| ==> r[i] in {PixmapFree, TimersFree, ClipboardFree}
  {
    (if b.pixmap.Some? then [PixmapFree] else [])
    + (if b.timers then [TimersFree] else [])
    + (if b.clipboard then [ClipboardFree] else [])
  }

  // ---------------------------------------------------------------------------
  // Environment registration

  const FrameTimeFailure: string := "[GFXPrim]: Failed to set frame time callback"

  /**
   * The log line retro_set_environment writes after asking the host to take the
   * frame-time callback, AS WRITTEN: it logs the failure when the host accepts.
   */
  function FrameTimeLogAsWritten(accepted: bool): (r: seq<Effect>)
    ensures r != [] <==> accepted
    ensures r != [] ==> r == [Log(LogError, FrameTimeFailure, [])]
  {
    if accepted then [Log(LogError, FrameTimeFailure, [])] else []
  }

  /** The as-written test reports an accepted callback as a failure and a refused one not at all. */
  lemma FrameTimeLogAsWrittenInverted()
    ensures FrameTimeLogAsWritten(true) == [Log(LogError, FrameTimeFailure, [])]
    ensures FrameTimeLogAsWritten(false) == []
  {
  }

  /** The intended log line: the failure is logged exactly when the host refuses the callback. */
  function FrameTimeLog(accepted: bool): (r: seq<Effect>)
    ensures r != [] <==> !accepted
    ensures r != [] ==> r == [Log(LogError, FrameTimeFailure, [])]
  {
    if !accepted then [Log(LogError, FrameTimeFailure, [])] else []
  }

  // ---------------------------------------------------------------------------
  // Constant entry points

  /** retro_api_version reports the libretro API version it was built against. */
  function ApiVersion(): (v: nat)
    ensures v == RetroApiVersion
  {
    RetroApiVersion
  }

  /** retro_get_region always reports NTSC. */
  function Region(): (r: nat)
    ensures r == RegionNtsc
  {
    RegionNtsc
  }

  /** retro_get_system_info: the core runs without content and accepts any extension. */
  function GetSystemInfo(): (info: SystemInfo)
    ensures info.libraryName == "gfxprim" && info.libraryVersion == "v0.0.1"
    ensures info.blockExtract && !info.needFullpath && info.validExtensions == []
  {
    SystemInfo("gfxprim", "v0.0.1", true, false, [])
  }

  /** retro_serialize_size: the saved state is always empty. */
  function SerializeSize(): (n: nat)
    ensures n == 0
  {
    0
  }

  /** retro_serialize succeeds for every buffer and writes nothing into it. */
  function Serialize(data: seq<bv8>, size: nat): (ok: bool)
    ensures ok
  {
    true
  }

  /** retro_unserialize accepts every payload, the empty one included. */
  function Unserialize(data: seq<bv8>, size: nat): (ok: bool)
    ensures ok
  {
    true
  }

  /** retro_get_memory_data exposes no memory region. */
  function GetMemoryData(id: nat): (r: Option<seq<bv8>>)
    ensures r.None?
  {
    None
  }

  /** retro_get_memory_size reports every memory region as empty. */
  function GetMemorySize(id: nat): (n: nat)
    ensures n == 0
  {
    0
  }
}
