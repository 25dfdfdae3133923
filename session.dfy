/**
 * The adapter's session state (the global `core` of the source) and the entry
 * points the host calls on it. The host's answers are parameters; every call
 * the adapter makes outward is appended to `trace`.
 */
module Session {
  import opened Wrappers
  import opened Gfxprim
  import opened Libretro
  import opened Effects
  import opened Adapter

  const Int64Min: int := -0x8000_0000_0000_0000
  const Int64Max: int := 0x7fff_ffff_ffff_ffff

  /** The width, height and pixel type retro_init creates the virtual backend with. */
  const InitWidth: u32 := 400
  const InitHeight: u32 := 225
  const InitPixelType: PixelType := PixelRGB565

  const PixelFormatFailure: string := "[GFXPrim]: Failed to set pixel format\n"
  const PluggingDevice: string := "[GFXPrim]: Plugging device %u into port %u.\n"

  /** The backend gp_backend_virt_init yields in retro_init, named "libretro", with no timers, clipboard data or events. */
  function InitialBackend(): Backend
  {
    Backend("libretro", Some(Pixmap(InitWidth, InitHeight, InitPixelType)), false, false, [])
  }

  class Core {
    /** core.backend; None is NULL. */
    var backend: Option<Backend>
    /** core.input.mouse.left: the left-button value seen by the last poll. */
    var left: bool
    /** core.time.deltaMillseconds, set by the frame-time callback. */
    var deltaMs: u32
    /** The calls made to the host and the release calls made so far, oldest first. */
    var trace: seq<Effect>

    /** A live backend always has its pixmap: retro_flip and retro_load_game dereference it. */
    ghost predicate Valid()
      reads this
    {
      backend.Some? ==> backend.value.pixmap.Some?
    }

    /** The pixmap of the live backend. */
    function CurrentPixmap(): Pixmap
      reads this
      requires Valid() && backend.Some?
    {
      backend.value.pixmap.value
    }

    /** The zero-initialised global: no backend, button released, no frame time. */
    constructor ()
      ensures Valid()
      ensures backend == None && !left && deltaMs == 0 && trace == []
    {
      backend := None;
      left := false;
      deltaMs := 0;
      trace := [];
    }

    /**
     * retro_init: create a 400x225 RGB565 virtual backend. Any earlier backend
     * is replaced without being released, and the stored button value is kept.
     */
    method Init()
      modifies this
      ensures Valid()
      ensures backend == Some(InitialBackend())
      ensures left == old(left) && deltaMs == old(deltaMs) && trace == old(trace)
    {
      backend := Some(InitialBackend());
    }

    /**
     * retro_deinit: with no backend nothing happens; otherwise the pixmap, the
     * timers and the clipboard data are released, each only if present, and
     * the backend is dropped.
     */
    method Deinit()
      modifies this
      ensures Valid()
      ensures backend == None
      ensures old(backend).None? ==> trace == old(trace)
      ensures old(backend).Some? ==> trace == old(trace) + ReleaseCalls(old(backend).value)
      ensures left == old(left) && deltaMs == old(deltaMs)
    {
      if backend.None? {
        return;
      }
      var b := backend.value;
      if b.pixmap.Some? {
        trace := trace + [PixmapFree];
      }
      if b.timers {
        trace := trace + [TimersFree];
      }
      if b.clipboard {
        trace := trace + [ClipboardFree];
      }
      backend := None;
    }

    /** retro_frametime: the 64-bit microsecond count is stored in an unsigned 32-bit field. */
    method FrameTime(usec: int)
      requires Int64Min <= usec <= Int64Max
      modifies this
      ensures deltaMs == usec % U32Limit
      ensures backend == old(backend) && left == old(left) && trace == old(trace)
    {
      deltaMs := usec % U32Limit;
    }

    /**
     * retro_poll: ask the host for the left mouse button and queue a key event
     * only when the reading differs from the stored value; the stored value
     * then equals the reading.
     */
    method Poll(reading: bool)
      requires backend.Some?
      modifies this
      ensures left == reading
      ensures reading != old(left) ==>
        backend == Some(old(backend).value.(queue := old(backend).value.queue + [LeftButtonEvent(reading, deltaMs)]))
      ensures reading == old(left) ==> backend == old(backend)
      ensures backend == Some(old(backend).value.(queue := old(backend).value.queue + EdgeEvents(old(left), [reading], deltaMs)))
      ensures trace == old(trace) + [InputPoll, InputStateMouseLeft]
      ensures deltaMs == old(deltaMs)
    {
      OnePollEdge(left, reading, deltaMs);
      trace := trace + [InputPoll];
      trace := trace + [InputStateMouseLeft];
      var pushed := reading;
      if pushed != left {
        var b := backend.value;
        backend := Some(b.(queue := b.queue + [LeftButtonEvent(pushed, deltaMs)]));
        left := pushed;
      } else {
        assert backend.value.queue + [] == backend.value.queue;
      }
    }

    /** retro_exit: ask the host to shut the core down. */
    method Exit()
      modifies this
      ensures trace == old(trace) + [EnvShutdown]
      ensures backend == old(backend) && left == old(left) && deltaMs == old(deltaMs)
    {
      trace := trace + [EnvShutdown];
    }

    /** retro_debug: forward a gfxprim debug message to the host log at the mapped level. */
    method Debug(level: int, msg: string)
      modifies this
      ensures trace == old(trace) + [Log(LogLevelFor(level), msg, [])]
      ensures backend == old(backend) && left == old(left) && deltaMs == old(deltaMs)
    {
      trace := trace + [Log(LogLevelFor(level), msg, [])];
    }

    /**
     * event_loop: pop every queued event; each key-down of the left mouse
     * button asks the host to shut down. The queue ends empty.
     */
    method DrainEvents()
      requires backend.Some?
      modifies this
      ensures backend == Some(old(backend).value.(queue := []))
      ensures trace == old(trace) + DrainCalls(old(backend).value.queue)
      ensures left == old(left) && deltaMs == old(deltaMs)
    {
      ghost var b0 := backend.value;
      ghost var drained := b0.queue;
      ghost var i := 0;
      while backend.value.queue != []
        invariant 0 <= i <= |drained| && backend == Some(b0.(queue := drained[i..]))
        invariant trace == old(trace) + DrainCalls(drained[..i])
        invariant left == old(left) && deltaMs == old(deltaMs)
        decreases |drained| - i
      {
        DrainCallsPrefixStep(drained, i);
        var b := backend.value;
        var ev := b.queue[0];
        backend := Some(b.(queue := b.queue[1..]));
        match ev.kind {
          case Key =>
            if ev.code == EvKeyDown && ev.val == BtnLeft {
              Exit();
            }
          case _ =>
        }
        i := i + 1;
      }
      assert drained[..i] == drained;
    }

    /** retro_flip: hand the pixmap to the host with the stride of its pixel type, if it has one. */
    method Flip()
      requires Valid() && backend.Some?
      modifies this
      ensures trace == old(trace) + FrameCalls(old(CurrentPixmap()))
      ensures backend == old(backend) && left == old(left) && deltaMs == old(deltaMs)
    {
      var p := backend.value.pixmap.value;
      match Stride(p.pixelType, p.w) {
        case Some(pitch) =>
          trace := trace + [VideoRefresh(p.w, p.h, pitch)];
        case None =>
      }
    }

    /**
     * retro_run: with no backend nothing happens. Otherwise poll, drain the
     * queue, (render: drawing only), flip, emit one silent audio sample and
     * ask the host whether variables changed. The queue ends empty.
     */
    method Run(reading: bool)
      requires Valid()
      modifies this
      ensures Valid()
      ensures old(backend).None? ==>
        backend == old(backend) && left == old(left) && trace == old(trace)
      ensures old(backend).Some? ==>
        && backend == Some(old(backend).value.(queue := []))
        && left == reading
        && trace == old(trace) + [InputPoll, InputStateMouseLeft]
                   + DrainCalls(old(backend).value.queue + EdgeEvents(old(left), [reading], old(deltaMs)))
                   + FrameCalls(old(CurrentPixmap()))
                   + [AudioSample(0, 0), EnvGetVariableUpdate]
      ensures old(backend).Some? && !old(left) && reading ==> EnvShutdown in trace[|old(trace)|..]
      ensures deltaMs == old(deltaMs)
    {
      if backend.None? {
        return;
      }
      ghost var t0 := trace;
      ghost var pixmap := CurrentPixmap();
      ghost var queued := backend.value.queue + EdgeEvents(left, [reading], deltaMs);
      if !left && reading {
        PressThenDrainShutsDown(backend.value.queue, deltaMs);
      }
      Poll(reading);
      DrainEvents();
      // render(): drawing onto the pixmap, which this model does not represent.
      Flip();
      trace := trace + [AudioSample(0, 0)];
      trace := trace + [EnvGetVariableUpdate];
      // check_variables() does nothing, whatever the host answers.
      RunTraceShape(t0, DrainCalls(queued), FrameCalls(pixmap));
    }

    /**
     * retro_load_game: fail with no backend; otherwise declare the format of
     * the pixmap's pixel type and succeed exactly when the host accepts it.
     * The backend and its pixel type are never changed.
     */
    method LoadGame(accepts: PixelFormat -> bool) returns (ok: bool)
      requires Valid()
      modifies this
      ensures backend == old(backend) && left == old(left) && deltaMs == old(deltaMs)
      ensures old(backend).None? ==> !ok && trace == old(trace)
      ensures old(backend).Some? ==>
        && ok == accepts(FormatFor(old(CurrentPixmap()).pixelType))
        && trace == old(trace) + [EnvSetPixelFormat(FormatFor(old(CurrentPixmap()).pixelType))]
                   + (if ok then [] else [Log(LogError, PixelFormatFailure, [])])
    {
      if backend.None? {
        return false;
      }
      var fmt := FormatFor(backend.value.pixmap.value.pixelType);
      trace := trace + [EnvSetPixelFormat(fmt)];
      if !accepts(fmt) {
        trace := trace + [Log(LogError, PixelFormatFailure, [])];
        return false;
      }
      // check_variables() does nothing.
      return true;
    }

    /** retro_load_game_special: the same as loading a single game. */
    method LoadGameSpecial(gameType: nat, num: nat, accepts: PixelFormat -> bool) returns (ok: bool)
      requires Valid()
      modifies this
      ensures backend == old(backend) && left == old(left) && deltaMs == old(deltaMs)
      ensures old(backend).None? ==> !ok && trace == old(trace)
      ensures old(backend).Some? ==>
        && ok == accepts(FormatFor(old(CurrentPixmap()).pixelType))
        && trace == old(trace) + [EnvSetPixelFormat(FormatFor(old(CurrentPixmap()).pixelType))]
                   + (if ok then [] else [Log(LogError, PixelFormatFailure, [])])
    {
      ok := LoadGame(accepts);
    }

    /**
     * retro_get_system_av_info: nothing without a backend; otherwise 60 fps, no
     * audio, and base and maximum geometry equal to the pixmap's size.
     */
    function SystemAvInfo(): (r: Option<AvInfo>)
      reads this
      requires Valid()
      ensures r.None? <==> backend.None?
      ensures r.Some? ==>
        && r.value.fps == 60.0 && r.value.sampleRate == 0.0
        && r.value.baseWidth == r.value.maxWidth == CurrentPixmap().w
        && r.value.baseHeight == r.value.maxHeight == CurrentPixmap().h
    {
      if backend.None? then None
      else
        var p := CurrentPixmap();
        Some(AvInfo(60.0, 0.0, p.w, p.h, p.w, p.h))
    }

    /**
     * retro_set_environment: declare that no content is needed, ask for the log
     * interface and offer the frame-time callback, logging a failure when the
     * host refuses it (the corrected test; see FrameTimeLogAsWritten).
     */
    method SetEnvironment(frameTimeAccepted: bool)
      modifies this
      ensures trace == old(trace)
        + [EnvSetSupportNoGame(true), EnvGetLogInterface, EnvSetFrameTimeCallback]
        + FrameTimeLog(frameTimeAccepted)
      ensures backend == old(backend) && left == old(left) && deltaMs == old(deltaMs)
    {
      trace := trace + [EnvSetSupportNoGame(true), EnvGetLogInterface, EnvSetFrameTimeCallback];
      if !frameTimeAccepted {
        trace := trace + [Log(LogError, FrameTimeFailure, [])];
      }
    }

    /** retro_set_controller_port_device: only logs the plugging at INFO level. */
    method SetControllerPortDevice(port: nat, device: nat)
      modifies this
      ensures trace == old(trace) + [Log(LogInfo, PluggingDevice, [device, port])]
      ensures backend == old(backend) && left == old(left) && deltaMs == old(deltaMs)
    {
      trace := trace + [Log(LogInfo, PluggingDevice, [device, port])];
    }

    /** retro_reset: changes nothing. */
    method Reset()
      ensures backend == old(backend) && left == old(left) && deltaMs == old(deltaMs) && trace == old(trace)
    {
    }

    /** retro_unload_game: changes nothing; the backend stays until retro_deinit. */
    method UnloadGame()
      ensures backend == old(backend) && left == old(left) && deltaMs == old(deltaMs) && trace == old(trace)
    {
    }

    /** retro_cheat_reset: changes nothing. */
    method CheatReset()
      ensures backend == old(backend) && left == old(left) && deltaMs == old(deltaMs) && trace == old(trace)
    {
    }

    /** retro_cheat_set: ignores its arguments and changes nothing. */
    method CheatSet(index: nat, enabled: bool, code: string)
      ensures backend == old(backend) && left == old(left) && deltaMs == old(deltaMs) && trace == old(trace)
    {
    }
  }

  // ---------------------------------------------------------------------------
  // Sessions across several entry points

  /** A second retro_deinit after a first one releases nothing more. */
  method DeinitTwice(c: Core)
    modifies c
    ensures c.backend == None
    ensures old(c.backend).None? ==> c.trace == old(c.trace)
    ensures old(c.backend).Some? ==> c.trace == old(c.trace) + ReleaseCalls(old(c.backend).value)
  {
    c.Deinit();
    c.Deinit();
  }

  /** After retro_init the reported geometry is 400x225, base and maximum alike. */
  method InitThenAvInfo(c: Core) returns (info: Option<AvInfo>)
    modifies c
    ensures info == Some(AvInfo(60.0, 0.0, 400, 225, 400, 225))
  {
    c.Init();
    info := c.SystemAvInfo();
  }

  /**
   * With no backend (before retro_init or after retro_deinit), retro_run and
   * retro_load_game leave the session as it is and loading fails. A refused
   * load does not lead here: it keeps the backend (RefusedFormatFailsLoad).
   */
  method NoBackendIsInert(c: Core, reading: bool, accepts: PixelFormat -> bool) returns (ok: bool)
    requires c.Valid() && c.backend.None?
    modifies c
    ensures !ok
    ensures c.backend == None && c.left == old(c.left) && c.trace == old(c.trace)
    ensures c.SystemAvInfo() == None
  {
    c.Run(reading);
    ok := c.LoadGame(accepts);
  }

  /** Polls reading false, true, true, false queue exactly a press and then a release. */
  method FourPollsQueuePressAndRelease(c: Core)
    requires c.backend.Some? && !c.left
    modifies c
    ensures c.backend.Some?
    ensures c.backend.value.queue == old(c.backend.value.queue)
      + [LeftButtonEvent(true, c.deltaMs), LeftButtonEvent(false, c.deltaMs)]
    ensures !c.left
  {
    c.Poll(false);
    c.Poll(true);
    c.Poll(true);
    c.Poll(false);
  }

  /** The calls one retro_run appends, given the drain and frame calls within it. */
  lemma RunTraceShape(t0: seq<Effect>, drain: seq<Effect>, frame: seq<Effect>)
    ensures t0 + [InputPoll, InputStateMouseLeft] + drain + frame + [AudioSample(0, 0)] + [EnvGetVariableUpdate]
         == t0 + [InputPoll, InputStateMouseLeft] + drain + frame + [AudioSample(0, 0), EnvGetVariableUpdate]
    ensures EnvShutdown in drain ==>
      EnvShutdown in (t0 + [InputPoll, InputStateMouseLeft] + drain + frame + [AudioSample(0, 0), EnvGetVariableUpdate])[|t0|..]
  {
    var added := [InputPoll, InputStateMouseLeft] + drain + frame + [AudioSample(0, 0), EnvGetVariableUpdate];
    assert t0 + [InputPoll, InputStateMouseLeft] + drain + frame + [AudioSample(0, 0), EnvGetVariableUpdate] == t0 + added;
    assert (t0 + added)[|t0|..] == added;
  }

  /** The queue PollSequence holds after poll i + 1, given the one it held after poll i. */
  lemma QueueAfterPoll(q0: seq<Event>, stored: bool, readings: seq<bool>, i: nat, usec: int)
    requires i < |readings|
    ensures (q0 + EdgeEvents(stored, readings[..i], usec))
              + EdgeEvents(LastReading(stored, readings[..i]), [readings[i]], usec)
         == q0 + EdgeEvents(stored, readings[..i + 1], usec)
    ensures LastReading(stored, readings[..i + 1]) == readings[i]
  {
    EdgeEventsPrefixStep(stored, readings, i, usec);
  }

  /**
   * Polling a run of readings one after the other queues EdgeEvents of them
   * and leaves the last reading stored.
   */
  method PollSequence(c: Core, readings: seq<bool>)
    requires c.backend.Some?
    modifies c
    ensures c.backend == Some(old(c.backend).value.(queue :=
      old(c.backend).value.queue + EdgeEvents(old(c.left), readings, c.deltaMs)))
    ensures c.left == LastReading(old(c.left), readings)
    ensures c.deltaMs == old(c.deltaMs)
  {
    ghost var b0 := c.backend.value;
    ghost var stored0 := c.left;
    var i := 0;
    assert readings[..0] == [];
    assert b0.queue + [] == b0.queue;
    while i < |readings|
      invariant 0 <= i <= |readings|
      invariant c.deltaMs == old(c.deltaMs)
      invariant c.backend.Some? && c.backend.value == b0.(queue := c.backend.value.queue)
      invariant c.backend.value.queue == b0.queue + EdgeEvents(stored0, readings[..i], c.deltaMs)
      invariant c.left == LastReading(stored0, readings[..i])
    {
      QueueAfterPoll(b0.queue, stored0, readings, i, c.deltaMs);
      c.Poll(readings[i]);
      i := i + 1;
    }
    assert readings[..i] == readings;
  }

  /** A refused pixel format fails the load and leaves the backend as it was. */
  method RefusedFormatFailsLoad(c: Core) returns (ok: bool)
    requires c.Valid()
    modifies c
    ensures !ok
    ensures c.backend == old(c.backend)
  {
    ok := c.LoadGame(_ => false);
  }
}
