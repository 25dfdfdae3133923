/**
 * The entities the adapter borrows from the gfxprim library: pixel types,
 * pixmaps, input events and the backend record that carries them.
 * Only the fields the adapter reads or writes are modelled.
 */
module Gfxprim {
  import opened Wrappers

  const U32Limit: int := 0x1_0000_0000

  /** An unsigned 32-bit quantity (gp_size, unsigned int). */
  type u32 = x: int | 0 <= x < U32Limit

  /** The pixel types the adapter distinguishes; every other gfxprim type is PixelOther. */
  datatype PixelType = PixelRGB565 | PixelXRGB8888 | PixelOther

  /** A pixmap as far as the adapter sees it: its size and pixel type (the pixels are drawn by the library). */
  datatype Pixmap = Pixmap(w: u32, h: u32, pixelType: PixelType)

  /** gp_event_type */
  datatype EventKind = Key | Rel | Abs | Sys | Timer | Utf

  /** gp_event_key_code values and the key code of the left mouse button. */
  const EvKeyUp: int := 0
  const EvKeyDown: int := 1
  const BtnLeft: int := 0x110

  /**
   * A queued event: its type, its code (press or release for keys), its value
   * (the key for keys) and the tv_usec part of its timestamp.
   */
  datatype Event = Event(kind: EventKind, code: int, val: int, usec: int)

  /** The event gp_event_queue_push_key(queue, GP_BTN_LEFT, pressed, time) queues. */
  function LeftButtonEvent(pressed: bool, usec: int): Event
  {
    Event(Key, if pressed then EvKeyDown else EvKeyUp, BtnLeft, usec)
  }

  /** True when the event is a key-down of the left mouse button. */
  predicate IsLeftPress(ev: Event)
  {
    ev.kind == Key && ev.code == EvKeyDown && ev.val == BtnLeft
  }

  /**
   * gp_backend as the adapter uses it: its name, its pixmap, whether it holds
   * timers and clipboard data, and its event queue (FIFO, head first).
   */
  datatype Backend = Backend(
    name: string,
    pixmap: Option<Pixmap>,
    timers: bool,
    clipboard: bool,
    queue: seq<Event>)

  /** gfxprim's special debug levels; every other level is a verbosity level. */
  const DebugTodo: int := -1
  const DebugWarn: int := -2
  const DebugBug: int := -3
  const DebugFatal: int := -4
}
