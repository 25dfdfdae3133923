/**
 * Everything the adapter does outside its own state, in the order it does it:
 * calls of the host's callbacks and the release calls into gfxprim and libc.
 */
module Effects {
  import opened Libretro

  datatype Effect =
    // input_poll_cb()
    | InputPoll
    // input_state_cb(0, RETRO_DEVICE_MOUSE, 0, RETRO_DEVICE_ID_MOUSE_LEFT)
    | InputStateMouseLeft
    // environ_cb(RETRO_ENVIRONMENT_SHUTDOWN, 0)
    | EnvShutdown
    // environ_cb(RETRO_ENVIRONMENT_SET_PIXEL_FORMAT, &format)
    | EnvSetPixelFormat(format: PixelFormat)
    // environ_cb(RETRO_ENVIRONMENT_GET_VARIABLE_UPDATE, &updated)
    | EnvGetVariableUpdate
    // environ_cb(RETRO_ENVIRONMENT_SET_SUPPORT_NO_GAME, &noContent)
    | EnvSetSupportNoGame(noContent: bool)
    // environ_cb(RETRO_ENVIRONMENT_GET_LOG_INTERFACE, &logging)
    | EnvGetLogInterface
    // environ_cb(RETRO_ENVIRONMENT_SET_FRAME_TIME_CALLBACK, &callback)
    | EnvSetFrameTimeCallback
    // video_cb(pixels, width, height, pitch)
    | VideoRefresh(width: int, height: int, pitch: int)
    // audio_cb(left, right)
    | AudioSample(left: int, right: int)
    // log_cb(level, fmt, args...)
    | Log(level: LogLevel, fmt: string, args: seq<int>)
    // gp_pixmap_free(backend->pixmap)
    | PixmapFree
    // free(backend->timers)
    | TimersFree
    // free(backend->clipboard_data)
    | ClipboardFree
}
