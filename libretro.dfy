/** The entities of the libretro host interface the adapter uses. */
module Libretro {

  /** retro_pixel_format */
  datatype PixelFormat = Format0RGB1555 | FormatXRGB8888 | FormatRGB565

  /** retro_log_level */
  datatype LogLevel = LogDebug | LogInfo | LogWarn | LogError

  /** RETRO_API_VERSION and RETRO_REGION_NTSC. */
  const RetroApiVersion: nat := 1
  const RegionNtsc: nat := 0

  /** The fields of retro_system_info the adapter fills in. */
  datatype SystemInfo = SystemInfo(
    libraryName: string,
    libraryVersion: string,
    blockExtract: bool,
    needFullpath: bool,
    validExtensions: seq<string>)

  /** retro_system_av_info without the aspect ratio. */
  datatype AvInfo = AvInfo(
    fps: real,
    sampleRate: real,
    baseWidth: int,
    baseHeight: int,
    maxWidth: int,
    maxHeight: int)
}
