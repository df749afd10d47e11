/** The capture-mode descriptor shared by the native selector and the
    scripting-layer preference filters. */
module CameraFormats {

  /** The pixel encodings a capture mode can use (the scripting layer's
      `FrameFormat` enumeration). */
  datatype FrameFormat = MJPEG | YUYV

  /** A capture mode: resolution, pixel encoding and frame rate. The source
      stores these as unsigned 32-bit integers; the model only compares them,
      so unbounded naturals lose nothing. */
  datatype CameraFormat = CameraFormat(width: nat, height: nat, format: FrameFormat, frameRate: nat)
}
