/** The scripting layer's `Camera` (omni_camera/__init__.py:164-207): a
    wrapper around a native camera object that selects a capture mode and
    opens the native object exactly once, either explicitly or on the first
    frame poll. The native object's `get_formats`, `open`, `check_err` and
    `poll_frame` are parameters. */
module OmniCamera {
  import opened Wrappers
  import opened CameraFormats
  import FormatOptions

  datatype CameraError =
    | AlreadyOpen               // RuntimeError("Can only open once")
    | NoFormats                 // `resolve_default` on an empty option list: `max` raises
    | BackendOpenFailed         // the native `open` raised
    | Latched(message: string)  // the native `check_err` raised a latched error

  /** What a frame poll hands back: width, height and RGB bytes. */
  datatype RawFrame = RawFrame(width: nat, height: nat, pixels: seq<bv8>)

  class Camera {
    /** What the native `get_formats` reports. */
    const formats: seq<CameraFormat>
    /** The floating-point 4:3 test of `prefer_sides_ratio(4/3)`. */
    const isFourThirds: CameraFormat -> bool
    /** `_initialized`. */
    var initialized: bool
    /** The modes the native object has been opened with. */
    ghost var openedWith: seq<CameraFormat>

    /** The native object is opened at most once, and `_initialized` says
        whether it has been. */
    ghost predicate Valid()
      reads this
    {
      |openedWith| <= 1 && (initialized <==> |openedWith| == 1)
    }

    /** `__init__` (omni_camera/__init__.py:165-172). The suggested frame rate
        is accepted and, as in the source, not used. */
    constructor (formats: seq<CameraFormat>, isFourThirds: CameraFormat -> bool, suggestedFps: nat)
      ensures Valid()
      ensures this.formats == formats && this.isFourThirds == isFourThirds
      ensures !initialized && openedWith == []
    {
      this.formats := formats;
      this.isFourThirds := isFourThirds;
      initialized := false;
      openedWith := [];
    }

    /** `open` (omni_camera/__init__.py:187-197): refuses a second opening;
        otherwise opens the native object with `fmt`, or with the default
        choice among the reported formats when `fmt` is None, and records
        the camera as initialized once the native call has returned.
        `backendAccepts` says whether the native `open` returns normally. */
    method Open(fmt: Option<CameraFormat>, backendAccepts: bool) returns (r: Result<(), CameraError>)
      requires Valid()
      modifies this`initialized, this`openedWith
      ensures Valid()
      ensures old(initialized) ==> r == Err(AlreadyOpen) && initialized && openedWith == old(openedWith)
      ensures !old(initialized) && fmt.None? && formats == [] ==>
        r == Err(NoFormats) && !initialized && openedWith == []
      ensures !old(initialized) && (fmt.Some? || formats != []) ==>
        var chosen := if fmt.Some? then fmt.value else FormatOptions.ResolveDefault(formats, isFourThirds).value;
        if backendAccepts then r == Ok(()) && initialized && openedWith == [chosen]
        else r == Err(BackendOpenFailed) && !initialized && openedWith == []
    {
      if initialized {
        return Err(AlreadyOpen);
      }
      var chosen: CameraFormat;
      if fmt.Some? {
        chosen := fmt.value;
      } else {
        var resolved := FormatOptions.ResolveDefault(formats, isFourThirds);
        if resolved.Err? {
          return Err(NoFormats);
        }
        chosen := resolved.value;
      }
      if !backendAccepts {
        return Err(BackendOpenFailed);
      }
      openedWith := openedWith + [chosen];
      initialized := true;
      r := Ok(());
    }

    /** `poll_frame_raw` (omni_camera/__init__.py:199-207): opens with the
        default choice when not yet initialized, then surfaces a latched
        error, then returns what the native poll returns. `latched` is the
        error the native `check_err` raises, if any, and `polled` the native
        `poll_frame` result. */
    method PollFrameRaw(backendAccepts: bool, latched: Option<string>, polled: Option<RawFrame>)
      returns (r: Result<Option<RawFrame>, CameraError>)
      requires Valid()
      modifies this`initialized, this`openedWith
      ensures Valid()
      ensures old(initialized) ==> initialized && openedWith == old(openedWith)
      ensures old(initialized) || (formats != [] && backendAccepts) ==>
        r == (if latched.Some? then Err(Latched(latched.value)) else Ok(polled))
      ensures !old(initialized) && formats == [] ==> r == Err(NoFormats) && !initialized
      ensures !old(initialized) && formats != [] && !backendAccepts ==>
        r == Err(BackendOpenFailed) && !initialized
      ensures !old(initialized) && formats != [] && backendAccepts ==>
        initialized && openedWith == [FormatOptions.ResolveDefault(formats, isFourThirds).value]
      ensures r.Ok? ==> initialized && latched.None? && r.value == polled
    {
      if !initialized {
        var opening := Open(None, backendAccepts);
        if opening.Err? {
          return Err(opening.error);
        }
      }
      if latched.Some? {
        return Err(Latched(latched.value));
      }
      r := Ok(polled);
    }
  }
}
