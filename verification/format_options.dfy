/** The scripting layer's `CameraFormatOptions` (omni_camera/__init__.py:63-126):
    a list of capture modes with preference filters that narrow it without
    ever emptying it, and `resolve`, which picks the mode with the largest
    key. */
module FormatOptions {
  import opened Wrappers
  import opened CameraFormats

  /** `a` is an order-preserving sub-list of `b`. */
  predicate IsSublist<T(==)>(a: seq<T>, b: seq<T>)
    decreases |b|
  {
    a == [] || (b != [] && ((a[0] == b[0] && IsSublist(a[1..], b[1..])) || IsSublist(a, b[1..])))
  }

  lemma {:induction false} SublistReflexive<T>(s: seq<T>)
    ensures IsSublist(s, s)
    decreases |s|
  {
    if s != [] {
      SublistReflexive(s[1..]);
    }
  }

  lemma {:induction false} SublistMembers<T>(a: seq<T>, b: seq<T>)
    requires IsSublist(a, b)
    ensures forall x :: x in a ==> x in b
    decreases |b|
  {
    if a != [] {
      assert b == [b[0]] + b[1..];
      if a[0] == b[0] && IsSublist(a[1..], b[1..]) {
        SublistMembers(a[1..], b[1..]);
        assert a == [a[0]] + a[1..];
      } else {
        SublistMembers(a, b[1..]);
      }
    }
  }

  /** Chained preferences stay sub-lists of the original options. */
  lemma {:induction false} SublistTransitive<T>(a: seq<T>, b: seq<T>, c: seq<T>)
    requires IsSublist(a, b) && IsSublist(b, c)
    ensures IsSublist(a, c)
    decreases |c|
  {
    if a != [] {
      if b[0] == c[0] && IsSublist(b[1..], c[1..]) {
        if a[0] == b[0] && IsSublist(a[1..], b[1..]) {
          SublistTransitive(a[1..], b[1..], c[1..]);
        } else {
          SublistTransitive(a, b[1..], c[1..]);
        }
      } else {
        SublistTransitive(a, b, c[1..]);
      }
    }
  }

  /** Python's `filter` over a list. */
  function Filter<T(!new)>(s: seq<T>, pred: T -> bool): (r: seq<T>)
    ensures IsSublist(r, s)
    ensures forall x :: x in r ==> pred(x)
    ensures forall x :: x in s && pred(x) ==> x in r
    ensures forall x :: multiset(r)[x] == if pred(x) then multiset(s)[x] else 0
    decreases |s|
  {
    if s == [] then []
    else
      var rest := Filter(s[1..], pred);
      assert s == [s[0]] + s[1..];
      if pred(s[0]) then
        assert ([s[0]] + rest)[1..] == rest;
        [s[0]] + rest
      else
        rest
  }

  /** `prefer` (omni_camera/__init__.py:69-78): the options satisfying `pred`,
      or all of them when none does. */
  function Prefer(options: seq<CameraFormat>, pred: CameraFormat -> bool): (r: seq<CameraFormat>)
    ensures IsSublist(r, options)
    ensures options != [] ==> r != []
    ensures (exists x :: x in options && pred(x)) ==>
      (forall x :: x in r ==> pred(x)) && (forall x :: x in options && pred(x) ==> x in r)
    ensures (exists x :: x in options && pred(x)) ==>
      forall x :: multiset(r)[x] == if pred(x) then multiset(options)[x] else 0
    ensures (forall x :: x in options ==> !pred(x)) ==> r == options
  {
    var filtered := Filter(options, pred);
    if filtered == [] then
      SublistReflexive(options);
      options
    else
      SublistMembers(filtered, options);
      assert filtered[0] in filtered;
      filtered
  }

  /** The bound test of `_prefer_range`: inclusive at both ends, and a missing
      bound imposes no limit. */
  predicate InBounds(v: int, minVal: Option<int>, maxVal: Option<int>) {
    (minVal.None? || v >= minVal.value) && (maxVal.None? || v <= maxVal.value)
  }

  /** `_prefer_range` (omni_camera/__init__.py:80-81). */
  function PreferRange(options: seq<CameraFormat>, getter: CameraFormat -> int,
                       minVal: Option<int>, maxVal: Option<int>): (r: seq<CameraFormat>)
    ensures IsSublist(r, options)
    ensures options != [] ==> r != []
    ensures (exists x :: x in options && InBounds(getter(x), minVal, maxVal)) ==>
      forall x :: x in r ==> InBounds(getter(x), minVal, maxVal)
    ensures forall x :: x in options && InBounds(getter(x), minVal, maxVal) ==> x in r
    ensures (forall x :: x in options ==> !InBounds(getter(x), minVal, maxVal)) ==> r == options
  {
    Prefer(options, x => InBounds(getter(x), minVal, maxVal))
  }

  /** `prefer_fps_range` (omni_camera/__init__.py:83-87). */
  function PreferFpsRange(options: seq<CameraFormat>, minFps: Option<int>, maxFps: Option<int>): (r: seq<CameraFormat>)
    ensures IsSublist(r, options)
    ensures options != [] ==> r != []
    ensures (exists x :: x in options && InBounds(x.frameRate, minFps, maxFps)) ==>
      forall x :: x in r ==> InBounds(x.frameRate, minFps, maxFps)
    ensures forall x :: x in options && InBounds(x.frameRate, minFps, maxFps) ==> x in r
    ensures (forall x :: x in options ==> !InBounds(x.frameRate, minFps, maxFps)) ==> r == options
  {
    PreferRange(options, (x: CameraFormat) => x.frameRate, minFps, maxFps)
  }

  /** `prefer_width_range` (omni_camera/__init__.py:89-93). */
  function PreferWidthRange(options: seq<CameraFormat>, minWidth: Option<int>, maxWidth: Option<int>): (r: seq<CameraFormat>)
    ensures IsSublist(r, options)
    ensures options != [] ==> r != []
    ensures (exists x :: x in options && InBounds(x.width, minWidth, maxWidth)) ==>
      forall x :: x in r ==> InBounds(x.width, minWidth, maxWidth)
    ensures forall x :: x in options && InBounds(x.width, minWidth, maxWidth) ==> x in r
    ensures (forall x :: x in options ==> !InBounds(x.width, minWidth, maxWidth)) ==> r == options
  {
    PreferRange(options, (x: CameraFormat) => x.width, minWidth, maxWidth)
  }

  /** `prefer_height_range` (omni_camera/__init__.py:95-99). */
  function PreferHeightRange(options: seq<CameraFormat>, minHeight: Option<int>, maxHeight: Option<int>): (r: seq<CameraFormat>)
    ensures IsSublist(r, options)
    ensures options != [] ==> r != []
    ensures (exists x :: x in options && InBounds(x.height, minHeight, maxHeight)) ==>
      forall x :: x in r ==> InBounds(x.height, minHeight, maxHeight)
    ensures forall x :: x in options && InBounds(x.height, minHeight, maxHeight) ==> x in r
    ensures (forall x :: x in options ==> !InBounds(x.height, minHeight, maxHeight)) ==> r == options
  {
    PreferRange(options, (x: CameraFormat) => x.height, minHeight, maxHeight)
  }

  /** `prefer_aspect_ratio` (omni_camera/__init__.py:101-105). The source's
      floating-point test `abs(width / height - ratio) < 1e-6` is the
      parameter `matchesRatio`. */
  function PreferAspectRatio(options: seq<CameraFormat>, matchesRatio: CameraFormat -> bool): (r: seq<CameraFormat>)
    ensures IsSublist(r, options)
    ensures options != [] ==> r != []
    ensures (exists x :: x in options && matchesRatio(x)) ==> forall x :: x in r ==> matchesRatio(x)
    ensures forall x :: x in options && matchesRatio(x) ==> x in r
    ensures (forall x :: x in options ==> !matchesRatio(x)) ==> r == options
  {
    Prefer(options, matchesRatio)
  }

  /** `prefer_sides_ratio` (omni_camera/__init__.py:107-109): the deprecated
      name of `prefer_aspect_ratio`; its deprecation warning is not modelled. */
  function PreferSidesRatio(options: seq<CameraFormat>, matchesRatio: CameraFormat -> bool): (r: seq<CameraFormat>)
    ensures IsSublist(r, options)
    ensures options != [] ==> r != []
    ensures (exists x :: x in options && matchesRatio(x)) ==> forall x :: x in r ==> matchesRatio(x)
    ensures forall x :: x in options && matchesRatio(x) ==> x in r
    ensures (forall x :: x in options ==> !matchesRatio(x)) ==> r == options
  {
    PreferAspectRatio(options, matchesRatio)
  }

  /** `prefer_frame_format` (omni_camera/__init__.py:111-112): the options in
      encoding `fmt`, or all of them when none is. */
  function PreferFrameFormat(options: seq<CameraFormat>, fmt: FrameFormat): (r: seq<CameraFormat>)
    ensures IsSublist(r, options)
    ensures options != [] ==> r != []
    ensures (exists x :: x in options && x.format == fmt) ==>
      (forall x :: x in r ==> x.format == fmt) && (forall x :: x in options && x.format == fmt ==> x in r)
    ensures (forall x :: x in options ==> x.format != fmt) ==> r == options
  {
    Prefer(options, (x: CameraFormat) => x.format == fmt)
  }

  /** Python's `max(options, key=key)` as its left-to-right scan does it: a
      later element replaces the best so far only when its key is strictly
      larger, so the first maximal element is kept. */
  function MaxIndex(options: seq<CameraFormat>, key: CameraFormat -> int): (i: nat)
    requires options != []
    ensures i < |options|
    ensures forall j :: 0 <= j < |options| ==> key(options[j]) <= key(options[i])
    ensures forall j :: 0 <= j < i ==> key(options[j]) < key(options[i])
    decreases |options|
  {
    if |options| == 1 then 0
    else
      var best := MaxIndex(options[..|options| - 1], key);
      if key(options[|options| - 1]) > key(options[best]) then |options| - 1 else best
  }

  /** `max()` of an empty list raises `ValueError`. */
  datatype ResolveError = EmptyOptions

  /** `resolve` (omni_camera/__init__.py:115-119): the first option whose key
      is maximal. */
  function Resolve(options: seq<CameraFormat>, key: CameraFormat -> int): (r: Result<CameraFormat, ResolveError>)
    ensures r.Ok? <==> options != []
    ensures r.Ok? ==> r.value in options && forall x :: x in options ==> key(x) <= key(r.value)
    ensures r.Ok? ==> exists i :: (0 <= i < |options| && options[i] == r.value &&
                                   forall j :: 0 <= j < i ==> key(options[j]) < key(r.value))
  {
    if options == [] then Err(EmptyOptions)
    else
      var i := MaxIndex(options, key);
      Ok(options[i])
  }

  /** `resolve_default` (omni_camera/__init__.py:121-126): prefer 25 to 60
      frames per second, then a 4:3 aspect (`isFourThirds` stands for the
      floating-point test), then MJPEG, then take the widest. */
  function ResolveDefault(options: seq<CameraFormat>, isFourThirds: CameraFormat -> bool): (r: Result<CameraFormat, ResolveError>)
    ensures r.Ok? <==> options != []
  {
    var byFps := PreferFpsRange(options, Some(25), Some(60));
    var byRatio := PreferSidesRatio(byFps, isFourThirds);
    var byFormat := PreferFrameFormat(byRatio, MJPEG);
    Resolve(byFormat, (x: CameraFormat) => x.width)
  }

  /** The default choice is one of the options offered, it honours the
      frame-rate preference whenever some option can, and the aspect
      preference whenever some option within the frame-rate preference can. */
  lemma ResolveDefaultHonoursPreferences(options: seq<CameraFormat>, isFourThirds: CameraFormat -> bool)
    requires options != []
    ensures ResolveDefault(options, isFourThirds).value in options
    ensures (exists x :: x in options && 25 <= x.frameRate <= 60) ==>
      25 <= ResolveDefault(options, isFourThirds).value.frameRate <= 60
    ensures (exists x :: x in PreferFpsRange(options, Some(25), Some(60)) && isFourThirds(x)) ==>
      isFourThirds(ResolveDefault(options, isFourThirds).value)
  {
    var byFps := PreferFpsRange(options, Some(25), Some(60));
    var byRatio := PreferSidesRatio(byFps, isFourThirds);
    var byFormat := PreferFrameFormat(byRatio, MJPEG);
    var resolved := Resolve(byFormat, (x: CameraFormat) => x.width);
    assert ResolveDefault(options, isFourThirds) == resolved;
    var chosen := resolved.value;
    assert chosen in byFormat;
    SublistMembers(byFormat, byRatio);
    assert chosen in byRatio;
    SublistMembers(byRatio, byFps);
    assert chosen in byFps;
    SublistMembers(byFps, options);
    if exists x :: x in options && 25 <= x.frameRate <= 60 {
      var x :| x in options && 25 <= x.frameRate <= 60;
      assert InBounds(x.frameRate, Some(25), Some(60));
      assert InBounds(chosen.frameRate, Some(25), Some(60));
    }
    if exists x :: x in byFps && isFourThirds(x) {
      assert isFourThirds(chosen);
    }
  }

  /** The default choice is in MJPEG whenever some mode left by the frame-rate
      and aspect preferences is, and it is the widest of the modes left after
      all three preferences. */
  lemma ResolveDefaultPrefersMjpegThenWidest(options: seq<CameraFormat>, isFourThirds: CameraFormat -> bool)
    requires options != []
    ensures var byRatio := PreferSidesRatio(PreferFpsRange(options, Some(25), Some(60)), isFourThirds);
      (exists x :: x in byRatio && x.format == MJPEG) ==>
        ResolveDefault(options, isFourThirds).value.format == MJPEG
    ensures var byFormat := PreferFrameFormat(PreferSidesRatio(PreferFpsRange(options, Some(25), Some(60)), isFourThirds), MJPEG);
      ResolveDefault(options, isFourThirds).value in byFormat &&
      forall x :: x in byFormat ==> x.width <= ResolveDefault(options, isFourThirds).value.width
  {
    var byFps := PreferFpsRange(options, Some(25), Some(60));
    var byRatio := PreferSidesRatio(byFps, isFourThirds);
    var byFormat := PreferFrameFormat(byRatio, MJPEG);
    var resolved := Resolve(byFormat, (x: CameraFormat) => x.width);
    assert ResolveDefault(options, isFourThirds) == resolved;
    assert byFormat != [];
    assert resolved.value in byFormat;
  }

  /** Chained preferences never introduce a mode that was not offered, and
      keep the relative order of the modes they keep. */
  lemma PreferenceChainIsSublist(options: seq<CameraFormat>, isFourThirds: CameraFormat -> bool)
    ensures IsSublist(PreferFrameFormat(PreferSidesRatio(PreferFpsRange(options, Some(25), Some(60)), isFourThirds), MJPEG), options)
  {
    var byFps := PreferFpsRange(options, Some(25), Some(60));
    var byRatio := PreferSidesRatio(byFps, isFourThirds);
    var byFormat := PreferFrameFormat(byRatio, MJPEG);
    SublistTransitive(byRatio, byFps, options);
    SublistTransitive(byFormat, byRatio, options);
  }
}
