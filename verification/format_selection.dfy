/** The native capture-mode selector `get_compatible_format`
    (src/lib.rs:31-63): one candidate per resolution carrying that
    resolution's highest frame rate, folded left to right with a pairwise
    rule, falling back to the camera's current format when there are no
    candidates. The driver calls it makes are parameters. */
module FormatSelection {
  import opened Wrappers
  import opened CameraFormats

  /** One entry of the driver's per-resolution listing for an encoding: a
      resolution and the frame rates offered at it. The listing is a hash
      map in the source, so its order is arbitrary and its resolutions are
      distinct. */
  datatype ResolutionRates = ResolutionRates(width: nat, height: nat, rates: seq<nat>)

  datatype SelectError =
    | DriverError(message: string)  // a driver query failed and `?` returned its error
    | NoCompatibleFourcc            // `fourcc_s[0]` on an empty list: a panic in the source

  function Min(a: nat, b: nat): nat {
    if a <= b then a else b
  }

  /** The largest frame rate of a list, or None for an empty list. */
  function MaxRate(rates: seq<nat>): (m: Option<nat>)
    ensures m.None? <==> rates == []
    ensures m.Some? ==> m.value in rates && forall x :: x in rates ==> x <= m.value
  {
    if rates == [] then None
    else
      assert rates == [rates[0]] + rates[1..];
      match MaxRate(rates[1..])
      case None => Some(rates[0])
      case Some(rest) => Some(if rates[0] > rest then rates[0] else rest)
  }

  /** The candidate a listing entry contributes: its resolution with its
      highest frame rate, or none when it offers no frame rate. */
  function Candidate(fourcc: FrameFormat, entry: ResolutionRates): (c: Option<CameraFormat>)
    ensures c.None? <==> entry.rates == []
    ensures c.Some? ==> c.value.width == entry.width && c.value.height == entry.height
    ensures c.Some? ==> c.value.format == fourcc
    ensures c.Some? ==> c.value.frameRate in entry.rates
    ensures c.Some? ==> forall x :: x in entry.rates ==> x <= c.value.frameRate
  {
    match MaxRate(entry.rates)
    case None => None
    case Some(fps) => Some(CameraFormat(entry.width, entry.height, fourcc, fps))
  }

  /** The `filter_map` over the listing. */
  function Candidates(fourcc: FrameFormat, listing: seq<ResolutionRates>): (cs: seq<CameraFormat>)
    ensures |cs| <= |listing|
    ensures forall c :: c in cs ==> c.format == fourcc
  {
    if listing == [] then []
    else
      var rest := Candidates(fourcc, listing[1..]);
      match Candidate(fourcc, listing[0])
      case None => rest
      case Some(c) => [c] + rest
  }

  /** Every candidate comes from some entry of the listing. */
  lemma {:induction false} CandidatesSound(fourcc: FrameFormat, listing: seq<ResolutionRates>, c: CameraFormat)
    requires c in Candidates(fourcc, listing)
    ensures exists i :: 0 <= i < |listing| && Candidate(fourcc, listing[i]) == Some(c)
  {
    if listing != [] {
      if Candidate(fourcc, listing[0]) == Some(c) {
        assert Candidate(fourcc, listing[0]) == Some(c);
      } else {
        CandidatesSound(fourcc, listing[1..], c);
        var i :| 0 <= i < |listing[1..]| && Candidate(fourcc, listing[1..][i]) == Some(c);
        assert listing[1..][i] == listing[i + 1];
      }
    }
  }

  /** Every entry offering at least one frame rate contributes its candidate. */
  lemma {:induction false} CandidatesComplete(fourcc: FrameFormat, listing: seq<ResolutionRates>, i: nat)
    requires i < |listing| && listing[i].rates != []
    ensures Candidate(fourcc, listing[i]).Some?
    ensures Candidate(fourcc, listing[i]).value in Candidates(fourcc, listing)
  {
    if i > 0 {
      assert listing[1..][i - 1] == listing[i];
      CandidatesComplete(fourcc, listing[1..], i - 1);
    }
  }

  ghost predicate DistinctResolutions(listing: seq<ResolutionRates>) {
    forall i, j :: 0 <= i < j < |listing| ==>
      (listing[i].width, listing[i].height) != (listing[j].width, listing[j].height)
  }

  ghost predicate DistinctFormatResolutions(cs: seq<CameraFormat>) {
    forall i, j :: 0 <= i < j < |cs| ==> (cs[i].width, cs[i].height) != (cs[j].width, cs[j].height)
  }

  /** Each resolution yields at most one candidate. */
  lemma {:induction false} CandidatesOnePerResolution(fourcc: FrameFormat, listing: seq<ResolutionRates>)
    requires DistinctResolutions(listing)
    ensures DistinctFormatResolutions(Candidates(fourcc, listing))
  {
    if listing != [] {
      var tail := listing[1..];
      assert DistinctResolutions(tail) by {
        forall i, j | 0 <= i < j < |tail|
          ensures (tail[i].width, tail[i].height) != (tail[j].width, tail[j].height)
        {
          assert tail[i] == listing[i + 1] && tail[j] == listing[j + 1];
        }
      }
      CandidatesOnePerResolution(fourcc, tail);
      var rest := Candidates(fourcc, tail);
      match Candidate(fourcc, listing[0])
      case None =>
        assert Candidates(fourcc, listing) == rest;
      case Some(c) =>
        var cs := [c] + rest;
        assert Candidates(fourcc, listing) == cs;
        forall j | 0 < j < |cs|
          ensures (c.width, c.height) != (cs[j].width, cs[j].height)
        {
          assert cs[j] in rest;
          CandidatesSound(fourcc, tail, cs[j]);
          var k :| 0 <= k < |tail| && Candidate(fourcc, tail[k]) == Some(cs[j]);
          assert tail[k] == listing[k + 1];
        }
        forall i, j | 0 <= i < j < |cs|
          ensures (cs[i].width, cs[i].height) != (cs[j].width, cs[j].height)
        {
          if i > 0 {
            assert cs[i] == rest[i - 1] && cs[j] == rest[j - 1];
          } else {
            assert cs[i] == c;
          }
        }
    }
  }

  /** The frame rate reaches the caller's suggested minimum. */
  predicate MeetsBar(c: CameraFormat, suggestedFps: nat) {
    c.frameRate >= suggestedFps
  }

  /** The pairwise rule of the `reduce` (src/lib.rs:41-54): when both
      candidates reach the bar the wider one wins, otherwise the faster one;
      the accumulator survives only when strictly better, so on a tie the
      later candidate wins. */
  function Choose(acc: CameraFormat, cur: CameraFormat, suggestedFps: nat): (r: CameraFormat)
    ensures r == acc || r == cur
    ensures MeetsBar(acc, suggestedFps) && MeetsBar(cur, suggestedFps) ==>
      r.width == (if acc.width > cur.width then acc.width else cur.width)
    ensures !(MeetsBar(acc, suggestedFps) && MeetsBar(cur, suggestedFps)) ==>
      r.frameRate == (if acc.frameRate > cur.frameRate then acc.frameRate else cur.frameRate)
    ensures MeetsBar(acc, suggestedFps) && MeetsBar(cur, suggestedFps) && acc.width == cur.width ==> r == cur
    ensures !(MeetsBar(acc, suggestedFps) && MeetsBar(cur, suggestedFps)) && acc.frameRate == cur.frameRate ==> r == cur
  {
    var enoughFps := Min(acc.frameRate, cur.frameRate) >= suggestedFps;
    var keepAcc := if enoughFps then acc.width > cur.width else acc.frameRate > cur.frameRate;
    if keepAcc then acc else cur
  }

  /** The left fold of `Choose`, starting from an accumulator. */
  function Fold(acc: CameraFormat, rest: seq<CameraFormat>, suggestedFps: nat): (r: CameraFormat)
    ensures r == acc || r in rest
    decreases |rest|
  {
    if rest == [] then acc
    else Fold(Choose(acc, rest[0], suggestedFps), rest[1..], suggestedFps)
  }

  /** Rust's `Iterator::reduce`: the first element seeds the fold, and an
      empty sequence gives nothing. */
  function Reduce(cs: seq<CameraFormat>, suggestedFps: nat): (r: Option<CameraFormat>)
    ensures r.None? <==> cs == []
    ensures r.Some? ==> r.value in cs
  {
    if cs == [] then None else Some(Fold(cs[0], cs[1..], suggestedFps))
  }

  /** The whole selector. `fourccs` is what the driver reports as compatible
      encodings, `listFor` its per-resolution listing for an encoding, and
      `current` the camera's active format. */
  function GetCompatibleFormat(
    fourccs: Result<seq<FrameFormat>, string>,
    listFor: FrameFormat -> Result<seq<ResolutionRates>, string>,
    current: CameraFormat,
    suggestedFps: nat): (r: Result<CameraFormat, SelectError>)
    ensures fourccs.Err? ==> r == Err(DriverError(fourccs.error))
    ensures fourccs.Ok? && fourccs.value == [] ==> r == Err(NoCompatibleFourcc)
    ensures fourccs.Ok? && fourccs.value != [] && listFor(fourccs.value[0]).Err? ==>
      r == Err(DriverError(listFor(fourccs.value[0]).error))
    ensures r.Ok? ==> fourccs.Ok? && fourccs.value != [] && listFor(fourccs.value[0]).Ok?
    ensures r.Ok? ==>
      var cs := Candidates(fourccs.value[0], listFor(fourccs.value[0]).value);
      (cs == [] ==> r.value == current) && (cs != [] ==> r.value in cs) &&
      (cs != [] ==> r.value == Reduce(cs, suggestedFps).value)
  {
    match fourccs
    case Err(e) => Err(DriverError(e))
    case Ok(fourccList) =>
      if fourccList == [] then Err(NoCompatibleFourcc)
      else
        match listFor(fourccList[0])
        case Err(e) => Err(DriverError(e))
        case Ok(listing) =>
          match Reduce(Candidates(fourccList[0], listing), suggestedFps)
          case Some(format) => Ok(format)
          case None => Ok(current)
  }

  /** Some candidate reaches the bar. */
  predicate SomeMeetsBar(cs: seq<CameraFormat>, suggestedFps: nat) {
    exists c :: c in cs && MeetsBar(c, suggestedFps)
  }

  /** `r` reaches the bar and is at least as wide as every candidate that does. */
  predicate WidestMeetingBar(r: CameraFormat, cs: seq<CameraFormat>, suggestedFps: nat) {
    MeetsBar(r, suggestedFps) &&
    forall c :: c in cs && MeetsBar(c, suggestedFps) ==> c.width <= r.width
  }

  /** `r` is at least as fast as every candidate. */
  predicate Fastest(r: CameraFormat, cs: seq<CameraFormat>) {
    forall c :: c in cs ==> c.frameRate <= r.frameRate
  }

  /** One application of the rule never loses the bar, and keeps the wider of
      two candidates reaching it, or the faster of two that do not. */
  lemma ChooseKeepsBest(acc: CameraFormat, cur: CameraFormat, suggestedFps: nat)
    ensures var r := Choose(acc, cur, suggestedFps);
      (MeetsBar(acc, suggestedFps) || MeetsBar(cur, suggestedFps)) ==>
        WidestMeetingBar(r, [acc, cur], suggestedFps)
    ensures var r := Choose(acc, cur, suggestedFps);
      (!MeetsBar(acc, suggestedFps) && !MeetsBar(cur, suggestedFps)) ==>
        Fastest(r, [acc, cur])
  {
  }

  /** The fold returns the widest candidate reaching the bar when one does,
      and the fastest candidate otherwise. */
  lemma {:induction false} FoldOptimal(acc: CameraFormat, rest: seq<CameraFormat>, suggestedFps: nat)
    decreases |rest|
    ensures var all, r := [acc] + rest, Fold(acc, rest, suggestedFps);
      (SomeMeetsBar(all, suggestedFps) ==> WidestMeetingBar(r, all, suggestedFps)) &&
      (!SomeMeetsBar(all, suggestedFps) ==> Fastest(r, all))
  {
    var all, r := [acc] + rest, Fold(acc, rest, suggestedFps);
    if rest == [] {
      assert all == [acc];
    } else {
      var next := Choose(acc, rest[0], suggestedFps);
      var all' := [next] + rest[1..];
      FoldOptimal(next, rest[1..], suggestedFps);
      assert r == Fold(next, rest[1..], suggestedFps);
      ChooseKeepsBest(acc, rest[0], suggestedFps);
      assert forall c :: c in all <==> c == acc || c == rest[0] || c in rest[1..] by {
        assert rest == [rest[0]] + rest[1..];
      }
      if SomeMeetsBar(all, suggestedFps) {
        var m :| m in all && MeetsBar(m, suggestedFps);
        if m == acc || m == rest[0] {
          assert next in all' && MeetsBar(next, suggestedFps);
        } else {
          assert m in all';
        }
        assert WidestMeetingBar(r, all', suggestedFps);
        forall c | c in all && MeetsBar(c, suggestedFps)
          ensures c.width <= r.width
        {
          if c == acc || c == rest[0] {
            assert c.width <= next.width;
            assert next in all';
          } else {
            assert c in all';
          }
        }
      } else {
        assert !SomeMeetsBar(all', suggestedFps);
        assert Fastest(r, all');
        assert next in all';
      }
    }
  }

  /** The selection over a non-empty candidate list is the widest candidate
      reaching the bar when some candidate does, and the fastest otherwise. */
  lemma ReduceOptimal(cs: seq<CameraFormat>, suggestedFps: nat)
    requires cs != []
    ensures SomeMeetsBar(cs, suggestedFps) ==> WidestMeetingBar(Reduce(cs, suggestedFps).value, cs, suggestedFps)
    ensures !SomeMeetsBar(cs, suggestedFps) ==> Fastest(Reduce(cs, suggestedFps).value, cs)
  {
    assert cs == [cs[0]] + cs[1..];
    FoldOptimal(cs[0], cs[1..], suggestedFps);
  }

  /** When every candidate reaches the bar, the result has maximal width. */
  lemma ReduceWidestWhenAllMeetBar(cs: seq<CameraFormat>, suggestedFps: nat)
    requires cs != []
    requires forall c :: c in cs ==> MeetsBar(c, suggestedFps)
    ensures forall c :: c in cs ==> c.width <= Reduce(cs, suggestedFps).value.width
  {
    assert MeetsBar(cs[0], suggestedFps);
    ReduceOptimal(cs, suggestedFps);
  }

  /** When no candidate reaches the bar, the result has maximal frame rate. */
  lemma ReduceFastestWhenNoneMeetsBar(cs: seq<CameraFormat>, suggestedFps: nat)
    requires cs != []
    requires forall c :: c in cs ==> !MeetsBar(c, suggestedFps)
    ensures forall c :: c in cs ==> c.frameRate <= Reduce(cs, suggestedFps).value.frameRate
  {
    ReduceOptimal(cs, suggestedFps);
  }

  /** Three selections by the rule of src/lib.rs:42-53: a faster mode beats
      a wider one below the bar, a wider one wins when both reach it, and with
      equal widths above the bar the later candidate is kept. */
  lemma ReduceExamples()
    ensures Reduce([CameraFormat(640, 480, MJPEG, 30), CameraFormat(1280, 720, MJPEG, 10)], 20)
      == Some(CameraFormat(640, 480, MJPEG, 30))
    ensures Reduce([CameraFormat(640, 480, MJPEG, 30), CameraFormat(1280, 720, MJPEG, 30)], 20)
      == Some(CameraFormat(1280, 720, MJPEG, 30))
    ensures Reduce([CameraFormat(640, 480, MJPEG, 30), CameraFormat(640, 360, MJPEG, 30)], 20)
      == Some(CameraFormat(640, 360, MJPEG, 30))
  {
  }
}
