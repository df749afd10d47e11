/** The native capture session `CameraInternal` (src/lib.rs:69-103) and the
    frame read `Camera.poll_frame` (src/lib.rs:130-139), as a sequential
    state machine: a stop flag `active`, the capture thread's while loop, and
    the latest-frame slot it overwrites. Locks, atomics and the thread itself
    are not modelled; each step below is one indivisible action. */
module CaptureLoop {
  import opened Wrappers

  /** A decoded RGB frame: its dimensions and its pixel bytes. */
  datatype Frame = Frame(width: nat, height: nat, pixels: seq<bv8>)

  /** What one driver `frame()` call gives the loop; the loop discards the
      error itself. */
  datatype FetchResult = Fetched(frame: Frame) | FetchFailed

  /** The state shared by a session and its capture thread. `running` says
      the thread is still inside its while loop; `published` is the history
      of frames it stored in the slot. */
  datatype LoopState = LoopState(active: bool, running: bool, slot: Option<Frame>, published: seq<Frame>)

  /** The last element of a history, or None for an empty one. */
  function LastOf(frames: seq<Frame>): Option<Frame> {
    if frames == [] then None else Some(frames[|frames| - 1])
  }

  /** A freshly constructed session: flag set, thread running, slot empty
      (src/lib.rs:77-81). */
  function Initial(): LoopState {
    LoopState(true, true, None, [])
  }

  /** One pass of the capture thread's loop (src/lib.rs:86-89): it exits when
      it reads the flag cleared; otherwise it fetches, and a fetched frame
      replaces the slot wholesale while a failed fetch leaves it untouched.
      Once the thread has exited nothing happens. */
  function Iterate(st: LoopState, fetched: FetchResult): (r: LoopState)
    ensures r.active == st.active
    ensures r.running == (st.running && st.active)
    ensures !(st.running && st.active) ==> r.slot == st.slot && r.published == st.published
  {
    if !st.running then st
    else if !st.active then st.(running := false)
    else
      match fetched
      case Fetched(f) => st.(slot := Some(f), published := st.published + [f])
      case FetchFailed => st
  }

  /** Session teardown (src/lib.rs:100-102): clears the flag and nothing else. */
  function Stop(st: LoopState): (r: LoopState)
    ensures !r.active
    ensures r.running == st.running && r.slot == st.slot && r.published == st.published
  {
    st.(active := false)
  }

  /** The actions that change the shared state, in the order they happen. */
  datatype Event = Iteration(fetched: FetchResult) | Teardown

  function Apply(st: LoopState, e: Event): LoopState {
    match e
    case Iteration(f) => Iterate(st, f)
    case Teardown => Stop(st)
  }

  function Replay(st: LoopState, events: seq<Event>): LoopState
    decreases |events|
  {
    if events == [] then st else Replay(Apply(st, events[0]), events[1..])
  }

  /** Iteration events, one per driver response. */
  function Iterations(fetches: seq<FetchResult>): (events: seq<Event>)
    ensures |events| == |fetches|
    ensures forall i :: 0 <= i < |fetches| ==> events[i] == Iteration(fetches[i])
  {
    if fetches == [] then [] else [Iteration(fetches[0])] + Iterations(fetches[1..])
  }

  /** The frames successfully fetched before the first teardown: what the
      loop publishes. */
  function FramesBeforeTeardown(events: seq<Event>): seq<Frame> {
    if events == [] then []
    else
      match events[0]
      case Teardown => []
      case Iteration(FetchFailed) => FramesBeforeTeardown(events[1..])
      case Iteration(Fetched(f)) => [f] + FramesBeforeTeardown(events[1..])
  }

  /** The slot always holds the last frame published, and the thread only
      leaves its loop after the flag has been cleared. */
  ghost predicate Consistent(st: LoopState) {
    st.slot == LastOf(st.published) && (st.running || !st.active)
  }

  lemma {:induction false} ReplayConsistent(st: LoopState, events: seq<Event>)
    requires Consistent(st)
    ensures Consistent(Replay(st, events))
    decreases |events|
  {
    if events != [] {
      var next := Apply(st, events[0]);
      match events[0] {
        case Teardown =>
        case Iteration(f) =>
          if st.running && st.active && f.Fetched? {
            assert LastOf(next.published) == Some(f.frame);
          }
      }
      ReplayConsistent(next, events[1..]);
    }
  }

  lemma {:induction false} ReplayAppend(st: LoopState, a: seq<Event>, b: seq<Event>)
    ensures Replay(st, a + b) == Replay(Replay(st, a), b)
    decreases |a|
  {
    if a != [] {
      assert (a + b)[0] == a[0] && (a + b)[1..] == a[1..] + b;
      ReplayAppend(Apply(st, a[0]), a[1..], b);
    } else {
      assert a + b == b;
    }
  }

  /** The flag stays set exactly until a teardown: it is never set again. */
  lemma {:induction false} ActiveUntilTeardown(st: LoopState, events: seq<Event>)
    ensures Replay(st, events).active <==> st.active && Teardown !in events
    decreases |events|
  {
    if events != [] {
      assert events == [events[0]] + events[1..];
      ActiveUntilTeardown(Apply(st, events[0]), events[1..]);
    }
  }

  /** After teardown nothing is fetched or published any more: the slot and
      the history stay as they were, whatever the driver would return. */
  lemma {:induction false} NoPublishAfterTeardown(st: LoopState, events: seq<Event>)
    requires !st.active
    ensures Replay(st, events).published == st.published
    ensures Replay(st, events).slot == st.slot
    decreases |events|
  {
    if events != [] {
      NoPublishAfterTeardown(Apply(st, events[0]), events[1..]);
    }
  }

  /** While the flag is set, every successful fetch is published in order. */
  lemma {:induction false} ReplayPublishes(st: LoopState, events: seq<Event>)
    requires st.active && st.running
    ensures Replay(st, events).published == st.published + FramesBeforeTeardown(events)
    decreases |events|
  {
    if events != [] {
      var next := Apply(st, events[0]);
      match events[0]
      case Teardown =>
        NoPublishAfterTeardown(next, events[1..]);
      case Iteration(f) =>
        ReplayPublishes(next, events[1..]);
        if f.Fetched? {
          assert st.published + FramesBeforeTeardown(events)
              == (st.published + [f.frame]) + FramesBeforeTeardown(events[1..]);
        }
    }
  }

  /** What a reader sees: nothing until the first successful fetch, and from
      then on the frame most recently fetched before teardown. */
  lemma SlotIsLatestFetch(events: seq<Event>)
    ensures Replay(Initial(), events).slot == LastOf(FramesBeforeTeardown(events))
    ensures Replay(Initial(), events).slot.None? <==> FramesBeforeTeardown(events) == []
  {
    ReplayConsistent(Initial(), events);
    ReplayPublishes(Initial(), events);
  }

  /** A failed fetch never changes what readers see, however many in a row. */
  lemma {:induction false} FailedFetchesKeepSlot(st: LoopState, n: nat)
    ensures Replay(st, Iterations(seq(n, _ => FetchFailed))).slot == st.slot
    ensures Replay(st, Iterations(seq(n, _ => FetchFailed))).published == st.published
    ensures st.running && st.active ==> Replay(st, Iterations(seq(n, _ => FetchFailed))).running
    decreases n
  {
    if n > 0 {
      var fails := seq(n, _ => FetchFailed);
      assert Iterations(fails)[1..] == Iterations(fails[1..]);
      assert fails[1..] == seq(n - 1, _ => FetchFailed);
      FailedFetchesKeepSlot(Iterate(st, FetchFailed), n - 1);
    }
  }

  /** Teardown stops the loop within one more iteration. */
  lemma ShutdownWithinOneIteration(st: LoopState, events: seq<Event>, fetched: FetchResult)
    requires Teardown in events
    ensures !Replay(st, events + [Iteration(fetched)]).running
  {
    ReplayAppend(st, events, [Iteration(fetched)]);
    ActiveUntilTeardown(st, events);
  }

  /** Replaying one more driver response is one more iteration. */
  lemma ReplayPrefixStep(st: LoopState, fetches: seq<FetchResult>, i: nat)
    requires i < |fetches|
    ensures Replay(st, Iterations(fetches[..i + 1]))
         == Iterate(Replay(st, Iterations(fetches[..i])), fetches[i])
  {
    ReplayAppend(st, Iterations(fetches[..i]), [Iteration(fetches[i])]);
    assert Iterations(fetches[..i + 1]) == Iterations(fetches[..i]) + [Iteration(fetches[i])];
  }

  /** Once the loop has stopped after a prefix, the rest of the responses
      change nothing. */
  lemma ReplayIdleSuffix(st: LoopState, fetches: seq<FetchResult>, i: nat)
    requires i <= |fetches|
    requires i < |fetches| ==> !Replay(st, Iterations(fetches[..i])).running
    ensures Replay(st, Iterations(fetches)) == Replay(st, Iterations(fetches[..i]))
  {
    var prefix := Iterations(fetches[..i]);
    var rest := Iterations(fetches[i..]);
    if i < |fetches| {
      IdleReplay(Replay(st, prefix), rest);
    } else {
      assert rest == [];
    }
    ReplayAppend(st, prefix, rest);
    assert Iterations(fetches) == prefix + rest;
  }

  /** The session object: the flag, the capture thread's loop state and the
      latest-frame slot it shares with readers. */
  class CameraInternal {
    var active: bool
    var running: bool
    var lastFrame: Option<Frame>
    ghost var published: seq<Frame>

    ghost function State(): LoopState
      reads this
    {
      LoopState(active, running, lastFrame, published)
    }

    ghost predicate Valid()
      reads this
    {
      Consistent(State())
    }

    /** `CameraInternal::new` (src/lib.rs:76-93): flag set, slot empty, and
        the capture thread started. */
    constructor ()
      ensures State() == Initial() && Valid()
    {
      active := true;
      running := true;
      lastFrame := None;
      published := [];
    }

    /** One pass of the capture thread's while loop; `fetched` is what the
        driver's `frame()` would return. */
    method LoopIteration(fetched: FetchResult)
      requires Valid()
      modifies this
      ensures State() == Iterate(old(State()), fetched)
      ensures Valid()
    {
      if running {
        if !active {
          running := false;
        } else if fetched.Fetched? {
          lastFrame := Some(fetched.frame);
          published := published + [fetched.frame];
        }
      }
    }

    /** The capture thread's while loop (src/lib.rs:86-90), run against a
        sequence of driver responses with no other action in between. */
    method RunLoop(fetches: seq<FetchResult>)
      requires Valid()
      modifies this
      ensures State() == Replay(old(State()), Iterations(fetches))
      ensures Valid()
    {
      var i := 0;
      while running && i < |fetches|
        invariant 0 <= i <= |fetches|
        invariant Valid()
        invariant State() == Replay(old(State()), Iterations(fetches[..i]))
      {
        ReplayPrefixStep(old(State()), fetches, i);
        LoopIteration(fetches[i]);
        i := i + 1;
      }
      ReplayIdleSuffix(old(State()), fetches, i);
    }

    /** `Drop for CameraInternal` (src/lib.rs:99-103): clears the flag. */
    method Drop()
      requires Valid()
      modifies this`active
      ensures State() == Stop(old(State()))
      ensures Valid()
    {
      active := false;
    }

    /** `last_frame` (src/lib.rs:94-96): a snapshot of the slot, which is the
        frame most recently published. */
    method LastFrame() returns (f: Option<Frame>)
      requires Valid()
      ensures f == LastOf(published)
    {
      f := lastFrame;
    }
  }

  /** Once the thread has left its loop, further driver responses change
      nothing. */
  lemma {:induction false} IdleReplay(st: LoopState, events: seq<Event>)
    requires !st.running
    requires forall e :: e in events ==> e.Iteration?
    ensures Replay(st, events) == st
    decreases |events|
  {
    if events != [] {
      assert events[0] in events;
      assert forall e :: e in events[1..] ==> e in events;
      IdleReplay(st, events[1..]);
    }
  }

  /** `Camera.poll_frame` (src/lib.rs:130-139): the width, height and bytes of
      the frame most recently published, or None when none has been. */
  method PollFrame(cam: CameraInternal) returns (r: Option<(nat, nat, seq<bv8>)>)
    requires cam.Valid()
    ensures r.None? <==> cam.published == []
    ensures r.Some? ==> var f := cam.published[|cam.published| - 1];
      r.value == (f.width, f.height, f.pixels)
  {
    var f := cam.LastFrame();
    match f
    case None => r := None;
    case Some(frame) => r := Some((frame.width, frame.height, frame.pixels));
  }
}
