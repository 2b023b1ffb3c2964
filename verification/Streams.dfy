/** Whole runs of the three receivers over one stream. */
module Streams {
  import opened Bytes
  import opened Framing

  /** What a connection has not delivered yet: bytes of a frame in progress, then bytes still in the socket. */
  datatype Rx = Rx(partial: seq<byte>, input: seq<byte>) {
    function Stream(): seq<byte> { partial + input }

    /** No more bytes to come, and no whole frame waiting. */
    predicate Drained() { input == [] && !HasFrame(partial) }
  }

  /** Blocking stands for cifs_recv and cifs_recv_raw, Polling for one call of cifs_recv_async. */
  datatype Call = Blocking | Polling

  datatype Event = Event(call: Call, taken: seq<seq<byte>>, after: Rx)

  /** One call of the polling receiver, on the stream not delivered yet: nothing happens to it, or a whole
      frame comes off the front, and only a non-empty message is handed to the caller. */
  predicate AsyncStep(v: seq<byte>, w: seq<byte>, out: seq<seq<byte>>) {
    if out == [] then
      w == v || (HasFrame(v) && w == AfterFrame(v) && (v[0] != 0 || |FirstFrame(v)| == 4))
    else
      |out| == 1 && IsMessage(out[0]) && |out[0]| > 4 && v == out[0] + w
  }

  /** The same call byte by byte: it reads some of the input behind the part it has, and succeeds exactly when
      that completes a non-empty message. A frame that is complete is done with either way. */
  predicate PollStep(s: Rx, t: Rx, out: seq<seq<byte>>) {
    |t.input| <= |s.input| && t.input == s.input[|s.input| - |t.input|..] &&
    var got := s.partial + s.input[..|s.input| - |t.input|];
    && t.partial == (if IsFrame(got) then [] else got)
    && out == (if IsMessage(got) && |got| > 4 then [got] else [])
  }

  /** A blocking call reads from the socket, whatever a polling call may have left half-read. */
  predicate SyncStep(s: Rx, t: Rx, f: seq<byte>) {
    NextMessage(s.input) == Message(f, t.input) && (s.partial == [] ==> t.partial == [])
  }

  predicate Occurs(s: Rx, ev: Event) {
    match ev.call
    case Blocking => |ev.taken| == 1 && SyncStep(s, ev.after, ev.taken[0])
    case Polling => AsyncStep(s.Stream(), ev.after.Stream(), ev.taken)
  }

  /** A run in which blocking calls are made only between frames. */
  predicate Happens(s: Rx, evs: seq<Event>)
    decreases |evs|
  {
    evs == [] ||
    (Occurs(s, evs[0]) && (evs[0].call.Blocking? ==> s.partial == []) && Happens(evs[0].after, evs[1..]))
  }

  function Final(s: Rx, evs: seq<Event>): Rx
    decreases |evs|
  {
    if evs == [] then s else Final(evs[0].after, evs[1..])
  }

  function Taken(evs: seq<Event>): seq<seq<byte>> {
    if evs == [] then [] else evs[0].taken + Taken(evs[1..])
  }

  /** A frame of another type, or an empty message, came off the front. */
  lemma {:induction false} DroppedFrame(v: seq<byte>, w: seq<byte>)
    requires HasFrame(v) && w == AfterFrame(v) && (v[0] != 0 || |FirstFrame(v)| == 4)
    ensures OnBoundary(v, w) && NonEmpty(Messages(v)) == NonEmpty(Messages(w))
  {
    assert OnBoundary(w, w);
    if v[0] == 0 {
      assert Messages(v) == [FirstFrame(v)] + Messages(w);
    } else {
      assert NextMessage(v) == NextMessage(w);
    }
  }

  /** A message came off the front. */
  lemma {:induction false} DeliveredFrame(f: seq<byte>, w: seq<byte>)
    requires IsMessage(f) && |f| > 4
    ensures OnBoundary(f + w, w) && NonEmpty(Messages(f + w)) == [f] + NonEmpty(Messages(w))
  {
    FrameSplits(f, w);
    assert OnBoundary(w, w);
    assert Messages(f + w) == [f] + Messages(w);
  }

  lemma {:induction false} AsyncStepKeepsMessages(v: seq<byte>, w: seq<byte>, out: seq<seq<byte>>)
    requires AsyncStep(v, w, out)
    ensures OnBoundary(v, w)
    ensures NonEmpty(Messages(v)) == out + NonEmpty(Messages(w))
    ensures NonEmpty(out) == out
  {
    if out != [] {
      DeliveredFrame(out[0], w);
    } else if w != v {
      DroppedFrame(v, w);
    }
  }

  /** A call that took `n` bytes. */
  lemma {:induction false} PollTook(s: Rx, t: Rx, n: nat, got: seq<byte>, out: seq<seq<byte>>)
    requires n <= |s.input| && t.input == s.input[n..] && got == s.partial + s.input[..n]
    requires t.partial == (if IsFrame(got) then [] else got)
    requires out == (if IsMessage(got) && |got| > 4 then [got] else [])
    ensures PollStep(s, t, out)
  {
  }

  lemma {:induction false} FrameStep(got: seq<byte>, rest: seq<byte>)
    requires IsFrame(got)
    ensures AsyncStep(got + rest, rest, if IsMessage(got) && |got| > 4 then [got] else [])
  {
    FrameSplits(got, rest);
  }

  /** The account by bytes gives the account by frames. */
  lemma {:induction false} PollStepIsAsyncStep(s: Rx, t: Rx, out: seq<seq<byte>>)
    requires PollStep(s, t, out)
    ensures AsyncStep(s.Stream(), t.Stream(), out)
  {
    var n := |s.input| - |t.input|;
    var got := s.partial + s.input[..n];
    hide IsFrame;
    assert s.Stream() == got + t.input;
    if IsFrame(got) {
      FrameStep(got, t.input);
      assert t.Stream() == t.input;
    }
  }

  lemma {:induction false} DrainedHasNoMessages(s: Rx)
    requires s.Drained()
    ensures Messages(s.Stream()) == []
  {
    assert s.partial + [] == s.partial;
  }

  lemma {:induction false} EventKeepsMessages(s: Rx, ev: Event)
    requires Occurs(s, ev) && (ev.call.Blocking? ==> s.partial == [])
    ensures OnBoundary(s.Stream(), ev.after.Stream())
    ensures NonEmpty(Messages(s.Stream())) == NonEmpty(ev.taken) + NonEmpty(Messages(ev.after.Stream()))
  {
    match ev.call
    case Blocking =>
      assert s.Stream() == s.input && ev.after.Stream() == ev.after.input;
      NextMessageOnBoundary(s.input);
      assert Messages(s.input) == ev.taken + Messages(ev.after.input);
      NonEmptyAppend(ev.taken, Messages(ev.after.input));
    case Polling =>
      AsyncStepKeepsMessages(s.Stream(), ev.after.Stream(), ev.taken);
  }

  /** Over every run the stream stays on a frame boundary, and no message is lost, repeated or reordered:
      the messages taken, then those still to come, are the messages there were (empty ones, which the
      polling receiver drops, aside). */
  lemma {:induction false} RunKeepsMessages(s: Rx, evs: seq<Event>)
    requires Happens(s, evs)
    ensures OnBoundary(s.Stream(), Final(s, evs).Stream())
    ensures NonEmpty(Messages(s.Stream())) == NonEmpty(Taken(evs)) + NonEmpty(Messages(Final(s, evs).Stream()))
    decreases |evs|
  {
    if evs == [] {
    } else {
      var ev, later := evs[0], evs[1..];
      var v, w, z := s.Stream(), ev.after.Stream(), Final(ev.after, later).Stream();
      EventKeepsMessages(s, ev);
      RunKeepsMessages(ev.after, later);
      OnBoundaryTransitive(v, w, z);
      NonEmptyAppend(ev.taken, Taken(later));
      Regroup(NonEmpty(ev.taken), NonEmpty(Taken(later)), NonEmpty(Messages(z)));
    }
  }

  /** A run of polling calls delivers exactly the non-empty messages that the blocking framing loop would
      find in the part of the stream it consumed, in order, under any short reads and failures; once the
      connection is drained, that is all of them. */
  lemma {:induction false} PollingRefinesFraming(s: Rx, evs: seq<Event>)
    requires Happens(s, evs)
    requires forall ev :: ev in evs ==> ev.call.Polling?
    ensures NonEmpty(Messages(s.Stream())) == Taken(evs) + NonEmpty(Messages(Final(s, evs).Stream()))
    ensures Final(s, evs).Drained() ==> Taken(evs) == NonEmpty(Messages(s.Stream()))
    decreases |evs|
  {
    if Final(s, evs).Drained() {
      DrainedHasNoMessages(Final(s, evs));
    }
    if evs == [] {
    } else {
      var ev, later := evs[0], evs[1..];
      AsyncStepKeepsMessages(s.Stream(), ev.after.Stream(), ev.taken);
      PollingRefinesFraming(ev.after, later);
      Regroup(ev.taken, Taken(later), NonEmpty(Messages(Final(ev.after, later).Stream())));
    }
  }

  /** Between frames is needed: a blocking call made with a frame half-read takes that frame's payload for
      a header, and what it leaves is no frame boundary of the stream. */
  lemma {:induction false} BlockingMidFrameLosesSync()
    ensures exists s: Rx, t: Rx, f :: IsMessage(s.Stream()) && SyncStep(s, t, f) && !OnBoundary(s.Stream(), t.input)
  {
    var s := Rx([0, 0, 0, 6], [0, 0, 0, 1, 9, 9]);
    var t := Rx([], [9]);
    var f: seq<byte> := [0, 0, 0, 1, 9];
    assert FirstFrame(s.input) == f && AfterFrame(s.input) == t.input;
    assert SyncStep(s, t, f);
    assert AfterFrame(s.Stream()) == [];
    assert !OnBoundary(s.Stream(), t.input);
  }
}
