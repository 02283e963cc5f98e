/**
  The wire body of a blocking response: frames polled from the transport, handed out in pieces of
  the sizes the caller asks for. What does not fit is kept as a remainder, and an error that
  arrives after bytes were collected is kept until those bytes have been delivered.
*/
module WireBody {
  import opened Prelude

  datatype Poll = Data(bytes: Bytes) | Failure

  /** The transport's side: what it is still going to answer, and its declared length, if that may end the body. */
  datatype Stream = Stream(polls: seq<Poll>, received: nat, declared: Option<nat>, encoded: bool, terminal: bool)

  datatype Frame = Bytes(bytes: Bytes) | Failed | End

  /** The bytes up to the end or the first failure. */
  function Rest(polls: seq<Poll>): Bytes {
    if polls == [] || polls[0].Failure? then [] else polls[0].bytes + Rest(polls[1..])
  }

  function Broken(polls: seq<Poll>): bool {
    polls != [] && (polls[0].Failure? || Broken(polls[1..]))
  }

  /** The first frame that is not empty, unless a failure or the end comes first. */
  function FirstBytes(polls: seq<Poll>): Bytes {
    if polls == [] || polls[0].Failure? then []
    else if polls[0].bytes != [] then polls[0].bytes
    else FirstBytes(polls[1..])
  }

  /** The transport never goes on after the declared number of bytes. */
  predicate Honest(polls: seq<Poll>, received: nat, declared: Option<nat>) {
    if declared == Some(received) then polls == []
    else polls != [] && polls[0].Data? ==> Honest(polls[1..], received + |polls[0].bytes|, declared)
  }

  /** `finish_declared_length`. */
  function Finish(s: Stream, allowEncoded: bool): Stream {
    if !s.terminal && (!s.encoded || allowEncoded) && s.declared == Some(s.received) then s.(terminal := true) else s
  }

  /** After `more` further bytes the declared length is reached, and that may end the body. */
  predicate Reaches(s: Stream, more: nat, allowEncoded: bool) {
    s.declared == Some(s.received + more) && (!s.encoded || allowEncoded)
  }

  ghost predicate Open(s: Stream) { !s.terminal && Honest(s.polls, s.received, s.declared) }

  predicate Same(s: Stream, t: Stream) { t.declared == s.declared && t.encoded == s.encoded }

  /** The next frame that is not empty. */
  method NextFrame(s: Stream) returns (t: Stream, frame: Frame)
    requires Open(s)
    ensures |t.polls| <= |s.polls|
    ensures match frame
            case Bytes(b) => b != [] && b == FirstBytes(s.polls) && Open(t) && Same(s, t)
              && t.received == s.received + |b|
                             && Rest(s.polls) == b + Rest(t.polls) && Broken(s.polls) == Broken(t.polls)
                             && |t.polls| < |s.polls|
            case Failed => t.terminal && Rest(s.polls) == FirstBytes(s.polls) == [] && Broken(s.polls)
            case End => t.terminal && Rest(s.polls) == FirstBytes(s.polls) == [] && !Broken(s.polls)
  {
    t := s;
    while true
      invariant Open(t) && Rest(t.polls) == Rest(s.polls) && Broken(t.polls) == Broken(s.polls)
      invariant FirstBytes(t.polls) == FirstBytes(s.polls) && Same(s, t)
      invariant t.received == s.received && |t.polls| <= |s.polls|
      decreases |t.polls|
    {
      if t.polls == [] { return t.(terminal := true), End; }
      var poll := t.polls[0];
      t := t.(polls := t.polls[1..]);
      if poll.Failure? { return t.(terminal := true), Failed; }
      t := t.(received := t.received + |poll.bytes|);
      if poll.bytes != [] { return t, Bytes(poll.bytes); }
    }
  }

  /** Finishing early loses nothing. */
  lemma FinishIsEnd(s: Stream, allowEncoded: bool)
    requires Open(s)
    ensures Finish(s, allowEncoded).terminal <==> Reaches(s, 0, allowEncoded)
    ensures Finish(s, allowEncoded).terminal ==> Rest(s.polls) == FirstBytes(s.polls) == [] && !Broken(s.polls)
    ensures !Finish(s, allowEncoded).terminal ==> Finish(s, allowEncoded) == s
  {
  }

  class ResponseBody {
    var inner: Option<Stream>
    var remainder: Bytes
    var pendingError: bool
    var terminal: bool

    /** In particular a delayed error never waits behind bytes that would be thrown away with it. */
    ghost predicate Valid()
      reads this
    {
      && (inner.Some? ==> !terminal && Open(inner.value))
      && (pendingError ==> terminal && remainder == [])
    }

    /** What a reader can still get. */
    ghost function Left(): Bytes
      reads this
    {
      remainder + if inner.Some? then Rest(inner.value.polls) else []
    }

    /** An error is still to be reported. */
    ghost predicate Fails()
      reads this
    {
      pendingError || (inner.Some? && Broken(inner.value.polls))
    }

    predicate IsTerminal()
      reads this
    {
      terminal && remainder == [] && !pendingError
    }

    /** The next frame, whatever is left of earlier ones. */
    ghost function Coming(): Bytes
      reads this
    {
      if inner.Some? then FirstBytes(inner.value.polls) else []
    }

    /** What the next read finds at hand: the remainder, or else the next frame. */
    ghost function Available(): Bytes
      reads this
    {
      if remainder != [] || inner.None? then remainder else FirstBytes(inner.value.polls)
    }

    /**
      A blocking read of this size leaves the body finished: at once when nothing but an error or the end is left,
      and otherwise when it takes all that is at hand and that is where the body ends.
    */
    ghost predicate FinishedBy(size: nat)
      reads this
    {
      if size == 0 then IsTerminal()
      else if Left() == [] then true
      else
        && |Available()| <= size
        && (terminal || (inner.Some? && Reaches(inner.value, if remainder == [] then |Available()| else 0, false)))
    }

    constructor (stream: Stream)
      requires Open(stream)
      ensures Valid() && !IsTerminal() && Left() == Rest(stream.polls) && (Fails() <==> Broken(stream.polls))
      ensures inner == Some(stream) && remainder == []
    {
      inner, remainder, pendingError, terminal := Some(stream), [], false, false;
    }

    method FinishIfBufferEmpty(allowEncoded: bool)
      requires Valid()
      modifies this
      ensures Valid() && Left() == old(Left()) && (Fails() <==> old(Fails()))
      ensures remainder == old(remainder) && pendingError == old(pendingError)
      ensures var ends := && old(remainder) == [] && old(inner).Some?
                          && old(inner).value.declared == Some(old(inner).value.received)
                          && (!old(inner).value.encoded || allowEncoded);
              inner == (if ends then None else old(inner)) && (terminal <==> old(terminal) || ends)
    {
      if remainder != [] { return; }
      if inner.Some? {
        FinishIsEnd(inner.value, allowEncoded);
        var finished := Finish(inner.value, allowEncoded);
        inner := Some(finished);
        if finished.terminal {
          terminal := true;
          inner := None;
        }
      }
    }

    /** `Read::read` with a buffer of the given size. */
    method Read(size: nat) returns (r: Result<Bytes, ()>)
      requires Valid()
      modifies this
      ensures Valid() && (IsTerminal() <==> old(FinishedBy(size)))
      ensures r.Ok? ==> r.value == old(Available()[..Min(size, |Available()|)])
      ensures r.Ok? ==> old(Left()) == r.value + Left() && (Fails() <==> old(Fails()))
      ensures r.Ok? && size > 0 && r.value == [] ==> Left() == [] && !Fails()
      ensures r.Err? <==> size > 0 && old(Left()) == [] && old(Fails())
      ensures r.Err? ==> Left() == [] && !Fails()
    {
      hide Rest, Broken, Honest, Finish;
      if size == 0 { return Ok([]); }
      if remainder != [] {
        var read := Min(size, |remainder|);
        var bytes := remainder[..read];
        remainder := remainder[read..];
        assert old(remainder) == bytes + remainder;
        FinishIfBufferEmpty(false);
        return Ok(bytes);
      }
      if pendingError {
        pendingError := false;
        return Err(());
      }
      if terminal { return Ok([]); }
      if inner.None? {
        terminal := true;
        return Ok([]);
      }
      var body, frame := NextFrame(inner.value);
      inner := None;
      match frame
      case Bytes(bytes) =>
        var read := Min(size, |bytes|);
        remainder := bytes[read..];
        assert bytes == bytes[..read] + remainder;
        if remainder == [] {
          FinishIsEnd(body, false);
          body := Finish(body, false);
        }
        if body.terminal { terminal := true; } else { inner := Some(body); }
        r := Ok(bytes[..read]);
      case Failed =>
        terminal := true;
        r := Err(());
      case End =>
        terminal := true;
        r := Ok([]);
    }

    /**
      `read_async` and, without `fill`, `read_frame_async`. No byte is lost or reordered, nothing past
      the amount is returned, a short answer means that the bytes are at an end (or, without `fill`, one
      frame), and an error is reported once, after all bytes before it.
    */
    method ReadAsync(amount: Option<nat>, allowEncoded: bool, fill: bool) returns (r: Result<Bytes, ()>)
      requires Valid()
      modifies this
      ensures Valid() && (old(IsTerminal()) ==> IsTerminal())
      ensures r.Ok? ==> old(Left()) == r.value + Left() && (Fails() <==> old(Fails()))
      ensures r.Ok? && amount.Some? ==> |r.value| <= amount.value
      ensures r.Ok? && (if amount.None? then true else fill && |r.value| < amount.value) ==>
                Left() == [] && (IsTerminal() || Fails())
      ensures r.Ok? && r.value == [] && amount != Some(0) ==> IsTerminal() && Left() == [] && !Fails()
      ensures r.Ok? && amount.Some? && !fill ==>
                var all := old(remainder + Coming()); r.value == all[..Min(amount.value, |all|)]
      ensures r.Ok? && amount != Some(0) ==>
                var taken := |r.value| - old(|remainder|);
                (IsTerminal() <==>
                   && remainder == [] && !pendingError
                   && (old(terminal) || Short(amount, |r.value|, fill || taken == 0)
                       || (taken >= 0 && old(inner).Some? && Reaches(old(inner).value, taken, allowEncoded))))
      ensures r.Err? ==> amount != Some(0) && old(Left()) == [] && old(Fails())
    {
      hide Rest, Broken, Honest, Finish, FirstBytes, Open;
      if amount == Some(0) { return Ok([]); }
      var output: Bytes := [];
      if remainder != [] {
        var read := if amount.Some? then Min(amount.value, |remainder|) else |remainder|;
        output := remainder[..read];
        remainder := remainder[read..];
        assert old(remainder) == output + remainder;
        if inner.Some? { FinishIsEnd(inner.value, allowEncoded); }
        FinishIfBufferEmpty(allowEncoded);
        if amount.Some? && |output| == amount.value { return Ok(output); }
      }
      if pendingError {
        pendingError := false;
        return Err(());
      }
      if terminal { return Ok(output); }
      if inner.None? {
        terminal := true;
        return Ok(output);
      }
      r := Collect(amount, allowEncoded, fill, output);
    }

    /** The polling loop, entered with the bytes of the remainder already collected. */
    method Collect(amount: Option<nat>, allowEncoded: bool, fill: bool, collected: Bytes) returns (r: Result<Bytes, ()>)
      requires Valid() && inner.Some? && remainder == [] && !pendingError
      requires amount.Some? ==> |collected| < amount.value
      modifies this
      ensures Valid()
      ensures r.Ok? ==> collected + old(Left()) == r.value + Left() && (Fails() <==> old(Fails()))
      ensures r.Ok? && amount.Some? ==> |r.value| <= amount.value
      ensures r.Ok? && (if amount.None? then true else fill && |r.value| < amount.value) ==>
                Left() == [] && (IsTerminal() || Fails())
      ensures r.Ok? && r.value == [] ==> IsTerminal() && Left() == [] && !Fails()
      ensures r.Ok? && amount.Some? && !fill ==>
                var all := collected + old(FirstBytes(inner.value.polls)); r.value == all[..Min(amount.value, |all|)]
      ensures r.Ok? ==>
                && |collected| <= |r.value|
                && (IsTerminal() <==>
                      && remainder == [] && !pendingError
                      && (Reaches(old(inner).value, |r.value| - |collected|, allowEncoded)
                          || Short(amount, |r.value|, fill || |r.value| == |collected|)))
      ensures r.Err? ==> collected == [] && old(Left()) == [] && old(Fails())
    {
      hide Rest, Broken, Honest, Finish, FirstBytes;
      var output := collected;
      var body := inner.value;
      ghost var inner0 := body;
      ghost var first := FirstBytes(body.polls);
      ghost var all := collected + Left();
      inner := None;
      while true
        invariant inner.None? && remainder == [] && !pendingError && !terminal && Open(body)
        invariant all == output + Rest(body.polls) && (Broken(body.polls) <==> old(Fails()))
        invariant amount.Some? ==> |output| < amount.value
        invariant |collected| <= |output| && (output == collected || fill || amount.None?)
        invariant output == collected ==> FirstBytes(body.polls) == first
        invariant Same(inner0, body) && body.received == inner0.received + |output| - |collected|
        decreases |body.polls|
      {
        var frame;
        body, frame := NextFrame(body);
        match frame
        case Bytes(bytes) =>
          var read := if amount.Some? then Min(amount.value - |output|, |bytes|) else |bytes|;
          Recut(output, bytes, read, Rest(body.polls));
          output := output + bytes[..read];
          remainder := bytes[read..];
          if remainder == [] {
            FinishIsEnd(body, allowEncoded);
            body := Finish(body, allowEncoded);
          }
          if body.terminal {
            terminal := true;
            return Ok(output);
          }
          if amount.Some? && (|output| == amount.value || !fill) {
            inner := Some(body);
            return Ok(output);
          }
        case Failed =>
          terminal := true;
          if output == [] { return Err(()); }
          pendingError := true;
          return Ok(output);
        case End =>
          terminal := true;
          return Ok(output);
      }
    }
  }

  /** Fewer bytes than asked for, in a read that goes on to the end; with no amount every read does. */
  predicate Short(amount: Option<nat>, count: nat, goesOn: bool) {
    if amount.None? then true else count < amount.value && goesOn
  }

  lemma Recut(output: Bytes, bytes: Bytes, read: nat, rest: Bytes)
    requires read <= |bytes|
    ensures output + (bytes + rest) == (output + bytes[..read]) + (bytes[read..] + rest)
  {
  }
}
