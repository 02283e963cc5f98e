/**
  The decoded read path of `NativeAdapterRaw`, in runs without errors: a buffer over a bounded
  streaming decoder, proved to behave as a cursor over the fully decoded body.
*/
module DecodedReader {
  import opened Prelude

  /**
    A streaming decoder with states `D`. `hasTail` is `has_unconsumed_tail`; `decompress(d, wire, maximum)`
    is `decompress`, with a negative maximum for no bound. `full(d, wires)` is everything that state `d` will ever
    produce from the wire reads still to come, and `backlog(d)` bounds the work left in its tail.
  */
  datatype Decoder<!D> = Decoder(
    hasTail: D -> bool,
    decompress: (D, Bytes, int) -> (D, Bytes),
    flush: D -> Bytes,
    full: (D, seq<Bytes>) -> Bytes,
    backlog: D -> nat,
    cleanEnd: D -> bool)

  /** A call that feeds a wire read moves its output from the future to the present. */
  ghost predicate FeedsWire<D(!new)>(decoder: Decoder<D>, d: D, wire: Bytes, wires: seq<Bytes>, maximum: int) {
    var (next, out) := decoder.decompress(d, wire, maximum);
    decoder.full(d, [wire] + wires) == out + decoder.full(next, wires)
  }

  /** So does a call that works off the tail, which also leaves less to work off. */
  ghost predicate DrainsTail<D(!new)>(decoder: Decoder<D>, d: D, wires: seq<Bytes>, maximum: int) {
    var (next, out) := decoder.decompress(d, [], maximum);
    decoder.full(d, wires) == out + decoder.full(next, wires) && decoder.backlog(next) < decoder.backlog(d)
  }

  ghost predicate Ends<D(!new)>(decoder: Decoder<D>, d: D) {
    var (last, out) := decoder.decompress(d, [], -1);
    decoder.full(d, []) == out + decoder.flush(last)
  }

  /** The contract of a decoder: what it produces in all does not depend on the bounds it is called with. */
  ghost predicate Streams<D(!new)>(decoder: Decoder<D>) {
    && (forall d, wire, wires, maximum :: maximum != 0 && !decoder.hasTail(d) ==>
      FeedsWire(decoder, d, wire, wires, maximum))
    && (forall d, wires, maximum :: maximum != 0 && decoder.hasTail(d) ==> DrainsTail(decoder, d, wires, maximum))
    && (forall d :: !decoder.hasTail(d) ==> Ends(decoder, d))
  }

  /** A decoder that honours the maximum it is given. */
  ghost predicate Bounded<D(!new)>(decoder: Decoder<D>) {
    forall d, wire, maximum :: maximum > 0 ==> |decoder.decompress(d, wire, maximum).1| <= maximum
  }

  const ISIZE_MAX: int := 0x7fff_ffff_ffff_ffff

  /** The first `amount` bytes, or all of them. */
  function Take(content: Bytes, amount: Option<nat>): Bytes {
    if amount.None? || |content| <= amount.value then content else content[..amount.value]
  }

  class Raw<D(!new)> {
    const decoder: Decoder<D>
    var body: Option<seq<Bytes>>  // what the successive wire reads will return, until the empty one
    var state: D
    var decoded: Bytes
    var offset: nat
    var eof: bool
    var closed: bool
    var completed: bool  // the encoded wire body was completed early

    ghost function Wires(): seq<Bytes>
      reads this
    {
      if body.Some? then body.value else []
    }

    /** The decoded bytes not yet handed out: those in the buffer and those still to be decoded. */
    ghost function Rest(): Bytes
      requires offset <= |decoded|
      reads this
    {
      decoded[offset..] + if eof then [] else decoder.full(state, Wires())
    }

    ghost predicate Valid()
      reads this
    {
      && Streams(decoder) && offset <= |decoded|
      && (body.Some? ==> !eof && forall i :: 0 <= i < |body.value| ==> body.value[i] != [])
    }

    /** What the reader still has to offer. */
    ghost function Content(): Bytes
      requires Valid()
      reads this
    {
      if closed then [] else Rest()
    }

    constructor (decoder: Decoder<D>, initial: D, wires: seq<Bytes>)
      requires Streams(decoder) && forall i :: 0 <= i < |wires| ==> wires[i] != []
      ensures Valid() && !closed && !completed && Content() == decoder.full(initial, wires)
    {
      this.decoder := decoder;
      body, state, decoded, offset, eof, closed, completed := Some(wires), initial, [], 0, false, false, false;
    }

    /** `read_wire`: the next non-empty wire read, or an empty one at the end. */
    method ReadWire() returns (wire: Bytes)
      requires Valid()
      modifies this`body
      ensures Valid()
      ensures if old(Wires()) == [] then wire == [] && Wires() == [] else wire != [] && old(Wires()) == [wire] + Wires()
    {
      if body.None? || body.value == [] { return []; }
      wire := body.value[0];
      body := Some(body.value[1..]);
    }

    /** The wire is used up: take what the decoder still holds, and flush it. */
    method Finish()
      requires Valid() && offset == 0 && !eof && Wires() == [] && !decoder.hasTail(state)
      modifies this`body, this`state, this`decoded, this`eof
      ensures Valid() && eof && Rest() == old(Rest())
    {
      ghost var content := decoded + decoder.full(state, []);
      assert Rest() == content;
      assert Ends(decoder, state);
      body := None;
      var (last, out) := decoder.decompress(state, [], -1);
      decoded := decoded + out;
      decoded := decoded + decoder.flush(last);
      state := last;
      eof := true;
      assert decoded == content;
    }

    /** One call of `decompress`, on the tail or on a wire read, bounded by what is still wanted. */
    method Decompress(wire: Bytes, maximum: int, ghost wires: seq<Bytes>)
      requires Valid() && offset == 0 && !eof && maximum != 0
      requires if decoder.hasTail(state) then wire == [] && wires == Wires() else wires == [wire] + Wires()
      modifies this`state, this`decoded
      ensures Valid() && Rest() == old(decoded) + decoder.full(old(state), wires)
      ensures old(decoder.hasTail(state)) ==> decoder.backlog(state) < decoder.backlog(old(state))
      ensures Bounded(decoder) && maximum > 0 ==> |decoded| <= |old(decoded)| + maximum
    {
      assert decoder.hasTail(state) ==> DrainsTail(decoder, state, wires, maximum);
      assert !decoder.hasTail(state) ==> FeedsWire(decoder, state, wire, Wires(), maximum);
      ghost var content := decoded + decoder.full(state, wires);
      var (next, out) := decoder.decompress(state, wire, maximum);
      state := next;
      decoded := decoded + out;
      assert decoded + decoder.full(state, Wires()) == content;
    }

    /** `fill_decoded_bounded`: decode until `wanted` bytes are in the buffer or the decoder has ended. */
    method Fill(wanted: Option<nat>)
      requires Valid()
      modifies this`body, this`state, this`decoded, this`offset, this`eof
      ensures Valid() && offset == 0 && Rest() == old(Rest())
      ensures eof || (wanted.Some? && |decoded| >= wanted.value)
      ensures Bounded(decoder) && wanted.Some? && !eof ==> |decoded| <= Larger(old(|decoded| - offset), wanted.value)
    {
      hide Streams, Bounded;
      ghost var held := |decoded| - offset;
      if offset > 0 {
        decoded, offset := decoded[offset..], 0;
      }
      assert decoded[0..] == decoded;
      while !eof && (wanted.None? || |decoded| < wanted.value)
        invariant Valid() && offset == 0 && Rest() == old(Rest())
        invariant Bounded(decoder) && wanted.Some? && !eof ==> |decoded| <= Larger(held, wanted.value)
        decreases !eof, |Wires()|, decoder.backlog(state)
      {
        ghost var wires := Wires();
        assert Rest() == decoded + decoder.full(state, wires);
        var tail := decoder.hasTail(state);
        var wire := [];
        if !tail { wire := ReadWire(); }
        assert wire == [] ==> Wires() == wires;
        if wire == [] && !tail {
          Finish();
          break;
        }
        var maximum := if wanted.Some? then Min(wanted.value - |decoded|, ISIZE_MAX) else -1;
        Decompress(wire, maximum, wires);
      }
    }

    /** `finish_decoded_wire_if_complete`. */
    method FinishWireIfComplete()
      modifies this`completed
      ensures completed <==> old(completed) || (decoder.cleanEnd(state) && body.Some?)
    {
      if decoder.cleanEnd(state) && body.Some? { completed := true; }
    }

    /** `read_amount` with `decode_content` set. Completing the encoded wire body comes too late to find one. */
    method Read(amount: Option<nat>) returns (bytes: Bytes)
      requires Valid()
      modifies this
      ensures Valid()
      ensures bytes == Take(old(Content()), amount)
      ensures Content() == old(Content())[|bytes|..]
      ensures old(closed) ==> closed
      ensures closed <==> old(closed) || (amount != Some(0) && eof && offset == |decoded|)
      ensures closed && !old(closed) ==> Content() == []
      ensures amount.None? || |bytes| < amount.value ==> closed
      ensures completed == old(completed)
    {
      hide Streams;
      if amount == Some(0) { return []; }
      if closed { return []; }
      Fill(amount);
      if amount.None? || |decoded| - offset < amount.value { FinishWireIfComplete(); }
      var end := if amount.Some? && amount.value < |decoded| then amount.value else |decoded|;
      bytes := decoded[offset..end];
      offset := end;
      if eof && offset == |decoded| { closed := true; }
    }

    /** Closing drops the wire body and everything not yet read. */
    method Close()
      requires Valid()
      modifies this
      ensures Valid() && closed && body.None? && Content() == []
      ensures eof <==> old(eof) || old(body.Some?)
    {
      if body.Some? {
        body := None;
        eof := true;
      }
      closed := true;
    }
  }

  function Larger(a: int, b: int): int { if a < b then b else a }

  // ----- any sequence of reads -----

  /** The pieces that successive reads of the given sizes return, by the contract of `Read`. */
  function Pieces(content: Bytes, sizes: seq<Option<nat>>): seq<Bytes> {
    if sizes == [] then []
    else var piece := Take(content, sizes[0]); [piece] + Pieces(content[|piece|..], sizes[1..])
  }

  /**
    Whatever the sizes, the pieces partition a prefix of the decoded body in order; a piece is shorter than
    asked for only when nothing is left after it.
  */
  lemma {:induction false} ReadsPartition(content: Bytes, sizes: seq<Option<nat>>)
    ensures var pieces := Pieces(content, sizes);
            && |pieces| == |sizes| && Join(pieces) <= content
            && (forall i :: 0 <= i < |sizes| && sizes[i].Some? ==> |pieces[i]| <= sizes[i].value)
            && (forall i :: 0 <= i < |sizes| && (sizes[i].None? || |pieces[i]| < sizes[i].value) ==>
                  Join(pieces[..i + 1]) == content)
  {
    if sizes != [] {
      var piece := Take(content, sizes[0]);
      var rest := content[|piece|..];
      var pieces, more := Pieces(content, sizes), Pieces(rest, sizes[1..]);
      ReadsPartition(rest, sizes[1..]);
      assert content == piece + rest && Join(pieces) == piece + Join(more);
      forall i | 0 <= i < |sizes| && (sizes[i].None? || |pieces[i]| < sizes[i].value)
        ensures Join(pieces[..i + 1]) == content
      {
        assert pieces[..i + 1] == [piece] + more[..i];
        assert ([piece] + more[..i])[1..] == more[..i];
        if i == 0 { assert rest == []; } else { assert sizes[1..][i - 1] == sizes[i]; }
      }
    }
  }

  /** The reads of the given sizes, one after the other. */
  method ReadSizes<D(!new)>(raw: Raw<D>, sizes: seq<Option<nat>>) returns (pieces: seq<Bytes>)
    requires raw.Valid()
    modifies raw
    ensures raw.Valid() && pieces == Pieces(old(raw.Content()), sizes)
    ensures old(raw.Content()) == Join(pieces) + raw.Content()
  {
    hide Pieces, Join, Take;
    pieces := [];
    NothingRead(raw.Content(), sizes);
    for i := 0 to |sizes|
      invariant raw.Valid() && old(raw.Content()) == Join(pieces) + raw.Content()
      invariant Pieces(old(raw.Content()), sizes) == pieces + Pieces(raw.Content(), sizes[i..])
    {
      ghost var before := raw.Content();
      var piece := raw.Read(sizes[i]);
      OneMorePiece(pieces, before, piece, sizes, i);
      pieces := pieces + [piece];
    }
    assert sizes[|sizes|..] == [] && pieces + [] == pieces;
    NothingRead(raw.Content(), []);
  }

  lemma NothingRead(content: Bytes, sizes: seq<Option<nat>>)
    ensures Join([]) + content == content && Pieces(content, []) == []
              && Pieces(content, sizes) == [] + Pieces(content, sizes[0..])
  {
    assert sizes[0..] == sizes;
  }

  lemma OneMorePiece(pieces: seq<Bytes>, content: Bytes, piece: Bytes, sizes: seq<Option<nat>>, i: nat)
    requires i < |sizes| && piece == Take(content, sizes[i])
    ensures Join(pieces) + content == Join(pieces + [piece]) + content[|piece|..]
    ensures pieces + Pieces(content, sizes[i..]) == (pieces + [piece]) + Pieces(content[|piece|..], sizes[i + 1..])
  {
    JoinAppend(pieces, piece);
    assert content == piece + content[|piece|..];
    assert sizes[i..][1..] == sizes[i + 1..];
    hide Pieces, Join;
  }

  // ----- the decoder contract can be met -----

  /** The identity coding with a bounded output: what exceeds the bound stays as the tail. */
  const PASS_THROUGH: Decoder<Bytes> := Decoder(
    (tail: Bytes) => tail != [],
    (tail: Bytes, wire: Bytes, maximum: int) =>
      var all := tail + wire;
      if maximum < 0 || |all| <= maximum then ([], all) else (all[maximum..], all[..maximum]),
    (tail: Bytes) => tail,
    (tail: Bytes, wires: seq<Bytes>) => tail + Join(wires),
    (tail: Bytes) => |tail|,
    (tail: Bytes) => tail == [])

  lemma PassThroughStreams()
    ensures Streams(PASS_THROUGH) && Bounded(PASS_THROUGH)
  {
    forall d: Bytes, wire: Bytes, wires: seq<Bytes>, maximum: int | maximum != 0 && d == []
      ensures FeedsWire(PASS_THROUGH, d, wire, wires, maximum)
    {
      assert ([wire] + wires)[1..] == wires;
      assert [] + wire == wire;
      PassThroughCut(wire, wires, maximum);
    }
    forall d: Bytes, wires: seq<Bytes>, maximum: int | maximum != 0 && d != []
      ensures DrainsTail(PASS_THROUGH, d, wires, maximum)
    {
      assert d + [] == d;
      PassThroughCut(d, wires, maximum);
    }
  }

  lemma PassThroughCut(all: Bytes, wires: seq<Bytes>, maximum: int)
    ensures 0 <= maximum < |all| ==> all + Join(wires) == all[..maximum] + (all[maximum..] + Join(wires))
    ensures all + Join(wires) == all + ([] + Join(wires))
  {
  }
}
