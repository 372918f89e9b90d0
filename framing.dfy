/**
  * The pure half of `src/network/nodeconnection.py`: how a payload is put on the wire
  * (`send`), how the receive buffer is cut into frames at the 0x04 delimiter (the loop in
  * `run`), and how a frame is classified (`parse_packet`).
  */
module Framing {
  import opened Wrappers
  import opened Utf8
  import opened Json

  /** `EOT_CHAR`: the single delimiter byte ending every frame on the wire. */
  const EOT: byte := 0x04

  /** `buf.find(x)`: index of the first `x` in `buf`, or -1. */
  function Find(buf: seq<byte>, x: byte): (r: int)
    ensures r == -1 <==> x !in buf
    ensures r >= 0 ==> r < |buf| && buf[r] == x && x !in buf[..r]
  {
    if buf == [] then -1
    else if buf[0] == x then 0
    else
      var k := Find(buf[1..], x);
      assert buf == [buf[0]] + buf[1..];
      if k < 0 then -1
      else
        assert buf[..k + 1] == [buf[0]] + buf[1..][..k];
        k + 1
  }

  /** The first `x` in `buf` is at `k`. */
  lemma {:induction false} FindIsFirst(buf: seq<byte>, x: byte, k: nat)
    requires k < |buf| && buf[k] == x
    requires forall j | 0 <= j < k :: buf[j] != x
    ensures Find(buf, x) == k
  {
    if k > 0 {
      FindIsFirst(buf[1..], x, k - 1);
    }
  }

  /** A frame the receive loop can deliver: at least one byte, and no delimiter inside. */
  predicate ValidFrame(f: seq<byte>) {
    |f| > 0 && EOT !in f
  }

  /**
    * The receive loop stops on this buffer: it holds no delimiter at an index above 0
    * (`eot_pos > 0` is false), either because it has none or because it starts with one.
    */
  predicate Stuck(buf: seq<byte>) {
    Find(buf, EOT) <= 0
  }

  /** One pass of the loop body: `packet = buffer[:eot_pos]`, `buffer = buffer[eot_pos + 1:]`. */
  function Cut(buf: seq<byte>): (r: Option<(seq<byte>, seq<byte>)>)
    ensures r.None? <==> Stuck(buf)
    ensures r.Some? ==> r.value.0 + [EOT] + r.value.1 == buf
    ensures r.Some? ==> ValidFrame(r.value.0)
    ensures r.Some? ==> |r.value.1| < |buf|
  {
    var pos := Find(buf, EOT);
    if pos > 0 then
      assert buf[..pos] + [EOT] + buf[pos + 1..] == buf;
      Some((buf[..pos], buf[pos + 1..]))
    else None
  }

  /** Frames each followed by the delimiter: what a sequence of `send` calls puts on the wire. */
  function Join(frames: seq<seq<byte>>): seq<byte> {
    if frames == [] then [] else frames[0] + [EOT] + Join(frames[1..])
  }

  lemma JoinCons(f: seq<byte>, frames: seq<seq<byte>>)
    ensures Join([f] + frames) == f + [EOT] + Join(frames)
  {
    assert ([f] + frames)[0] == f && ([f] + frames)[1..] == frames;
  }

  datatype Drained = Drained(frames: seq<seq<byte>>, rest: seq<byte>)

  /** What the `while eot_pos > 0` loop emits from `buf`, in order, and the buffer it leaves. */
  function Drain(buf: seq<byte>): Drained
    decreases |buf|
  {
    match Cut(buf)
    case None => Drained([], buf)
    case Some((frame, rest)) =>
      var d := Drain(rest);
      Drained([frame] + d.frames, d.rest)
  }

  /** The loop loses nothing: its frames, each followed by the delimiter, then what it leaves, make up the buffer. */
  lemma {:induction false} DrainJoinsBack(buf: seq<byte>)
    ensures Join(Drain(buf).frames) + Drain(buf).rest == buf
    decreases |buf|
  {
    var cut := Cut(buf);
    if cut.Some? {
      DrainStep(buf, cut.value.0, cut.value.1);
      DrainJoinsBack(cut.value.1);
      JoinBack(buf, cut.value.0, cut.value.1, Drain(cut.value.1));
    }
  }

  lemma JoinBack(buf: seq<byte>, frame: seq<byte>, rest: seq<byte>, d: Drained)
    requires frame + [EOT] + rest == buf
    requires Join(d.frames) + d.rest == rest
    ensures Join([frame] + d.frames) + d.rest == buf
  {
    JoinCons(frame, d.frames);
    assert frame + [EOT] + Join(d.frames) + d.rest == frame + [EOT] + (Join(d.frames) + d.rest);
  }

  /** The loop delivers only frames: each is non-empty and holds no delimiter. */
  lemma {:induction false} DrainFramesValid(buf: seq<byte>)
    ensures forall i | 0 <= i < |Drain(buf).frames| :: ValidFrame(Drain(buf).frames[i])
    decreases |buf|
  {
    var cut := Cut(buf);
    if cut.Some? {
      DrainStep(buf, cut.value.0, cut.value.1);
      DrainFramesValid(cut.value.1);
      ValidCons(cut.value.0, Drain(cut.value.1).frames);
    }
  }

  lemma ValidCons(f: seq<byte>, frames: seq<seq<byte>>)
    requires ValidFrame(f)
    requires forall i | 0 <= i < |frames| :: ValidFrame(frames[i])
    ensures forall i | 0 <= i < |[f] + frames| :: ValidFrame(([f] + frames)[i])
  {
  }

  /** The loop has stopped on what it leaves. */
  lemma {:induction false} DrainLeavesStuck(buf: seq<byte>)
    ensures Stuck(Drain(buf).rest)
    decreases |buf|
  {
    var cut := Cut(buf);
    if cut.Some? {
      DrainStep(buf, cut.value.0, cut.value.1);
      DrainLeavesStuck(cut.value.1);
    }
  }

  /** One pass of the loop: a frame cut off the front comes first, then whatever the rest drains to. */
  lemma DrainStep(buf: seq<byte>, frame: seq<byte>, rest: seq<byte>)
    requires Cut(buf) == Some((frame, rest))
    ensures Drain(buf) == Drained([frame] + Drain(rest).frames, Drain(rest).rest)
  {
  }

  /** A buffer the loop has stopped on is left as it is. */
  lemma DrainStuck(buf: seq<byte>)
    requires Stuck(buf)
    ensures Drain(buf) == Drained([], buf)
  {
  }

  lemma {:induction false} FindAfterFrame(f: seq<byte>, tail: seq<byte>)
    requires ValidFrame(f)
    ensures Find(f + [EOT] + tail, EOT) == |f|
    ensures Cut(f + [EOT] + tail) == Some((f, tail))
  {
    var buf := f + [EOT] + tail;
    assert forall j | 0 <= j < |f| :: buf[j] == f[j];
    FindIsFirst(buf, EOT, |f|);
    assert buf[..|f|] == f && buf[|f| + 1..] == tail;
  }

  /** The first frame of a joined list, and the rest. */
  lemma JoinFirst(frames: seq<seq<byte>>, tail: seq<byte>)
    requires frames != []
    ensures Join(frames) + tail == frames[0] + [EOT] + (Join(frames[1..]) + tail)
  {
  }

  /** Putting back the first frame in front of the frames drained from the rest. */
  lemma PrependFrame(whole: Drained, later: Drained, frames: seq<seq<byte>>, after: Drained)
    requires frames != []
    requires whole == Drained([frames[0]] + later.frames, later.rest)
    requires later == Drained(frames[1..] + after.frames, after.rest)
    ensures whole == Drained(frames + after.frames, after.rest)
  {
    assert [frames[0]] + (frames[1..] + after.frames) == frames + after.frames;
  }

  /** Delimited frames followed by anything: the loop emits exactly those frames first. */
  lemma {:induction false} DrainJoin(frames: seq<seq<byte>>, tail: seq<byte>)
    requires forall i | 0 <= i < |frames| :: ValidFrame(frames[i])
    ensures Drain(Join(frames) + tail) == Drained(frames + Drain(tail).frames, Drain(tail).rest)
  {
    if frames == [] {
      assert Join(frames) + tail == tail;
      assert frames + Drain(tail).frames == Drain(tail).frames;
    } else {
      var later := Join(frames[1..]) + tail;
      JoinFirst(frames, tail);
      FindAfterFrame(frames[0], later);
      DrainStep(Join(frames) + tail, frames[0], later);
      DrainJoin(frames[1..], tail);
      PrependFrame(Drain(Join(frames) + tail), Drain(later), frames, Drain(tail));
    }
  }

  /** Round trip of one frame: `p ++ [0x04]` into an empty buffer yields `[p]` and an empty buffer. */
  lemma SingleFrame(p: seq<byte>)
    requires ValidFrame(p)
    ensures Drain(p + [EOT]) == Drained([p], [])
  {
    assert Join([p]) == p + [EOT] + Join([]);
    DrainJoined([p]);
  }

  /**
    * Concatenating before splitting: draining `b ++ c` is draining `b` and then draining
    * what it left with `c` appended.
    */
  lemma {:induction false} DrainAppend(b: seq<byte>, c: seq<byte>)
    ensures var first := Drain(b);
      var second := Drain(first.rest + c);
      Drain(b + c) == Drained(first.frames + second.frames, second.rest)
    decreases |b|
  {
    var cut := Cut(b);
    if cut.None? {
      DrainStuck(b);
      NothingInFront(Drain(b), Drain(b + c), b);
    } else {
      var frame, rest := cut.value.0, cut.value.1;
      DrainStep(b, frame, rest);
      CutAppend(b, frame, rest, c);
      DrainStep(b + c, frame, rest + c);
      DrainAppend(rest, c);
      var r := Drain(rest);
      AppendAfterFrame(Drain(b + c), Drain(b), r, Drain(rest + c), Drain(r.rest + c), frame);
    }
  }

  lemma NothingInFront(first: Drained, second: Drained, b: seq<byte>)
    requires first == Drained([], b)
    ensures second == Drained(first.frames + second.frames, second.rest)
  {
    assert first.frames + second.frames == second.frames;
  }

  /** Appending to a buffer the loop cuts leaves the cut frame unchanged. */
  lemma CutAppend(b: seq<byte>, frame: seq<byte>, rest: seq<byte>, c: seq<byte>)
    requires Cut(b) == Some((frame, rest))
    ensures Cut(b + c) == Some((frame, rest + c))
  {
    assert b + c == frame + [EOT] + (rest + c);
    FindAfterFrame(frame, rest + c);
  }

  lemma AppendAfterFrame(whole: Drained, first: Drained, r: Drained, rc: Drained, s: Drained, frame: seq<byte>)
    requires first == Drained([frame] + r.frames, r.rest)
    requires whole == Drained([frame] + rc.frames, rc.rest)
    requires rc == Drained(r.frames + s.frames, s.rest)
    ensures whole == Drained(first.frames + s.frames, s.rest)
  {
    assert [frame] + (r.frames + s.frames) == [frame] + r.frames + s.frames;
  }

  /**
    * Successive reads: each non-empty chunk is appended to the buffer and the buffer is
    * drained; an empty chunk (a timeout) changes nothing.
    */
  function Feed(buf: seq<byte>, chunks: seq<seq<byte>>): (d: Drained)
    decreases |chunks|
  {
    if chunks == [] then Drained([], buf)
    else if chunks[0] == [] then Feed(buf, chunks[1..])
    else
      var now := Drain(buf + chunks[0]);
      var later := Feed(now.rest, chunks[1..]);
      Drained(now.frames + later.frames, later.rest)
  }

  /** All chunks one after the other. */
  function Flatten(chunks: seq<seq<byte>>): seq<byte> {
    if chunks == [] then [] else chunks[0] + Flatten(chunks[1..])
  }

  /** Reading one more chunk after a sequence of reads. */
  lemma {:induction false} FeedSnoc(buf: seq<byte>, chunks: seq<seq<byte>>, c: seq<byte>)
    ensures var before := Feed(buf, chunks);
      var now := Drain(before.rest + c);
      Feed(buf, chunks + [c]) ==
        if c == [] then before else Drained(before.frames + now.frames, now.rest)
    decreases |chunks|
  {
    if chunks == [] {
      assert chunks + [c] == [c];
      if c != [] {
        FeedOne(buf, c);
      }
    } else {
      var c0 := chunks[0];
      assert (chunks + [c])[0] == c0 && (chunks + [c])[1..] == chunks[1..] + [c];
      if c0 == [] {
        FeedSnoc(buf, chunks[1..], c);
      } else {
        var first := Drain(buf + c0);
        FeedSnoc(first.rest, chunks[1..], c);
        var later := Feed(first.rest, chunks[1..]);
        if c != [] {
          var now := Drain(later.rest + c);
          AppendAfterRead(Feed(buf, chunks + [c]), Feed(buf, chunks), first, later,
            Feed(first.rest, chunks[1..] + [c]), now);
        }
      }
    }
  }

  /** Reading one more chunk continues from what the earlier reads left in the buffer. */
  lemma FeedStep(buf: seq<byte>, chunks: seq<seq<byte>>, c: seq<byte>)
    ensures var before := Feed(buf, chunks);
      var step := Feed(before.rest, [c]);
      Feed(buf, chunks + [c]) == Drained(before.frames + step.frames, step.rest)
  {
    var before := Feed(buf, chunks);
    FeedSnoc(buf, chunks, c);
    if c == [] {
      assert [c][1..] == [];
      assert before.frames + [] == before.frames;
    } else {
      FeedOne(before.rest, c);
      assert [] + Drain(before.rest + c).frames == Drain(before.rest + c).frames;
    }
  }

  lemma FeedOne(buf: seq<byte>, c: seq<byte>)
    requires c != []
    ensures Feed(buf, [c]) == Drained([] + Drain(buf + c).frames, Drain(buf + c).rest)
  {
    assert [c][1..] == [];
    assert [] + Drain(buf + c).frames == Drain(buf + c).frames + [];
  }

  lemma AppendAfterRead(whole: Drained, before: Drained, first: Drained, later: Drained,
                        laterMore: Drained, now: Drained)
    requires whole == Drained(first.frames + laterMore.frames, laterMore.rest)
    requires before == Drained(first.frames + later.frames, later.rest)
    requires laterMore == Drained(later.frames + now.frames, now.rest)
    ensures whole == Drained(before.frames + now.frames, now.rest)
  {
    assert first.frames + (later.frames + now.frames) == (first.frames + later.frames) + now.frames;
  }

  /** One pass of the receive loop, stated on the frames emitted so far. */
  lemma ShiftFrame(total: Drained, emitted: seq<seq<byte>>, packet: seq<byte>, now: Drained, later: Drained)
    requires total == Drained(emitted + now.frames, now.rest)
    requires now == Drained([packet] + later.frames, later.rest)
    ensures total == Drained((emitted + [packet]) + later.frames, later.rest)
  {
    assert emitted + ([packet] + later.frames) == (emitted + [packet]) + later.frames;
  }

  /** The receive loop has stopped: everything emitted is the whole drain. */
  lemma Settled(total: Drained, emitted: seq<seq<byte>>, now: Drained, buf: seq<byte>)
    requires total == Drained(emitted + now.frames, now.rest)
    requires now == Drained([], buf)
    ensures total == Drained(emitted, buf)
  {
    assert emitted + [] == emitted;
  }

  /**
    * Delivery in wire order: reading the stream in any chunking yields the frames of the
    * whole stream, as if it had arrived in one read.
    */
  lemma {:induction false} FeedIsDrainOfStream(buf: seq<byte>, chunks: seq<seq<byte>>)
    requires Stuck(buf)
    ensures Feed(buf, chunks) == Drain(buf + Flatten(chunks))
    decreases |chunks|
  {
    if chunks == [] {
      assert buf + Flatten(chunks) == buf;
      DrainStuck(buf);
    } else if chunks[0] == [] {
      FeedIsDrainOfStream(buf, chunks[1..]);
      assert Flatten(chunks) == Flatten(chunks[1..]);
    } else {
      var grown := buf + chunks[0];
      var now := Drain(grown);
      DrainLeavesStuck(grown);
      FeedIsDrainOfStream(now.rest, chunks[1..]);
      DrainAppend(grown, Flatten(chunks[1..]));
      FlattenFirst(buf, chunks);
    }
  }

  lemma FlattenFirst(buf: seq<byte>, chunks: seq<seq<byte>>)
    requires chunks != []
    ensures buf + Flatten(chunks) == (buf + chunks[0]) + Flatten(chunks[1..])
  {
  }

  /** Two frames read in two pieces cut at any offset still arrive as those two frames. */
  lemma {:induction false} TwoReadsAnyCut(p1: seq<byte>, p2: seq<byte>, k: nat)
    requires ValidFrame(p1) && ValidFrame(p2)
    requires k <= |p1| + |p2| + 2
    ensures var wire := p1 + [EOT] + p2 + [EOT];
      Feed([], [wire[..k], wire[k..]]) == Drained([p1, p2], [])
  {
    var wire := p1 + [EOT] + p2 + [EOT];
    JoinTwo(p1, p2);
    DrainJoined([p1, p2]);
    FeedIsDrainOfStream([], [wire[..k], wire[k..]]);
    FlattenCut(wire, k);
  }

  /** Whole frames in one read arrive as exactly those frames, leaving an empty buffer. */
  lemma DrainJoined(frames: seq<seq<byte>>)
    requires forall i | 0 <= i < |frames| :: ValidFrame(frames[i])
    ensures Drain(Join(frames)) == Drained(frames, [])
  {
    DrainJoin(frames, []);
    DrainStuck([]);
    assert Join(frames) + [] == Join(frames);
    NothingAfter(Drain(Join(frames)), Drain(Join(frames) + []), Drain([]), frames);
  }

  lemma NothingAfter(read: Drained, whole: Drained, empty: Drained, frames: seq<seq<byte>>)
    requires read == whole && empty == Drained([], [])
    requires whole == Drained(frames + empty.frames, empty.rest)
    ensures read == Drained(frames, [])
  {
    assert frames + [] == frames;
  }

  lemma JoinTwo(p1: seq<byte>, p2: seq<byte>)
    ensures Join([p1, p2]) == p1 + [EOT] + p2 + [EOT]
  {
    assert [p1, p2][1..] == [p2];
    assert Join([p2]) == p2 + [EOT] + Join([]);
  }

  lemma FlattenCut(wire: seq<byte>, k: nat)
    requires k <= |wire|
    ensures [] + Flatten([wire[..k], wire[k..]]) == wire
  {
    assert [wire[..k], wire[k..]][1..] == [wire[k..]];
    assert Flatten([wire[k..]]) == wire[k..] + Flatten([]);
  }

  /**
    * The wedge: once the buffer starts with the delimiter (an empty frame, as sent for the
    * text ""), the loop test `eot_pos > 0` never holds again and no later frame is delivered.
    */
  lemma {:induction false} LeadingDelimiterWedges(buf: seq<byte>, chunks: seq<seq<byte>>)
    requires |buf| > 0 && buf[0] == EOT
    ensures Feed(buf, chunks) == Drained([], buf + Flatten(chunks))
    decreases |chunks|
  {
    if chunks == [] {
      assert buf + Flatten(chunks) == buf;
    } else if chunks[0] == [] {
      LeadingDelimiterWedges(buf, chunks[1..]);
      FlattenFirst(buf, chunks);
    } else {
      var grown := buf + chunks[0];
      WedgeGrows(buf, chunks[0]);
      LeadingDelimiterWedges(grown, chunks[1..]);
      FlattenFirst(buf, chunks);
      NothingEither(Feed(buf, chunks), Drain(grown), Feed(grown, chunks[1..]), grown);
    }
  }

  /** A buffer that starts with the delimiter still does after a read, and the loop leaves it as it is. */
  lemma WedgeGrows(buf: seq<byte>, chunk: seq<byte>)
    requires |buf| > 0 && buf[0] == EOT
    ensures (buf + chunk)[0] == EOT && Drain(buf + chunk) == Drained([], buf + chunk)
  {
    assert (buf + chunk)[0] == EOT;
    DrainStuck(buf + chunk);
  }

  lemma NothingEither(whole: Drained, now: Drained, later: Drained, grown: seq<byte>)
    requires whole == Drained(now.frames + later.frames, later.rest)
    requires now == Drained([], grown) && later.frames == []
    ensures whole == Drained([], later.rest)
  {
    assert now.frames + later.frames == [];
  }

  /** The bytes `send(data)` writes; None where it writes nothing (no exception escapes). */
  function EncodePayload(codec: JsonCodec, data: Value): (r: Option<seq<byte>>)
    requires JsonLaws(codec)
    ensures r.Some? <==> data.VStr? || data.VBytes? || (data.VDict? && Serializable(data))
    ensures r.Some? ==> |r.value| > 0 && r.value[|r.value| - 1] == EOT
  {
    match data
    case VStr(s) => Some(Encode(s) + [EOT])
    case VDict(_) =>
      (match codec.dumps(data)
       case None => None
       case Some(text) => Some(Encode(text) + [EOT]))
    case VBytes(b) => Some(b + [EOT])
    case _ => None
  }

  /** `parse_packet`: bytes if not UTF-8, else the JSON value if `json.loads` accepts the text, else the text. */
  function ParsePacket(codec: JsonCodec, packet: seq<byte>): Value {
    match Decode(packet)
    case None => VBytes(packet)
    case Some(text) =>
      match codec.loads(text)
      case Some(v) => v
      case None => VStr(text)
  }

  /** A frame is delivered as bytes exactly when it is not UTF-8, and then unchanged. */
  lemma ParsedAsBytes(codec: JsonCodec, packet: seq<byte>)
    requires JsonLaws(codec)
    ensures ParsePacket(codec, packet).VBytes? <==> Decode(packet).None?
    ensures ParsePacket(codec, packet).VBytes? ==> ParsePacket(codec, packet).bytes == packet
  {
    if Decode(packet).Some? {
      var text := Decode(packet).value;
      if codec.loads(text).Some? {
        assert Serializable(codec.loads(text).value);
      }
    }
  }

  /**
    * Text sent as str comes back as the text itself, unless `json.loads` accepts it, in which
    * case the JSON value arrives instead (the text "42" arrives as the number 42).
    */
  lemma {:induction false} ParseSentText(codec: JsonCodec, s: string)
    ensures ParsePacket(codec, Encode(s)) ==
      (if codec.loads(s).Some? then codec.loads(s).value else VStr(s))
  {
    DecodeEncode(s);
  }

  /** A dict sent by `send` is parsed back into the same dict. */
  lemma ParseSentDict(codec: JsonCodec, d: Value)
    requires JsonLaws(codec) && d.VDict? && Serializable(d)
    ensures ParsePacket(codec, Encode(codec.dumps(d).value)) == d
  {
    DecodeEncode(codec.dumps(d).value);
  }
}
