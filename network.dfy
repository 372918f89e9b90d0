/**
  * `src/network/nodeconnection.py` (class `Link`) and `src/network/node.py` (class `Node`).
  *
  * A `Link` is one peer connection: the bytes it has received but not yet cut into frames,
  * its termination flag, and (in place of the socket) `wire`, everything `sendall` wrote.
  * A `Node` owns the inbound and outbound links, admits connections, runs the connection
  * ladder of `connect_with_node`, keeps the reconnect list, and reports to its callback;
  * the callback is modelled by the log `events` of what it was called with.
  *
  * Sockets become their observable results: a `RecvResult` per `recv`, a `Dial` per
  * connect-and-handshake, a flag saying whether `sendall` succeeded.
  */
module Network {
  import opened Wrappers
  import opened Utf8
  import opened Text
  import opened Json
  import opened Framing

  /** A link's port: the number from the socket address, or the text after ':' in an identity line. */
  datatype PortVal = PortNum(n: int) | PortText(t: string)

  /** One call of the node's callback, by the name of the `Node` method that makes it. */
  datatype NodeEvent =
    | ServerStarted
    | NodeMessage(link: Link, data: Value)
    | OutboundConnected(link: Link)
    | OutboundDisconnected(link: Link)
    | InboundConnected(link: Link)
    | InboundDisconnected(link: Link)
    | RequestToStop
    | SendSuccess(link: Link)

  /** What one `sock.recv(4096)` gave: bytes (empty when the peer has closed), a timeout, or another error. */
  datatype RecvResult = Chunk(bytes: seq<byte>) | Timeout | Fail

  /** The chunk the loop appends: nothing on a timeout or an error (`chunk = b""`). */
  function ChunkOf(r: RecvResult): seq<byte> {
    if r.Chunk? then r.bytes else []
  }

  function Chunks(rs: seq<RecvResult>): (cs: seq<seq<byte>>)
    ensures |cs| == |rs| && forall i | 0 <= i < |rs| :: cs[i] == ChunkOf(rs[i])
  {
    seq(|rs|, i requires 0 <= i < |rs| => ChunkOf(rs[i]))
  }

  predicate Fails(rs: seq<RecvResult>) {
    exists i | 0 <= i < |rs| :: rs[i].Fail?
  }

  /** How many reads the receive thread performs: up to and including the first error. */
  function Consumed(rs: seq<RecvResult>): (n: nat)
    ensures n <= |rs|
  {
    if rs == [] then 0 else if rs[0].Fail? then 1 else 1 + Consumed(rs[1..])
  }

  /** One more read after the reads `rs` is made only when none of them failed. */
  lemma {:induction false} ConsumedSnoc(rs: seq<RecvResult>, x: RecvResult)
    ensures !Fails(rs) ==> Consumed(rs) == |rs|
    ensures Consumed(rs + [x]) == if Fails(rs) then Consumed(rs) else |rs| + 1
    ensures Fails(rs + [x]) <==> Fails(rs) || x.Fail?
    decreases |rs|
  {
    var longer := rs + [x];
    assert longer[|rs|] == x;
    assert Fails(rs) ==> Fails(longer) by {
      if Fails(rs) {
        var i :| 0 <= i < |rs| && rs[i].Fail?;
        assert longer[i] == rs[i];
      }
    }
    assert Fails(longer) ==> Fails(rs) || x.Fail? by {
      if Fails(longer) && !x.Fail? {
        var i :| 0 <= i < |longer| && longer[i].Fail?;
        assert rs[i] == longer[i];
      }
    }
    if rs != [] {
      assert longer[1..] == rs[1..] + [x];
      ConsumedSnoc(rs[1..], x);
      assert Fails(rs[1..]) ==> Fails(rs) by {
        if Fails(rs[1..]) {
          var i :| 0 <= i < |rs[1..]| && rs[1..][i].Fail?;
          assert rs[i + 1].Fail?;
        }
      }
      assert Fails(rs) ==> rs[0].Fail? || Fails(rs[1..]) by {
        if Fails(rs) && !rs[0].Fail? {
          var i :| 0 <= i < |rs| && rs[i].Fail?;
          assert rs[1..][i - 1].Fail?;
        }
      }
    }
  }

  /** The `node_message` calls made for the frames a link cut, in order. */
  function Delivered(link: Link, codec: JsonCodec, frames: seq<seq<byte>>): (es: seq<NodeEvent>)
    ensures |es| == |frames|
    ensures forall i | 0 <= i < |frames| :: es[i] == NodeMessage(link, ParsePacket(codec, frames[i]))
  {
    seq(|frames|, i requires 0 <= i < |frames| => NodeMessage(link, ParsePacket(codec, frames[i])))
  }

  /** The frames cut from `start` so far, then what `Drain` cuts from what is left, are what `Drain` cuts from `start`. */
  ghost predicate CutSoFar(start: seq<byte>, emitted: seq<seq<byte>>, buf: seq<byte>) {
    Drain(start) == Drained(emitted + Drain(buf).frames, Drain(buf).rest)
  }

  /** One pass of the inner receive loop keeps the frames cut so far in step with `Drain`. */
  lemma CutStep(start: seq<byte>, emitted: seq<seq<byte>>, buf: seq<byte>, packet: seq<byte>, rest: seq<byte>)
    requires CutSoFar(start, emitted, buf)
    requires 0 < Find(buf, EOT) && packet == buf[..Find(buf, EOT)] && rest == buf[Find(buf, EOT) + 1..]
    ensures CutSoFar(start, emitted + [packet], rest)
  {
    assert Cut(buf) == Some((packet, rest));
    DrainStep(buf, packet, rest);
    ShiftFrame(Drain(start), emitted, packet, Drain(buf), Drain(rest));
  }

  /** When the inner loop stops, it has cut exactly the frames `Drain` cuts. */
  lemma CutDone(start: seq<byte>, emitted: seq<seq<byte>>, buf: seq<byte>)
    requires CutSoFar(start, emitted, buf)
    requires Find(buf, EOT) <= 0
    ensures Drain(start) == Drained(emitted, buf)
  {
    DrainStuck(buf);
    Settled(Drain(start), emitted, Drain(buf), buf);
  }

  lemma DeliveredAppend(link: Link, codec: JsonCodec, a: seq<seq<byte>>, b: seq<seq<byte>>)
    ensures Delivered(link, codec, a + b) == Delivered(link, codec, a) + Delivered(link, codec, b)
  {
    var lhs, rhs := Delivered(link, codec, a + b), Delivered(link, codec, a) + Delivered(link, codec, b);
    forall i | 0 <= i < |a + b| ensures lhs[i] == rhs[i] {
      if i >= |a| {
        assert (a + b)[i] == b[i - |a|];
      }
    }
  }

  /** The bytes `send` puts on the wire when `sendall` succeeds iff `delivered`. */
  function Written(codec: JsonCodec, data: Value, delivered: bool): seq<byte>
    requires JsonLaws(codec)
  {
    var bytes := EncodePayload(codec, data);
    if bytes.Some? && delivered then bytes.value else []
  }

  /** `send` stops the link: it had bytes to write and `sendall` raised. */
  predicate Halts(codec: JsonCodec, data: Value, delivered: bool)
    requires JsonLaws(codec)
  {
    EncodePayload(codec, data).Some? && !delivered
  }

  /**
    * Whether handing some frame to the callback raises. The exception leaves `node_message`
    * and ends the receive thread: `raises` says, for a parsed frame, whether the callback
    * chain behind the node raises on it.
    */
  predicate Raises(codec: JsonCodec, frames: seq<seq<byte>>, raises: Value -> bool) {
    exists i | 0 <= i < |frames| :: raises(ParsePacket(codec, frames[i]))
  }

  /** The index of the first frame whose delivery raises, or the number of frames when none does. */
  function FirstRaise(codec: JsonCodec, frames: seq<seq<byte>>, raises: Value -> bool): (k: nat)
    ensures k <= |frames|
    ensures forall i | 0 <= i < k :: !raises(ParsePacket(codec, frames[i]))
    ensures k < |frames| <==> Raises(codec, frames, raises)
    ensures k < |frames| ==> raises(ParsePacket(codec, frames[k]))
  {
    if frames == [] || raises(ParsePacket(codec, frames[0])) then 0
    else
      var k := 1 + FirstRaise(codec, frames[1..], raises);
      assert forall i | 1 <= i < |frames| :: frames[1..][i - 1] == frames[i];
      k
  }

  /**
    * The frames the inner loop of `run` hands on: every one, or those up to and including
    * the first whose delivery raises. Only that last frame raises.
    */
  function Reached(codec: JsonCodec, frames: seq<seq<byte>>, raises: Value -> bool): (got: seq<seq<byte>>)
    ensures |got| <= |frames| && got == frames[..|got|]
    ensures !Raises(codec, frames, raises) ==> got == frames
    ensures Raises(codec, frames, raises) ==> got != []
    ensures forall i | 0 <= i < |got| ::
      raises(ParsePacket(codec, got[i])) <==> Raises(codec, frames, raises) && i == |got| - 1
  {
    var k := FirstRaise(codec, frames, raises);
    if k < |frames| then frames[..k + 1] else frames
  }

  /**
    * Where a receive thread stands: the frames it has handed on, its buffer, how many reads
    * it made, whether its termination flag is set, and whether a delivery raised and ended it.
    */
  datatype Progress = Progress(frames: seq<seq<byte>>, rest: seq<byte>, made: nat, flagged: bool, crashed: bool)

  /** One pass of the `run` loop on the read `r` from the buffer `buf`. */
  function Step(buf: seq<byte>, r: RecvResult, codec: JsonCodec, raises: Value -> bool): (s: Progress)
    ensures s.made == 1 && s.flagged == r.Fail?
    ensures !(s.flagged && s.crashed)
  {
    var d := if ChunkOf(r) == [] then Drained([], buf) else Drain(buf + ChunkOf(r));
    Progress(Reached(codec, d.frames, raises), d.rest, 1, r.Fail?, Raises(codec, d.frames, raises))
  }

  /**
    * The receive thread after it has been offered the reads `rs`: it stops after the first
    * read that fails or whose frames make a delivery raise, and makes no read after that.
    */
  function Reads(buf: seq<byte>, rs: seq<RecvResult>, codec: JsonCodec, raises: Value -> bool): (p: Progress)
    ensures p.made <= |rs|
    ensures !(p.flagged && p.crashed)
    decreases |rs|
  {
    if rs == [] then Progress([], buf, 0, false, false)
    else
      var p := Reads(buf, rs[..|rs| - 1], codec, raises);
      if p.flagged || p.crashed then p
      else
        var s := Step(p.rest, rs[|rs| - 1], codec, raises);
        Progress(p.frames + s.frames, s.rest, p.made + 1, s.flagged, s.crashed)
  }

  /** The whole receive thread: with its flag already set it makes no read at all. */
  function Thread(flagged: bool, buf: seq<byte>, rs: seq<RecvResult>, codec: JsonCodec, raises: Value -> bool): Progress {
    if flagged then Progress([], buf, 0, true, false) else Reads(buf, rs, codec, raises)
  }

  /** A thread still running makes the next read offered to it. */
  lemma ReadsSnoc(buf: seq<byte>, rs: seq<RecvResult>, n: nat, codec: JsonCodec, raises: Value -> bool)
    requires n < |rs|
    requires var p := Reads(buf, rs[..n], codec, raises); !p.flagged && !p.crashed
    ensures var p := Reads(buf, rs[..n], codec, raises);
      var s := Step(p.rest, rs[n], codec, raises);
      Reads(buf, rs[..n + 1], codec, raises) == Progress(p.frames + s.frames, s.rest, p.made + 1, s.flagged, s.crashed)
  {
    assert rs[..n + 1][..n] == rs[..n] && rs[..n + 1][n] == rs[n];
  }

  /** Reads offered after the thread has stopped change nothing. */
  lemma {:induction false} ReadsStay(buf: seq<byte>, rs: seq<RecvResult>, n: nat, codec: JsonCodec, raises: Value -> bool)
    requires n <= |rs|
    requires Reads(buf, rs[..n], codec, raises).flagged || Reads(buf, rs[..n], codec, raises).crashed
    ensures Reads(buf, rs, codec, raises) == Reads(buf, rs[..n], codec, raises)
    decreases |rs| - n
  {
    if n < |rs| {
      assert rs[..n + 1][..n] == rs[..n];
      ReadsStay(buf, rs, n + 1, codec, raises);
    } else {
      assert rs[..n] == rs;
    }
  }

  /**
    * With a callback that never raises, the thread reads up to and including the first
    * failing read, hands on every frame of the stream read so far, and stops exactly
    * when a read fails.
    */
  lemma {:induction false} ReadsQuiet(buf: seq<byte>, rs: seq<RecvResult>, codec: JsonCodec, raises: Value -> bool)
    requires forall v :: !raises(v)
    ensures var m := Consumed(rs);
      var d := Feed(buf, Chunks(rs[..m]));
      Reads(buf, rs, codec, raises) == Progress(d.frames, d.rest, m, Fails(rs), false)
    decreases |rs|
  {
    if rs == [] {
      assert Chunks(rs[..0]) == [];
      assert !Fails(rs);
    } else {
      var before, x := rs[..|rs| - 1], rs[|rs| - 1];
      assert rs == before + [x];
      ReadsQuiet(buf, before, codec, raises);
      QuietSnoc(buf, before, x, codec, raises);
    }
  }

  /** `ReadsQuiet` carried over one more offered read. */
  lemma QuietSnoc(buf: seq<byte>, before: seq<RecvResult>, x: RecvResult, codec: JsonCodec, raises: Value -> bool)
    requires forall v :: !raises(v)
    requires var m := Consumed(before);
      var d := Feed(buf, Chunks(before[..m]));
      Reads(buf, before, codec, raises) == Progress(d.frames, d.rest, m, Fails(before), false)
    ensures var rs := before + [x]; var m := Consumed(rs);
      var d := Feed(buf, Chunks(rs[..m]));
      Reads(buf, rs, codec, raises) == Progress(d.frames, d.rest, m, Fails(rs), false)
  {
    var rs := before + [x];
    ConsumedSnoc(before, x);
    var m := Consumed(before);
    if Fails(before) {
      assert rs[..|rs| - 1] == before;
      assert rs[..m] == before[..m];
    } else {
      assert before[..m] == before && rs[..m + 1] == rs;
      QuietStep(buf, before, x, codec, raises);
    }
  }

  /** One more read by a quiet thread that has seen no error continues the stream's frames. */
  lemma QuietStep(buf: seq<byte>, before: seq<RecvResult>, x: RecvResult, codec: JsonCodec, raises: Value -> bool)
    requires forall v :: !raises(v)
    requires var d := Feed(buf, Chunks(before));
      Reads(buf, before, codec, raises) == Progress(d.frames, d.rest, |before|, false, false)
    ensures var d := Feed(buf, Chunks(before + [x]));
      Reads(buf, before + [x], codec, raises) == Progress(d.frames, d.rest, |before| + 1, x.Fail?, false)
  {
    var rs := before + [x];
    assert rs[..|rs| - 1] == before && rs[|rs| - 1] == x;
    var p := Reads(buf, before, codec, raises);
    var c := ChunkOf(x);
    var d := if c == [] then Drained([], p.rest) else Drain(p.rest + c);
    assert !Raises(codec, d.frames, raises);
    assert Step(p.rest, x, codec, raises) == Progress(d.frames, d.rest, 1, x.Fail?, false);
    assert Reads(buf, rs, codec, raises) == Progress(p.frames + d.frames, d.rest, |before| + 1, x.Fail?, false);
    assert Chunks(rs) == Chunks(before) + [c];
    FeedSnoc(buf, Chunks(before), c);
  }

  /**
    * A delivery raises only as the last thing the thread does: every frame handed on
    * before it was harmless, and the thread ended by an exception iff its last frame raised.
    */
  lemma {:induction false} ReadsCrashLast(buf: seq<byte>, rs: seq<RecvResult>, codec: JsonCodec, raises: Value -> bool)
    ensures LastOnlyRaises(Reads(buf, rs, codec, raises), codec, raises)
    decreases |rs|
  {
    if rs != [] {
      var before := rs[..|rs| - 1];
      ReadsCrashLast(buf, before, codec, raises);
      var p := Reads(buf, before, codec, raises);
      if !p.flagged && !p.crashed {
        var x := rs[|rs| - 1];
        var d := if ChunkOf(x) == [] then Drained([], p.rest) else Drain(p.rest + ChunkOf(x));
        var s := Step(p.rest, x, codec, raises);
        assert s.frames == Reached(codec, d.frames, raises) && s.crashed == Raises(codec, d.frames, raises);
        assert Reads(buf, rs, codec, raises) == Progress(p.frames + s.frames, s.rest, p.made + 1, s.flagged, s.crashed);
        LastRaises(codec, raises, p.frames, s.frames, s.crashed);
      } else {
        assert Reads(buf, rs, codec, raises) == p;
      }
    }
  }

  /**
    * A callback that raises only cuts the delivery short: the thread hands on a prefix of
    * what it hands on with a callback that never raises, and, when no delivery raised,
    * ends in the same state.
    */
  lemma {:induction false} ReadsCutShort(buf: seq<byte>, rs: seq<RecvResult>, codec: JsonCodec,
                                         raises: Value -> bool, quiet: Value -> bool)
    requires forall v :: !quiet(v)
    ensures Reads(buf, rs, codec, raises).frames <= Reads(buf, rs, codec, quiet).frames
    ensures !Reads(buf, rs, codec, raises).crashed ==> Reads(buf, rs, codec, raises) == Reads(buf, rs, codec, quiet)
    decreases |rs|
  {
    if rs != [] {
      var before, x := rs[..|rs| - 1], rs[|rs| - 1];
      ReadsCutShort(buf, before, codec, raises, quiet);
      var p, q := Reads(buf, before, codec, raises), Reads(buf, before, codec, quiet);
      var q' := Reads(buf, rs, codec, quiet);
      assert q.frames <= q'.frames by {
        if !q.flagged && !q.crashed {
          assert q'.frames == q.frames + Step(q.rest, x, codec, quiet).frames;
        }
      }
      if !p.crashed && !p.flagged {
        var c := ChunkOf(x);
        var d := if c == [] then Drained([], p.rest) else Drain(p.rest + c);
        assert !Raises(codec, d.frames, quiet);
        assert Step(p.rest, x, codec, quiet).frames == d.frames;
        assert Step(p.rest, x, codec, raises).frames <= d.frames;
      }
    }
  }

  /** Of the frames handed on, the last raises if the thread crashed, and no other one does. */
  predicate LastOnlyRaises(p: Progress, codec: JsonCodec, raises: Value -> bool) {
    forall i | 0 <= i < |p.frames| ::
      raises(ParsePacket(codec, p.frames[i])) <==> p.crashed && i == |p.frames| - 1
  }

  /** Harmless frames followed by frames of which at most the last raises. */
  lemma LastRaises(codec: JsonCodec, raises: Value -> bool, before: seq<seq<byte>>, after: seq<seq<byte>>, crashed: bool)
    requires forall i | 0 <= i < |before| :: !raises(ParsePacket(codec, before[i]))
    requires crashed ==> after != []
    requires forall j | 0 <= j < |after| :: raises(ParsePacket(codec, after[j])) <==> crashed && j == |after| - 1
    ensures forall i | 0 <= i < |before + after| ::
      raises(ParsePacket(codec, (before + after)[i])) <==> crashed && i == |before + after| - 1
  {
    forall i | 0 <= i < |before + after|
      ensures raises(ParsePacket(codec, (before + after)[i])) <==> crashed && i == |before + after| - 1
    {
      if i >= |before| {
        assert (before + after)[i] == after[i - |before|];
      }
    }
  }

  /** `NodeConnection`: one connection to a peer. */
  class Link {
    const owner: Node
    const id: string
    const host: string
    const port: PortVal
    var buffer: seq<byte>
    var stopped: bool
    var wire: seq<byte>

    constructor (owner: Node, id: string, host: string, port: PortVal)
      ensures this.owner == owner && this.id == id && this.host == host && this.port == port
      ensures buffer == [] && !stopped && wire == []
    {
      this.owner := owner;
      this.id := id;
      this.host := host;
      this.port := port;
      buffer := [];
      stopped := false;
      wire := [];
    }

    /** `stop`: raise the termination flag. */
    method Stop()
      modifies this`stopped
      ensures stopped
    {
      stopped := true;
    }

    /**
      * `send`: a str, a serialisable dict or bytes is written followed by one delimiter;
      * anything else, or a dict `json.dumps` rejects, writes nothing and keeps the link;
      * a failing `sendall` writes nothing and stops the link.
      */
    method Send(data: Value, codec: JsonCodec, delivered: bool)
      requires JsonLaws(codec)
      modifies this`wire, this`stopped
      ensures wire == old(wire) + Written(codec, data, delivered)
      ensures stopped == (old(stopped) || Halts(codec, data, delivered))
    {
      var bytes := EncodePayload(codec, data);
      if bytes.Some? {
        if delivered {
          wire := wire + bytes.value;
        } else {
          Stop();
        }
      }
    }

    /**
      * One pass of the `run` loop with the given read: a non-empty chunk is appended to the
      * buffer and every frame whose delimiter sits above index 0 is cut off, counted on the
      * owner and handed to its `node_message`, in wire order, until a delivery raises.
      */
    method Receive(r: RecvResult, codec: JsonCodec, raises: Value -> bool) returns (crashed: bool)
      modifies this`buffer, this`stopped, owner`messageCountRecv, owner`events
      ensures var s := Step(old(buffer), r, codec, raises);
        stopped == (old(stopped) || s.flagged) && crashed == s.crashed && buffer == s.rest &&
        owner.messageCountRecv == old(owner.messageCountRecv) + |s.frames| &&
        owner.events == old(owner.events) + Delivered(this, codec, s.frames)
    {
      if r.Fail? {
        stopped := true;
      }
      var chunk := ChunkOf(r);
      if chunk == [] {
        return false;
      }
      crashed := Absorb(chunk, codec, raises);
    }

    /** A non-empty chunk joins the buffer, and the frames it completes are cut and handed on. */
    method Absorb(chunk: seq<byte>, codec: JsonCodec, raises: Value -> bool) returns (crashed: bool)
      modifies this`buffer, owner`messageCountRecv, owner`events
      ensures var d := Drain(old(buffer) + chunk);
        crashed == Raises(codec, d.frames, raises) && buffer == d.rest &&
        owner.messageCountRecv == old(owner.messageCountRecv) + |Reached(codec, d.frames, raises)| &&
        owner.events == old(owner.events) + Delivered(this, codec, Reached(codec, d.frames, raises))
    {
      buffer := buffer + chunk;
      var frames := CutFrames();
      crashed := owner.DeliverAll(this, codec, frames, raises);
    }

    /** The inner `while eot_pos > 0` loop of `run`, cutting: every frame it reaches, in order. */
    method CutFrames() returns (frames: seq<seq<byte>>)
      modifies this`buffer
      ensures Drain(old(buffer)) == Drained(frames, buffer)
    {
      ghost var start := buffer;
      frames := [];
      assert CutSoFar(start, [], buffer);
      var pos := Find(buffer, EOT);
      while pos > 0
        invariant pos == Find(buffer, EOT)
        invariant CutSoFar(start, frames, buffer)
        decreases |buffer|
      {
        var packet := buffer[..pos];
        var rest := buffer[pos + 1..];
        CutStep(start, frames, buffer, packet, rest);
        buffer := rest;
        frames := frames + [packet];
        pos := Find(buffer, EOT);
      }
      CutDone(start, frames, buffer);
    }

    /**
      * `run`: read until the termination flag is raised (a read error raises it), then close
      * and report the disconnection to the owner. `results` are the results of successive
      * `recv` calls; `n` is how many were made. A delivery that raises ends the thread on the
      * spot: no close, no report, and the link stays in the owner's sets. A thread still
      * running when `results` runs out has not disconnected.
      */
    method Run(results: seq<RecvResult>, codec: JsonCodec, raises: Value -> bool) returns (n: nat, crashed: bool)
      requires owner.Valid()
      modifies this`buffer, this`stopped, owner`messageCountRecv, owner`events, owner`inbound, owner`outbound
      ensures owner.Valid()
      ensures var p := Thread(old(stopped), old(buffer), results, codec, raises);
        n == p.made && stopped == p.flagged && crashed == p.crashed && buffer == p.rest &&
        owner.messageCountRecv == old(owner.messageCountRecv) + |p.frames| &&
        owner.events == old(owner.events) + Delivered(this, codec, p.frames) +
          (if stopped then owner.Farewell(this, old(owner.inbound), old(owner.outbound)) else [])
      ensures stopped ==> owner.inbound == old(owner.inbound) - {this} && owner.outbound == old(owner.outbound) - {this}
      ensures !stopped ==> owner.inbound == old(owner.inbound) && owner.outbound == old(owner.outbound)
    {
      n, crashed := ReadLoop(results, codec, raises);
      if stopped {
        owner.NodeDisconnected(this);
      }
    }

    /** The `while not terminate_flag` loop of `run`, left early by a delivery that raises. */
    method ReadLoop(results: seq<RecvResult>, codec: JsonCodec, raises: Value -> bool) returns (n: nat, crashed: bool)
      modifies this`buffer, this`stopped, owner`messageCountRecv, owner`events
      ensures var p := Thread(old(stopped), old(buffer), results, codec, raises);
        n == p.made && stopped == p.flagged && crashed == p.crashed &&
        Accounted(this, codec, old(owner.messageCountRecv), old(owner.events), Drained(p.frames, p.rest),
          buffer, owner.messageCountRecv, owner.events)
    {
      n, crashed := 0, false;
      if stopped {
        return;
      }
      ghost var b0, c0, e0 := buffer, owner.messageCountRecv, owner.events;
      while n < |results| && !stopped && !crashed
        invariant n <= |results|
        invariant var p := Reads(b0, results[..n], codec, raises);
          p.made == n && stopped == p.flagged && crashed == p.crashed &&
          Accounted(this, codec, c0, e0, Drained(p.frames, p.rest), buffer, owner.messageCountRecv, owner.events)
      {
        ghost var buf, count, events := buffer, owner.messageCountRecv, owner.events;
        ghost var p := Reads(b0, results[..n], codec, raises);
        crashed := Receive(results[n], codec, raises);
        ghost var s := Step(buf, results[n], codec, raises);
        ReadsSnoc(b0, results, n, codec, raises);
        AccountedStep(this, codec, c0, e0, Drained(p.frames, p.rest), Drained(s.frames, s.rest),
          buf, count, events, buffer, owner.messageCountRecv, owner.events);
        n := n + 1;
      }
      if n < |results| {
        ReadsStay(b0, results, n, codec, raises);
      } else {
        assert results[..n] == results;
      }
    }
  }

  /**
    * Starting from count `c0` and log `e0`, the reads whose outcome is `d` leave the
    * buffer, the owner's count and its log as `d` says.
    */
  ghost predicate Accounted(link: Link, codec: JsonCodec, c0: int, e0: seq<NodeEvent>, d: Drained,
                            buf: seq<byte>, count: int, events: seq<NodeEvent>)
  {
    buf == d.rest && count == c0 + |d.frames| && events == e0 + Delivered(link, codec, d.frames)
  }

  /** Accounts of two successive stretches of reads chain into one. */
  lemma AccountedStep(link: Link, codec: JsonCodec, c0: int, e0: seq<NodeEvent>, before: Drained, step: Drained,
                      buf: seq<byte>, count: int, events: seq<NodeEvent>,
                      buf': seq<byte>, count': int, events': seq<NodeEvent>)
    requires Accounted(link, codec, c0, e0, before, buf, count, events)
    requires Accounted(link, codec, count, events, step, buf', count', events')
    ensures Accounted(link, codec, c0, e0, Drained(before.frames + step.frames, step.rest), buf', count', events')
  {
    DeliveredAppend(link, codec, before.frames, step.frames);
    assert events' == e0 + (Delivered(link, codec, before.frames) + Delivered(link, codec, step.frames));
  }

  /** An entry of `reconnect_to_nodes`: `{"host": host, "port": port, "tries": tries}`. */
  datatype Target = Target(host: string, port: int, tries: int)

  /** Result of accepting one connection on the listening socket. */
  datatype Admission =
    | Refused                               // over the inbound cap: closed without a handshake
    | Crashed                               // the identity line raised; `run` re-raises it
    | Admitted(link: Link, reply: string)     // registered; `reply` is our id, sent back UTF-8 encoded

  /** Connecting and exchanging identities: the peer is unreachable, or it answered `reply`. */
  datatype Dial = Unreachable | Answered(reply: seq<byte>)

  /** What `connect_with_node` sends first, before UTF-8 encoding: `"{id}:{port}"`. */
  function Hello(id: string, port: int): string {
    id + ":" + IntToString(port)
  }

  /** What `connect_with_node` sends before closing a duplicate connection. */
  const Closing: string := "CLOSING: Already have connection together"

  /**
    * The identity line a connecting peer sends: its id, or `id:port`, which replaces the
    * socket's source port by the text after ':' (still a string). None where Python
    * raises: the bytes are not UTF-8, or there is more than one ':' to unpack.
    */
  function ParseIdentity(identity: seq<byte>, sourcePort: int): (r: Option<(string, PortVal)>)
    ensures r.Some? ==> ':' !in r.value.0
  {
    match Decode(identity)
    case None => None
    case Some(text) =>
      if ':' in text then
        var parts := Split(text, ":");
        if |parts| == 2 then
          ContainsChar(parts[0], ':');
          Some((parts[0], PortText(parts[1])))
        else None
      else Some((text, PortNum(sourcePort)))
  }

  /** The admitting side reads back exactly the id and port the connecting side sent in `Hello`. */
  lemma HelloIdentity(id: string, port: int, sourcePort: int)
    requires ':' !in id
    ensures ParseIdentity(Encode(Hello(id, port)), sourcePort) == Some((id, PortText(IntToString(port))))
  {
    var digits := IntToString(port);
    assert ':' !in digits;
    DecodeEncode(id + ":" + digits);
    assert id + ":" + digits == id + [':'] + digits;
    assert ':' in id + ":" + digits by {
      assert (id + ":" + digits)[|id|] == ':';
    }
    SplitAround(id, digits, ':');
  }

  /** A bare id keeps the socket's source port. */
  lemma BareIdentity(id: string, sourcePort: int)
    requires ':' !in id
    ensures ParseIdentity(Encode(id), sourcePort) == Some((id, PortNum(sourcePort)))
  {
    DecodeEncode(id);
  }

  /** A line with two or more ':' crashes the admission. */
  lemma TwoColonsCrash(a: string, b: string, c: string, sourcePort: int)
    ensures ParseIdentity(Encode(a + ":" + b + ":" + c), sourcePort).None?
  {
    var text := a + ":" + b + ":" + c;
    DecodeEncode(text);
    assert text[|a|] == ':';
    var parts := Split(text, ":");
    if |parts| == 2 {
      assert text == parts[0] + ":" + parts[1];
      ContainsChar(parts[0], ':');
      ContainsChar(parts[1], ':');
      ColonCount(a, b, c, parts[0], parts[1]);
    }
  }

  /** `a:b:c` holds two ':' while `p:q` with ':'-free pieces holds one. */
  lemma ColonCount(a: string, b: string, c: string, p: string, q: string)
    requires ':' !in p && ':' !in q
    ensures a + ":" + b + ":" + c != p + ":" + q
  {
    var s := a + ":" + b + ":" + c;
    assert s[|a|] == ':' && s[|a| + 1 + |b|] == ':';
    OnlyColon(p, q);
  }

  lemma OnlyColon(p: string, q: string)
    requires ':' !in p && ':' !in q
    ensures forall k | 0 <= k < |p + ":" + q| && (p + ":" + q)[k] == ':' :: k == |p|
  {
    var s := p + ":" + q;
    forall k | 0 <= k < |s| && k != |p| ensures s[k] != ':' {
      if k < |p| {
        assert s[k] == p[k];
      } else {
        assert s[k] == q[k - |p| - 1];
      }
    }
  }

  /**
    * The reconnect sweep as it was evidently meant to run (see `SweepAsWritten` and
    * `SweepInPlace` for the code as written): target `i` found connected gets `tries := 0`;
    * otherwise `tries` grows by one and the target stays iff the policy agrees.
    */
  function Swept(ts: seq<Target>, found: seq<bool>, policy: (string, int, int) -> bool): seq<Target>
    requires |found| == |ts|
  {
    if ts == [] then []
    else
      var n := |ts| - 1;
      Swept(ts[..n], found[..n], policy) + SweepOne(ts[n], found[n], policy)
  }

  lemma SweptSnoc(ts: seq<Target>, i: nat, found: seq<bool>, hit: bool, policy: (string, int, int) -> bool)
    requires i < |ts| && |found| == i
    ensures Swept(ts[..i + 1], found + [hit], policy) == Swept(ts[..i], found, policy) + SweepOne(ts[i], hit, policy)
  {
    assert ts[..i + 1][..i] == ts[..i] && (found + [hit])[..i] == found;
  }

  /** The links a sweep's redials made, one slot per visited target. */
  function Made(made: seq<Option<Link>>): set<Link> {
    if made == [] then {}
    else
      var n := |made| - 1;
      Made(made[..n]) + if made[n].Some? then {made[n].value} else {}
  }

  /** The `outbound_node_connected` reports those redials gave, in visiting order. */
  function Reports(made: seq<Option<Link>>): seq<NodeEvent> {
    if made == [] then []
    else
      var n := |made| - 1;
      Reports(made[..n]) + if made[n].Some? then [OutboundConnected(made[n].value)] else []
  }

  lemma MadeSnoc(made: seq<Option<Link>>, m: Option<Link>)
    ensures Made(made + [m]) == Made(made) + if m.Some? then {m.value} else {}
    ensures Reports(made + [m]) == Reports(made) + if m.Some? then [OutboundConnected(m.value)] else []
  {
    assert (made + [m])[..|made|] == made;
  }

  function SweepOne(t: Target, found: bool, policy: (string, int, int) -> bool): seq<Target> {
    if found then [t.(tries := 0)]
    else if policy(t.host, t.port, t.tries + 1) then [t.(tries := t.tries + 1)]
    else []
  }

  /** `node_reconnection_error`: the policy the node ships with always retries. */
  function DefaultPolicy(host: string, port: int, tries: int): bool {
    true
  }

  /** The sweep removes a target only where the policy said no, and otherwise keeps the list's order. */
  lemma {:induction false} SweptKeepsAll(ts: seq<Target>, found: seq<bool>, policy: (string, int, int) -> bool)
    requires |found| == |ts|
    ensures |Swept(ts, found, policy)| == |ts| <==>
      forall i | 0 <= i < |ts| :: found[i] || policy(ts[i].host, ts[i].port, ts[i].tries + 1)
    ensures |Swept(ts, found, policy)| == |ts| ==> forall i | 0 <= i < |ts| ::
      var t := Swept(ts, found, policy)[i];
      t.host == ts[i].host && t.port == ts[i].port && t.tries == (if found[i] then 0 else ts[i].tries + 1)
  {
    if ts != [] {
      var n := |ts| - 1;
      SweptKeepsAll(ts[..n], found[..n], policy);
      SweptShorter(ts[..n], found[..n], policy);
    }
  }

  lemma {:induction false} SweptShorter(ts: seq<Target>, found: seq<bool>, policy: (string, int, int) -> bool)
    requires |found| == |ts|
    ensures |Swept(ts, found, policy)| <= |ts|
  {
    if ts != [] {
      var n := |ts| - 1;
      SweptShorter(ts[..n], found[..n], policy);
    }
  }

  /** With the shipped policy nothing is ever removed. */
  lemma DefaultPolicyKeepsAll(ts: seq<Target>, found: seq<bool>)
    requires |found| == |ts|
    ensures |Swept(ts, found, DefaultPolicy)| == |ts|
  {
    SweptKeepsAll(ts, found, DefaultPolicy);
  }

  /**
    * `reconnect_nodes` as written: line 388 reads an attribute of a str, so the first target
    * not found connected (after its `tries` grew) raises AttributeError and ends the sweep,
    * and the exception escapes `run`. Returns the list and whether it raised.
    */
  function SweepAsWritten(ts: seq<Target>, connected: set<(string, int)>): (r: (seq<Target>, bool))
    ensures |r.0| == |ts|
  {
    if ts == [] then ([], false)
    else if (ts[0].host, ts[0].port) in connected then
      var rest := SweepAsWritten(ts[1..], connected);
      ([ts[0].(tries := 0)] + rest.0, rest.1)
    else ([ts[0].(tries := ts[0].tries + 1)] + ts[1..], true)
  }

  /** As written, any target that is not connected kills the node's thread, so nothing is ever reconnected. */
  lemma {:induction false} AsWrittenSweepCrashes(ts: seq<Target>, connected: set<(string, int)>)
    ensures SweepAsWritten(ts, connected).1 <==>
      exists i | 0 <= i < |ts| :: (ts[i].host, ts[i].port) !in connected
  {
    if ts != [] {
      AsWrittenSweepCrashes(ts[1..], connected);
      if (ts[0].host, ts[0].port) in connected {
        assert (exists i | 0 <= i < |ts| :: (ts[i].host, ts[i].port) !in connected) <==>
          (exists i | 0 <= i < |ts[1..]| :: (ts[1..][i].host, ts[1..][i].port) !in connected) by {
          if exists i | 0 <= i < |ts| :: (ts[i].host, ts[i].port) !in connected {
            var i :| 0 <= i < |ts| && (ts[i].host, ts[i].port) !in connected;
            assert ts[1..][i - 1] == ts[i];
          }
          if exists i | 0 <= i < |ts[1..]| :: (ts[1..][i].host, ts[1..][i].port) !in connected {
            var i :| 0 <= i < |ts[1..]| && (ts[1..][i].host, ts[1..][i].port) !in connected;
            assert ts[i + 1] == ts[1..][i];
          }
        }
      }
    }
  }

  /** `list.remove(x)`: drop the first element equal to `x`. */
  function RemoveFirst(ts: seq<Target>, x: Target): (r: seq<Target>)
    ensures |r| == if x in ts then |ts| - 1 else |ts|
  {
    if ts == [] then [] else if ts[0] == x then ts[1..] else [ts[0]] + RemoveFirst(ts[1..], x)
  }

  /**
    * The sweep with line 388 repaired but line 397 as written: the loop walks the list by
    * position while removing from it, so the target after a removed one is never visited.
    * Reconnection attempts are left out: only the list is followed.
    */
  function SweepInPlace(ts: seq<Target>, i: nat, connected: set<(string, int)>,
                        policy: (string, int, int) -> bool): seq<Target>
    decreases |ts| - i
  {
    if i >= |ts| then ts
    else
      var t := ts[i];
      if (t.host, t.port) in connected then SweepInPlace(ts[i := t.(tries := 0)], i + 1, connected, policy)
      else
        var t' := t.(tries := t.tries + 1);
        var ts' := ts[i := t'];
        if policy(t.host, t.port, t'.tries) then SweepInPlace(ts', i + 1, connected, policy)
        else SweepInPlace(RemoveFirst(ts', t'), i + 1, connected, policy)
  }

  function NeverRetry(host: string, port: int, tries: int): bool {
    false
  }

  /**
    * Two disconnected targets and a policy that gives up: as written the second target is
    * skipped and survives with its count unchanged; the intended sweep removes both.
    */
  lemma InPlaceRemovalSkips()
    ensures var a, b := Target("10.0.0.1", 20001, 3), Target("10.0.0.2", 20002, 7);
      SweepInPlace([a, b], 0, {}, NeverRetry) == [b] &&
      Swept([a, b], [false, false], NeverRetry) == []
  {
    var a, b := Target("10.0.0.1", 20001, 3), Target("10.0.0.2", 20002, 7);
    var a' := a.(tries := 4);
    assert [a, b][0 := a'] == [a', b];
    assert RemoveFirst([a', b], a') == [b];
    assert [a, b][..1] == [a] && [false, false][..1] == [false];
    assert [a][..0] == [] && [false][..0] == [];
    assert !NeverRetry(a.host, a.port, a.tries + 1) && !NeverRetry(b.host, b.port, b.tries + 1);
    assert SweepOne(a, false, NeverRetry) == [] && SweepOne(b, false, NeverRetry) == [];
    assert Swept([a], [false], NeverRetry) == [];
  }

  /** `Node`: the listening side, the link sets and the reconnect list. */
  class Node {
    const host: string
    const port: int
    const id: string
    const maxConnection: int
    var inbound: set<Link>
    var outbound: set<Link>
    var messageCountRecv: nat
    var targets: seq<Target>
    var stopping: bool             // the termination flag
    var events: seq<NodeEvent>

    /**
      * Links belong to this node; a link is inbound or outbound, not both; admission never
      * takes the inbound set past the cap; outbound links use numeric ports and no two
      * share an address.
      */
    ghost predicate Valid()
      reads this`inbound, this`outbound
    {
      (forall l | l in inbound :: l.owner == this) &&
      (forall l | l in outbound :: l.owner == this && l.port.PortNum?) &&
      inbound !! outbound &&
      (|inbound| <= maxConnection || inbound == {}) &&
      (forall a, b | a in outbound && b in outbound && a.host == b.host && a.port == b.port :: a == b)
    }

    /** What `node_disconnected(link)` reports, given the link sets it found. */
    function Farewell(link: Link, ins: set<Link>, outs: set<Link>): seq<NodeEvent> {
      (if link in ins then [InboundDisconnected(link)] else []) +
      (if link in outs then [OutboundDisconnected(link)] else [])
    }

    /** `all_nodes` */
    function AllNodes(): (r: set<Link>)
      reads this`inbound, this`outbound
      ensures inbound <= r && outbound <= r && r <= inbound + outbound
    {
      inbound + outbound
    }

    /** `total_connection` */
    function TotalConnection(): (r: nat)
      reads this`inbound, this`outbound
      ensures r >= |inbound| && r >= |outbound|
    {
      |inbound| + |outbound|
    }

    /** An outbound link to this address exists. */
    function Connected(host: string, port: int): bool
      reads this`outbound
    {
      exists l | l in outbound :: l.host == host && l.port == PortNum(port)
    }

    /** One of the links `ls` goes out to this address. */
    ghost predicate LinkTo(ls: set<Link>, host: string, port: int) {
      exists l | l in ls :: l.host == host && l.port == PortNum(port)
    }

    /** An inbound link from `host` with id `id` exists. */
    function Echo(host: string, id: string): bool
      reads this`inbound
    {
      exists l | l in inbound :: l.host == host && l.id == id
    }

    constructor (host: string, port: int, maxConnection: int, id: Option<string>, generatedId: string)
      ensures this.host == host && this.port == port && this.maxConnection == maxConnection
      ensures this.id == (if id.Some? then id.value else generatedId)
      ensures inbound == {} && outbound == {} && messageCountRecv == 0 && targets == [] && !stopping
      ensures events == [ServerStarted]
      ensures Valid()
    {
      this.host := host;
      this.port := port;
      this.maxConnection := maxConnection;
      this.id := if id.Some? then id.value else generatedId;
      inbound := {};
      outbound := {};
      messageCountRecv := 0;
      targets := [];
      stopping := false;
      events := [ServerStarted];
    }

    /** `node_message`: pass a parsed frame to the callback. */
    method DeliverMessage(link: Link, data: Value)
      modifies this`events
      ensures events == old(events) + [NodeMessage(link, data)]
    {
      events := events + [NodeMessage(link, data)];
    }

    /**
      * The inner loop of `run`, delivering: for each frame cut, count it, then pass it on;
      * a delivery that raises leaves the loop, and the thread, at once.
      */
    method DeliverAll(link: Link, codec: JsonCodec, frames: seq<seq<byte>>, raises: Value -> bool) returns (crashed: bool)
      modifies this`messageCountRecv, this`events
      ensures crashed == Raises(codec, frames, raises)
      ensures var got := Reached(codec, frames, raises);
        messageCountRecv == old(messageCountRecv) + |got| &&
        events == old(events) + Delivered(link, codec, got)
    {
      ghost var k := FirstRaise(codec, frames, raises);
      var i := 0;
      crashed := false;
      while i < |frames| && !crashed
        invariant i <= |frames|
        invariant if crashed then k < |frames| && i == k + 1 else i <= k
        invariant messageCountRecv == old(messageCountRecv) + i
        invariant events == old(events) + Delivered(link, codec, frames[..i])
      {
        DeliveredAppend(link, codec, frames[..i], [frames[i]]);
        assert frames[..i + 1] == frames[..i] + [frames[i]];
        messageCountRecv := messageCountRecv + 1;
        var data := ParsePacket(codec, frames[i]);
        DeliverMessage(link, data);
        crashed := raises(data);
        i := i + 1;
      }
      assert !crashed ==> frames[..i] == frames;
    }

    /**
      * The body of `run` for one accepted connection from `clientHost:clientPort` whose
      * first `recv` gave `identity`: admitted only while the inbound set is under the cap.
      */
    method Accept(clientHost: string, clientPort: int, identity: seq<byte>) returns (r: Admission)
      requires Valid()
      modifies this`inbound, this`events
      ensures Valid()
      ensures r.Refused? <==> |old(inbound)| >= maxConnection
      ensures r.Crashed? <==> |old(inbound)| < maxConnection && ParseIdentity(identity, clientPort).None?
      ensures !r.Admitted? ==> inbound == old(inbound) && events == old(events)
      ensures r.Admitted? ==> (
        fresh(r.link) && r.link.owner == this && r.link.host == clientHost &&
        (r.link.id, r.link.port) == ParseIdentity(identity, clientPort).value &&
        r.link.buffer == [] && !r.link.stopped && r.link.wire == [] &&
        r.reply == id &&
        inbound == old(inbound) + {r.link} && |inbound| == |old(inbound)| + 1 &&
        events == old(events) + [InboundConnected(r.link)])
    {
      if |inbound| < maxConnection {
        var parsed := ParseIdentity(identity, clientPort);
        if parsed.None? {
          return Crashed;
        }
        var (remoteId, remotePort) := parsed.value;
        var link := new Link(this, remoteId, clientHost, remotePort);
        inbound := inbound + {link};
        events := events + [InboundConnected(link)];
        r := Admitted(link, id);
      } else {
        r := Refused;
      }
    }

    /**
      * `connect_with_node(host, port, reconnect)`; `dial` is what connecting and reading the
      * peer's id gave. `r` is the return value (None where Python returns None), `sent` the
      * messages written to the new socket (each UTF-8 encoded on the wire), `made` the link registered, if any.
      */
    method ConnectWithNode(host: string, port: int, reconnect: bool, dial: Dial)
      returns (r: Option<bool>, sent: seq<string>, made: Option<Link>)
      requires Valid()
      modifies this`outbound, this`events, this`targets
      ensures Valid()
      ensures host == this.host && port == this.port ==> r == Some(false) && sent == [] && made.None?
      ensures !(host == this.host && port == this.port) && old(Connected(host, port)) ==>
        r == Some(true) && sent == [] && made.None?
      ensures !(host == this.host && port == this.port) && !old(Connected(host, port)) ==>
        (if dial.Unreachable? then r == Some(false) && sent == [] && made.None?
         else
           match Decode(dial.reply)
           case None => r == Some(false) && sent == [Hello(id, this.port)] && made.None?
           case Some(text) =>
             if text == id || old(Echo(host, text)) then
               r == Some(true) && sent == [Hello(id, this.port), Closing] && made.None?
             else
               r == (if reconnect then Some(true) else None) && sent == [Hello(id, this.port)] &&
               made.Some? && made.value.id == text)
      ensures made.None? ==> outbound == old(outbound) && events == old(events) && targets == old(targets)
      ensures made.Some? ==> (
        fresh(made.value) && made.value.owner == this &&
        made.value.host == host && made.value.port == PortNum(port) &&
        made.value.buffer == [] && !made.value.stopped && made.value.wire == [] &&
        outbound == old(outbound) + {made.value} &&
        events == old(events) + [OutboundConnected(made.value)] &&
        targets == old(targets) + (if reconnect then [Target(host, port, 0)] else []))
    {
      sent := [];
      made := None;
      if this.host == host && this.port == port {
        return Some(false), sent, made;
      }
      if Connected(host, port) {
        return Some(true), sent, made;
      }
      if dial.Unreachable? {
        return Some(false), sent, made;
      }
      sent := [Hello(id, this.port)];
      var reply := Decode(dial.reply);
      if reply.None? {
        return Some(false), sent, made;
      }
      var remoteId := reply.value;
      if id == remoteId || Echo(host, remoteId) {
        sent := sent + [Closing];
        return Some(true), sent, made;
      }
      var link := new Link(this, remoteId, host, PortNum(port));
      outbound := outbound + {link};
      events := events + [OutboundConnected(link)];
      made := Some(link);
      if reconnect {
        targets := targets + [Target(host, port, 0)];
        r := Some(true);
      } else {
        r := None;
      }
    }

    /**
      * `reconnect_nodes` with its two defects repaired (see `SweepAsWritten`, `SweepInPlace`):
      * every target is visited once, in order; one not found connected is redialled through
      * `connect_with_node` when the policy agrees (`network` says how each address answers)
      * and dropped otherwise. `found[i]` says whether target `i` was found connected.
      */
    method ReconnectNodes(policy: (string, int, int) -> bool, network: (string, int) -> Dial)
      returns (found: seq<bool>, made: seq<Option<Link>>)
      requires Valid()
      modifies this`outbound, this`events, this`targets
      ensures Valid()
      ensures |found| == |old(targets)| && |made| == |old(targets)|
      ensures targets == Swept(old(targets), found, policy)
      ensures forall i | 0 <= i < |found| :: old(Connected(targets[i].host, targets[i].port)) ==> found[i]
      ensures forall i | 0 <= i < |found| :: Restored(old(targets)[i], found[i], policy, network)
      ensures old(outbound) <= outbound
      ensures forall i | 0 <= i < |made| :: MadeFor(old(targets)[i], found[i], made[i], policy, network)
      ensures forall l | l in Made(made) :: fresh(l)
      ensures outbound == old(outbound) + Made(made)
      ensures events == old(events) + Reports(made)
    {
      var kept;
      kept, found, made := Sweep(targets, policy, network);
      targets := kept;
    }

    /** The loop of `reconnect_nodes` over the targets `todo`; `kept` is the list it leaves. */
    method Sweep(todo: seq<Target>, policy: (string, int, int) -> bool, network: (string, int) -> Dial)
      returns (kept: seq<Target>, found: seq<bool>, made: seq<Option<Link>>)
      requires Valid() && targets == todo
      modifies this`outbound, this`events, this`targets
      ensures Valid() && targets == todo
      ensures |found| == |todo| && |made| == |todo| && kept == Swept(todo, found, policy)
      ensures forall i | 0 <= i < |todo| :: old(Connected(todo[i].host, todo[i].port)) ==> found[i]
      ensures forall i | 0 <= i < |todo| :: Restored(todo[i], found[i], policy, network)
      ensures forall i | 0 <= i < |todo| :: MadeFor(todo[i], found[i], made[i], policy, network)
      ensures forall l | l in Made(made) :: fresh(l)
      ensures outbound == old(outbound) + Made(made) && events == old(events) + Reports(made)
    {
      kept, found, made := [], [], [];
      ghost var start, said := outbound, events;
      SweepStarts(todo, start, said, policy, network);
      var i := 0;
      while i < |todo|
        invariant i <= |todo| && Sweeping(todo, i, kept, found, made, start, said, policy, network)
        invariant forall l | l in Made(made) :: fresh(l)
      {
        ghost var before := made;
        kept, found, made := Advance(todo, i, kept, found, made, start, said, policy, network);
        MadeSnoc(before, made[i]);
        assert made == before + [made[i]];
        i := i + 1;
      }
      Finished(todo, kept, found, made, start, said, policy, network);
      forall k | 0 <= k < |todo| && old(Connected(todo[k].host, todo[k].port)) ensures found[k] {
        var l :| l in start && l.host == todo[k].host && l.port == PortNum(todo[k].port);
      }
    }

    lemma SweepStarts(todo: seq<Target>, start: set<Link>, said: seq<NodeEvent>,
                      policy: (string, int, int) -> bool, network: (string, int) -> Dial)
      requires Valid() && targets == todo && outbound == start && events == said
      ensures Sweeping(todo, 0, [], [], [], start, said, policy, network)
    {
      assert todo[..0] == [];
    }

    /** The sweep over all of `todo` in terms of the links `start` and reports `said` it began with. */
    lemma Finished(todo: seq<Target>, kept: seq<Target>, found: seq<bool>, made: seq<Option<Link>>,
                   start: set<Link>, said: seq<NodeEvent>,
                   policy: (string, int, int) -> bool, network: (string, int) -> Dial)
      requires Sweeping(todo, |todo|, kept, found, made, start, said, policy, network)
      ensures Valid() && |found| == |todo| && |made| == |todo| && kept == Swept(todo, found, policy)
      ensures forall i | 0 <= i < |todo| :: LinkTo(start, todo[i].host, todo[i].port) ==> found[i]
      ensures forall i | 0 <= i < |todo| :: Restored(todo[i], found[i], policy, network)
      ensures forall i | 0 <= i < |todo| :: MadeFor(todo[i], found[i], made[i], policy, network)
      ensures outbound == start + Made(made) && events == said + Reports(made)
    {
      assert todo[..|todo|] == todo;
    }

    /** The state of the sweep after the first `i` visits. */
    ghost predicate Sweeping(todo: seq<Target>, i: nat, kept: seq<Target>, found: seq<bool>, made: seq<Option<Link>>,
                             start: set<Link>, said: seq<NodeEvent>,
                             policy: (string, int, int) -> bool, network: (string, int) -> Dial)
      reads this
    {
      |found| == i && |made| == i && Valid() && targets == todo && start <= outbound &&
      SweepSoFar(todo, i, kept, found, start, policy, network) &&
      RedialsSoFar(todo, found, made, policy, network) &&
      outbound == start + Made(made) && events == said + Reports(made)
    }

    /**
      * What the redial of target `t` made: a link to `t`'s address exactly when it was not
      * found connected, the policy agreed, and the address answers as a new peer.
      */
    predicate MadeFor(t: Target, found: bool, made: Option<Link>,
                      policy: (string, int, int) -> bool, network: (string, int) -> Dial)
      reads this`inbound
    {
      (made.Some? <==> !found && policy(t.host, t.port, t.tries + 1) && Redials(t.host, t.port, network(t.host, t.port))) &&
      (made.Some? ==> made.value.host == t.host && made.value.port == PortNum(t.port))
    }

    /** The sweep after visiting the first `i` targets of `todo`, which started with the links `start`. */
    ghost predicate SweepSoFar(todo: seq<Target>, i: nat, kept: seq<Target>, found: seq<bool>, start: set<Link>,
                               policy: (string, int, int) -> bool, network: (string, int) -> Dial)
      reads this`inbound, this`outbound
    {
      i <= |todo| && |found| == i && kept == Swept(todo[..i], found, policy) &&
      (forall k | 0 <= k < i :: LinkTo(start, todo[k].host, todo[k].port) ==> found[k]) &&
      RestoredAll(todo, found, policy, network)
    }

    /** What the redials of the first `|made|` targets of `todo` made. */
    ghost predicate RedialsSoFar(todo: seq<Target>, found: seq<bool>, made: seq<Option<Link>>,
                                 policy: (string, int, int) -> bool, network: (string, int) -> Dial)
      reads this`inbound
    {
      |made| <= |todo| && |made| <= |found| &&
      forall k | 0 <= k < |made| :: MadeFor(todo[k], found[k], made[k], policy, network)
    }

    /** One round of the sweep: visit target `i` and record what became of it. */
    method Advance(todo: seq<Target>, i: nat, kept: seq<Target>, found: seq<bool>, made: seq<Option<Link>>,
                   ghost start: set<Link>, ghost said: seq<NodeEvent>,
                   policy: (string, int, int) -> bool, network: (string, int) -> Dial)
      returns (kept': seq<Target>, found': seq<bool>, made': seq<Option<Link>>)
      requires i < |todo| && Sweeping(todo, i, kept, found, made, start, said, policy, network)
      modifies this`outbound, this`events, this`targets
      ensures Sweeping(todo, i + 1, kept', found', made', start, said, policy, network)
      ensures |made'| == i + 1 && made' == made + [made'[i]] && (made'[i].Some? ==> fresh(made'[i].value))
    {
      var t := todo[i];
      if LinkTo(start, t.host, t.port) {
        var l :| l in start && l.host == t.host && l.port == PortNum(t.port);
        assert l in outbound;
      }
      ghost var outs, evs := outbound, events;
      var hit, m := Visit(t, policy, network, todo, found);
      Tally(start, said, made, m, outs, outbound, evs, events);
      SweepingStep(todo, i, kept, found, made, start, said, hit, m, policy, network);
      kept' := kept + SweepOne(t, hit, policy);
      found' := found + [hit];
      made' := made + [m];
    }

    /** The sweep state after visit `i`, from the facts that visit establishes. */
    lemma SweepingStep(todo: seq<Target>, i: nat, kept: seq<Target>, found: seq<bool>, made: seq<Option<Link>>,
                       start: set<Link>, said: seq<NodeEvent>, hit: bool, m: Option<Link>,
                       policy: (string, int, int) -> bool, network: (string, int) -> Dial)
      requires i < |todo| && |found| == i && |made| == i && Valid() && targets == todo && start <= outbound
      requires kept == Swept(todo[..i], found, policy)
      requires forall k | 0 <= k < i :: LinkTo(start, todo[k].host, todo[k].port) ==> found[k]
      requires LinkTo(start, todo[i].host, todo[i].port) ==> hit
      requires RestoredAll(todo, found, policy, network) && Restored(todo[i], hit, policy, network)
      requires RedialsSoFar(todo, found, made, policy, network) && MadeFor(todo[i], hit, m, policy, network)
      requires outbound == start + Made(made + [m]) && events == said + Reports(made + [m])
      ensures Sweeping(todo, i + 1, kept + SweepOne(todo[i], hit, policy), found + [hit], made + [m], start, said, policy, network)
    {
      SweepSoFarSnoc(todo, i, kept, found, start, hit, policy, network);
      RedialsSnoc(todo, found, made, hit, m, policy, network);
    }

    lemma SweepSoFarSnoc(todo: seq<Target>, i: nat, kept: seq<Target>, found: seq<bool>, start: set<Link>, hit: bool,
                         policy: (string, int, int) -> bool, network: (string, int) -> Dial)
      requires i < |todo| && |found| == i && kept == Swept(todo[..i], found, policy)
      requires forall k | 0 <= k < i :: LinkTo(start, todo[k].host, todo[k].port) ==> found[k]
      requires LinkTo(start, todo[i].host, todo[i].port) ==> hit
      requires RestoredAll(todo, found, policy, network) && Restored(todo[i], hit, policy, network)
      ensures SweepSoFar(todo, i + 1, kept + SweepOne(todo[i], hit, policy), found + [hit], start, policy, network)
    {
      RestoredSnoc(todo, found, hit, policy, network);
      SweptSnoc(todo, i, found, hit, policy);
      FoundSnoc(todo, i, found, start, hit);
    }

    lemma FoundSnoc(todo: seq<Target>, i: nat, found: seq<bool>, start: set<Link>, hit: bool)
      requires i < |todo| && |found| == i
      requires forall k | 0 <= k < i :: LinkTo(start, todo[k].host, todo[k].port) ==> found[k]
      requires LinkTo(start, todo[i].host, todo[i].port) ==> hit
      ensures forall k | 0 <= k < i + 1 :: LinkTo(start, todo[k].host, todo[k].port) ==> (found + [hit])[k]
    {
      var found' := found + [hit];
      forall k | 0 <= k < i + 1 && LinkTo(start, todo[k].host, todo[k].port) ensures found'[k] {
        if k < i {
          assert found'[k] == found[k];
        }
      }
    }

    lemma RedialsSnoc(todo: seq<Target>, found: seq<bool>, made: seq<Option<Link>>, hit: bool, m: Option<Link>,
                      policy: (string, int, int) -> bool, network: (string, int) -> Dial)
      requires |made| == |found| < |todo| && RedialsSoFar(todo, found, made, policy, network)
      requires MadeFor(todo[|made|], hit, m, policy, network)
      ensures RedialsSoFar(todo, found + [hit], made + [m], policy, network)
    {
    }

    /** The links and reports after one more visit, from those before it. */
    lemma Tally(start: set<Link>, said: seq<NodeEvent>, made: seq<Option<Link>>, m: Option<Link>,
                outs: set<Link>, outs': set<Link>, evs: seq<NodeEvent>, evs': seq<NodeEvent>)
      requires outs == start + Made(made) && evs == said + Reports(made)
      requires m.None? ==> outs' == outs && evs' == evs
      requires m.Some? ==> outs' == outs + {m.value} && evs' == evs + [OutboundConnected(m.value)]
      ensures outs' == start + Made(made + [m]) && evs' == said + Reports(made + [m])
    {
      MadeSnoc(made, m);
    }

    /**
      * One target of the sweep: is it connected, and if not and the policy agrees, a
      * `connect_with_node` call without reconnect registration, whose new link, if any, is `made`.
      */
    method Visit(t: Target, policy: (string, int, int) -> bool, network: (string, int) -> Dial,
                 ghost visited: seq<Target>, ghost found: seq<bool>)
      returns (hit: bool, made: Option<Link>)
      requires Valid() && RestoredAll(visited, found, policy, network)
      modifies this`outbound, this`events, this`targets
      ensures Valid() && targets == old(targets) && old(outbound) <= outbound
      ensures hit == old(Connected(t.host, t.port))
      ensures hit || !policy(t.host, t.port, t.tries + 1) ==> outbound == old(outbound) && events == old(events)
      ensures MadeFor(t, hit, made, policy, network)
      ensures made.None? ==> outbound == old(outbound) && events == old(events)
      ensures made.Some? ==> (fresh(made.value) &&
        outbound == old(outbound) + {made.value} && events == old(events) + [OutboundConnected(made.value)])
      ensures Restored(t, hit, policy, network)
      ensures RestoredAll(visited, found, policy, network)
    {
      hit := Connected(t.host, t.port);
      made := None;
      if hit {
        var l :| l in outbound && l.host == t.host && l.port == PortNum(t.port);
      } else if policy(t.host, t.port, t.tries + 1) {
        var _, _, m := ConnectWithNode(t.host, t.port, false, network(t.host, t.port));
        made := m;
        if made.Some? {
          assert made.value in outbound && made.value.host == t.host && made.value.port == PortNum(t.port);
        }
      }
      // links are only added, so the targets restored before stay restored
      forall k | 0 <= k < |found| ensures Restored(visited[k], found[k], policy, network) {
        var v := visited[k];
        if old(Connected(v.host, v.port)) {
          var l :| l in old(outbound) && l.host == v.host && l.port == PortNum(v.port);
          assert l in outbound;
        }
      }
    }

    /**
      * Dialling `host:port` answered by `dial` makes a new outbound link: the address is
      * not this node's own, and the peer's reply is a UTF-8 id that is neither this node's
      * nor that of an inbound link from the same host.
      */
    predicate Redials(host: string, port: int, dial: Dial)
      reads this`inbound
    {
      !(host == this.host && port == this.port) && dial.Answered? &&
      Decode(dial.reply).Some? && Decode(dial.reply).value != id && !Echo(host, Decode(dial.reply).value)
    }

    /** After the sweep visited `t`: connected if it was found so, or redialled successfully. */
    predicate Restored(t: Target, found: bool, policy: (string, int, int) -> bool, network: (string, int) -> Dial)
      reads this`inbound, this`outbound
    {
      found || (policy(t.host, t.port, t.tries + 1) && Redials(t.host, t.port, network(t.host, t.port))) ==>
        Connected(t.host, t.port)
    }

    /** Every target of `ts` visited so far is restored. */
    ghost predicate RestoredAll(ts: seq<Target>, found: seq<bool>, policy: (string, int, int) -> bool, network: (string, int) -> Dial)
      reads this`inbound, this`outbound
    {
      |found| <= |ts| && forall k | 0 <= k < |found| :: Restored(ts[k], found[k], policy, network)
    }

    lemma RestoredSnoc(ts: seq<Target>, found: seq<bool>, hit: bool, policy: (string, int, int) -> bool, network: (string, int) -> Dial)
      requires |found| < |ts| && RestoredAll(ts, found, policy, network)
      requires Restored(ts[|found|], hit, policy, network)
      ensures RestoredAll(ts, found + [hit], policy, network)
    {
    }

    /** `node_disconnected`: drop the link from whichever set holds it and report that. */
    method NodeDisconnected(link: Link)
      requires Valid()
      modifies this`inbound, this`outbound, this`events
      ensures Valid()
      ensures inbound == old(inbound) - {link} && outbound == old(outbound) - {link}
      ensures events == old(events) + Farewell(link, old(inbound), old(outbound))
    {
      ghost var ins, outs := inbound, outbound;
      if link in inbound {
        inbound := inbound - {link};
        events := events + [InboundDisconnected(link)];
      }
      if link in outbound {
        outbound := outbound - {link};
        events := events + [OutboundDisconnected(link)];
      }
      assert |inbound| <= |ins|;
    }

    /** `send_to_node`: only a registered link writes. */
    method SendToNode(link: Link, data: Value, codec: JsonCodec, delivered: bool)
      requires JsonLaws(codec)
      modifies link`wire, link`stopped
      ensures link in AllNodes() ==> (
        link.wire == old(link.wire) + Written(codec, data, delivered) &&
        link.stopped == (old(link.stopped) || Halts(codec, data, delivered)))
      ensures link !in AllNodes() ==> link.wire == old(link.wire) && link.stopped == old(link.stopped)
    {
      if link in inbound || link in outbound {
        link.Send(data, codec, delivered);
      }
    }

    /** `stop`: report the request, then raise the termination flag. */
    method Stop()
      modifies this`events, this`stopping
      ensures events == old(events) + [RequestToStop] && stopping
    {
      events := events + [RequestToStop];
      stopping := true;
    }

    /** The end of `run`: every link, inbound and outbound, is asked to stop. */
    method Shutdown()
      modifies inbound, outbound
      ensures forall l | l in inbound || l in outbound :: l.stopped
      ensures forall l | l in inbound || l in outbound :: l.buffer == old(l.buffer) && l.wire == old(l.wire)
    {
      var pending := inbound + outbound;
      while pending != {}
        invariant pending <= inbound + outbound
        invariant forall l | l in inbound + outbound && l !in pending :: l.stopped
        invariant forall l | l in inbound + outbound :: l.buffer == old(l.buffer) && l.wire == old(l.wire)
        decreases |pending|
      {
        var l :| l in pending;
        l.Stop();
        pending := pending - {l};
      }
    }
  }

  /** The node's link sets are disjoint, so `all_nodes` has `total_connection` members. */
  lemma AllNodesCount(node: Node)
    requires node.Valid()
    ensures |node.AllNodes()| == node.TotalConnection()
  {
  }
}
