/**
  * Properties across the layers: a chat record the controller hands to the network is
  * framed by `NodeConnection.send`, cut back out of the receiver's buffer, parsed by
  * `parse_packet`, reported by the receiving node as a message from the sender's link,
  * wrapped by `NetworkHandler.node_callback` and staged by `process_network_message`.
  */
module EndToEnd {
  import opened Wrappers
  import opened Utf8
  import opened Json
  import opened Framing
  import opened Network
  import opened Router
  import opened Session

  /** The bytes of a chat record on the wire: its JSON text, then the delimiter. */
  lemma RecordOnWire(codec: JsonCodec, iso: IsoCodec, t: Timestamp, text: string)
    requires JsonLaws(codec)
    ensures var r := Record(iso, t, text);
      codec.dumps(r).Some? &&
      EncodePayload(codec, r) == Some(Encode(codec.dumps(r).value) + [EOT]) &&
      ValidFrame(Encode(codec.dumps(r).value))
  {
    var r := Record(iso, t, text);
    assert Serializable(r) by {
      assert forall key | key in r.fields :: r.fields[key].VStr?;
    }
    var body := codec.dumps(r).value;
    PrintableEncoding(body);
    assert EOT !in Encode(body) by {
      forall i | 0 <= i < |Encode(body)| ensures Encode(body)[i] != EOT {
        assert 0x20 <= Encode(body)[i];
      }
    }
  }

  /**
    * A chat record sent to a peer reaches the peer's log with the sender's moment and
    * text, staged under the id of the link it came in on: the receive loop cuts exactly
    * one frame and leaves nothing behind, the frame parses back into the record, the
    * handler reports it as a `node_message` from the link's id, and the controller stages
    * the entry.
    */
  lemma ChatArrives(codec: JsonCodec, iso: IsoCodec, t: Timestamp, text: string,
                    ownId: string, ownHost: string, ownPort: int, l: Link, stamp: Timestamp)
    requires JsonLaws(codec) && IsoLaws(iso)
    ensures var wire := EncodePayload(codec, Record(iso, t, text));
      wire.Some? &&
      var d := Drain(wire.value);
      |d.frames| == 1 && d.rest == [] &&
      var env := Route(ownId, ownHost, ownPort, NodeMessage(l, ParsePacket(codec, d.frames[0])));
      env.kind == "node_message" && env.source == l.id && env.dest == ownId &&
      Incoming(env.source, env.data, iso, stamp) == Some(Some(Entry(l.id, t, VStr(text))))
  {
    var r := Record(iso, t, text);
    RecordOnWire(codec, iso, t, text);
    var frame := Encode(codec.dumps(r).value);
    JoinCons(frame, []);
    assert Join([frame]) == frame + [EOT] + [];
    DrainJoined([frame]);
    assert Drain(frame + [EOT]) == Drained([frame], []);
    ParseSentDict(codec, r);
    RouteConventions(ownId, ownHost, ownPort, l, r);
    IncomingRecord(l.id, iso, t, text, stamp);
  }

  /**
    * A dict without a `timestamp` field (here `{"content": text}`) crashes the receiving
    * side: `process_network_message` raises on it, the exception leaves `node_message`,
    * and the receive thread of the link it came in on ends on that frame, counted and
    * reported, with its termination flag still clear.
    */
  lemma UntimedChatEndsThread(codec: JsonCodec, iso: IsoCodec, text: string, source: string, stamp: Timestamp)
    requires JsonLaws(codec)
    ensures var d := VDict(map["content" := VStr(text)]);
      var wire := EncodePayload(codec, d);
      wire.Some? &&
      var p := Reads([], [Chunk(wire.value)], codec, v => Incoming(source, v, iso, stamp).None?);
      p.crashed && !p.flagged && p.made == 1 && |p.frames| == 1 && ParsePacket(codec, p.frames[0]) == d
  {
    var d := VDict(map["content" := VStr(text)]);
    var frame := DictOnWire(codec, d);
    var raises := v => Incoming(source, v, iso, stamp).None?;
    assert raises(ParsePacket(codec, frame));
    OneFrameRaises(frame, codec, raises);
  }

  /** A serialisable dict goes on the wire as one valid frame that parses back into it. */
  lemma DictOnWire(codec: JsonCodec, d: Value) returns (frame: seq<byte>)
    requires JsonLaws(codec) && d.VDict? && Serializable(d)
    ensures EncodePayload(codec, d) == Some(frame + [EOT])
    ensures ValidFrame(frame) && ParsePacket(codec, frame) == d
  {
    var body := codec.dumps(d).value;
    PrintableEncoding(body);
    frame := Encode(body);
    assert EOT !in frame by {
      forall i | 0 <= i < |frame| ensures frame[i] != EOT {
        assert 0x20 <= frame[i];
      }
    }
    ParseSentDict(codec, d);
  }

  /** A thread with an empty buffer that reads one frame whose delivery raises ends on it. */
  lemma OneFrameRaises(frame: seq<byte>, codec: JsonCodec, raises: Value -> bool)
    requires ValidFrame(frame) && raises(ParsePacket(codec, frame))
    ensures Reads([], [Chunk(frame + [EOT])], codec, raises) == Progress([frame], [], 1, false, true)
  {
    SingleFrame(frame);
    var w := frame + [EOT];
    var rs := [Chunk(w)];
    assert rs[..0] == [];
    assert Raises(codec, [frame], raises) by {
      assert [frame][0] == frame;
    }
    assert Reached(codec, [frame], raises) == [frame];
    assert ChunkOf(Chunk(w)) == w && [] + w == w;
    assert Step([], Chunk(w), codec, raises) == Progress([frame], [], 1, false, true);
  }
}
