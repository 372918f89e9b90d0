# Messaging-App core in Dafny

A model of the sequential logic inside a peer-to-peer terminal chat written in Python.
It covers five pieces:

- **Framing.** A peer connection (`NodeConnection`) writes every payload with one
  trailing 0x04 delimiter. It cuts its receive buffer into frames at that byte and
  classifies each frame as bytes, a JSON value or text.
- **Node.** The `Node` keeps sets of inbound and outbound links. It admits connections
  under a cap, runs the `connect_with_node` ladder, sweeps its reconnect list and
  reports every event to a callback.
- **Router.** The `NetworkHandler` turns every node event into a
  `(kind, source, dest, data)` envelope, keeps the `conn_info` map from peer id to link,
  and sends by id.
- **Session.** The `MainController` normalises the user name and port, parses
  `!quit` / `!conn ip:port` / chat lines, follows the peer through connection events,
  and sorts staged entries into the log with a randomised quicksort.
- **Cipher.** The `ElGamal` class packs keys and ciphertexts as a JSON body followed by
  an 8-byte UTF-16 marker. Encryption masks each character by a Diffie-Hellman shared
  secret.

Files:

| file | contents |
|---|---|
| `wrappers.dfy` | `Option` |
| `utf8.dfy` | UTF-8 per RFC 3629 (Python's `encode`/`decode`) |
| `text.dfy` | `split`, `strip`, `find`, `int()` and `str()` |
| `json.dfy` | the Python value universe, and `json.dumps`/`json.loads` as a codec with the laws the core relies on |
| `framing.dfy` | the pure half of `nodeconnection.py` |
| `network.dfy` | the `Link` and `Node` classes |
| `router.dfy` | the `NetworkHandler` class |
| `session.dfy` | the `MainController` class and its quicksort |
| `elgamal.dfy` | the `ElGamal` class |
| `endtoend.dfy` | a chat line followed across all layers |

Objects whose fields the source updates are classes with `modifies` frames:

- `Link` has a buffer, a stop flag, and the bytes written to the wire.
- `Node` has its link sets, reconnect list, receive count and event log.
- `Handler` has `conn_info` and the envelopes passed upstream.
- `Controller` has the input phase, staging buffer, log, peer fields and the calls it
  makes on the network.

Sockets, clocks and random draws enter as parameters:

- the results of `recv`;
- the outcome of connecting and reading the peer's id;
- whether `sendall` succeeded;
- the quicksort pivot choice, uuid text, fallback port and ephemeral key.

The code is followed where it and the design intent part ways. Four defects are logged
under "Findings". Each is modelled as written, with a lemma exhibiting it, and then
repaired for the rest of the model.

The log sort is not stable. Entries with equal timestamps are not kept in arrival order:
one equal to the pivot always goes after it. Sorting twice can then reorder them again
(`Session.SortNotStable`, `Session.SortNotIdempotent`). The model keeps the code's
behaviour and proves idempotence only for distinct timestamps (`Session.SortIdempotent`).

No encryption is negotiated between peers. The encryption branches of the controller
(`src/maincontroller.py:95-98`, `src/maincontroller.py:122-124`) are empty, so only the
`ElGamal` class itself is modelled.

## Model

Functions that only compute carry no contract of their own. Their rows are those of the
lemmas about them:

- `Framing.ParsePacket`: `Framing.ParsedAsBytes`, `Framing.ParseSentText`, `Framing.ParseSentDict`.
- `Framing.Drain`: `Framing.DrainJoinsBack`, `Framing.DrainFramesValid`, `Framing.DrainLeavesStuck`.
- `Framing.Feed`: `Framing.FeedSnoc`, `Framing.FeedIsDrainOfStream`.
- `Utf8.Decode`: `Utf8.DecodeEncode`, `Utf8.EncodeDecode`, `Utf8.HighByteIsInvalid`.
- `Text.ParseInt` and `Session.ValidatePort`: `Text.ParseDigits`, `Text.IntToStringRoundTrip`, `Session.ConnRoundTrip`.
- `Session.Sort`: `Session.SortSpec`, `Session.SortIdempotent`, `Session.SortNotStable`.
- `Network.Swept` and `Network.SweepOne`: `Network.SweptSnoc`, `Network.SweptKeepsAll`, `Network.SweptShorter`.
- `Network.SweepInPlace`: `Network.InPlaceRemovalSkips`.
- `Network.Made` and `Network.Reports`: `Network.MadeSnoc`, `Network.Node.ReconnectNodes`, `Network.Node.Visit`.
- `Encrypt.Unpack`, `Encrypt.PackPublicKey` and `Encrypt.PackCiphers`: `Encrypt.PackUnpack`, `Encrypt.PublicKeyRoundTrip`, `Encrypt.CiphersRoundTrip`.
- `Encrypt.DecryptAsWritten`: `Encrypt.DecryptAsWrittenRaises`.
- `Session.SendToPeerAsWritten`: `Session.SendToPeerRaises`.

| member | source | states |
|---|---|---|
| Utf8.EncodeChar | src/network/nodeconnection.py:125 | one to four bytes per character; a lead byte below 0x80 exactly for one-byte forms, continuation bytes in 0x80..0xBF, no byte above 0xF4 |
| Utf8.Encode | src/network/nodeconnection.py:125 | the encoding is at least as long as the text and never holds a byte above 0xF4 |
| Utf8.DecodeFirst | src/network/nodeconnection.py:176 | a decoded scalar value uses one to four bytes, within the input |
| Utf8.DecodeEncode | src/network/nodeconnection.py:176 | decoding the UTF-8 encoding of any text gives the text back |
| Utf8.EncodeDecode | src/network/nodeconnection.py:176 | bytes that decode re-encode to exactly themselves |
| Utf8.HighByteIsInvalid | src/network/nodeconnection.py:176 | bytes holding a byte above 0xF4 (such as 0xFF) never decode |
| Utf8.EncodeAscii | src/network/nodeconnection.py:125 | ASCII text encodes as its own code points, one byte each |
| Utf8.EncodeHasControl | src/network/nodeconnection.py:125 | a byte below 0x80 occurs in the encoding if and only if the text holds that character, so only text containing U+0004 carries a delimiter |
| Text.FindSub | src/maincontroller.py:57 | -1 or an index where the separator occurs, with no earlier occurrence |
| Text.Split | src/maincontroller.py:57-58 | at least one piece; the pieces joined by the separator give the text back; no piece holds the separator |
| Text.SplitAround | src/network/node.py:164 | two separator-free pieces joined by a one-character separator split back into exactly those two |
| Text.SplitNone | src/maincontroller.py:58 | text without the separator splits into itself alone |
| Text.Strip | src/maincontroller.py:57 | the result neither starts nor ends with white space |
| Text.StripLeft | src/maincontroller.py:57 | a suffix of the input, not starting with white space, with only white space removed |
| Text.StripRight | src/maincontroller.py:57 | a prefix of the input, not ending with white space, with only white space removed |
| Text.StripOnlyEnds | src/maincontroller.py:57 | the stripped text is a slice of the input, and everything before and after that slice is white space |
| Text.NatToString | src/maincontroller.py:74-75 | a non-empty string of decimal digits |
| Text.IntToString | src/maincontroller.py:74-75 | a non-empty string of digits and a sign |
| Text.IntToStringRoundTrip | src/maincontroller.py:113 | `int(str(n)) == n` for every integer |
| Text.ParseDigits | src/maincontroller.py:113 | a non-empty run of ASCII digits parses to the number it writes |
| Json.PrintableEncoding | src/network/nodeconnection.py:136 | JSON text (printable ASCII) encodes one byte per character, all in 0x20..0x7E, so a dict's frame never holds the delimiter |
| Framing.Find | src/network/nodeconnection.py:79 | -1 exactly when the byte is absent, otherwise the index of its first occurrence |
| Framing.FindIsFirst | src/network/nodeconnection.py:94 | the first occurrence at k is what `find` returns |
| Framing.Cut | src/network/nodeconnection.py:82-86 | no cut exactly when no delimiter sits above index 0; otherwise frame ++ [0x04] ++ new buffer is the old buffer, the frame is non-empty and delimiter-free, the buffer shrinks |
| Framing.DrainJoinsBack | src/network/nodeconnection.py:82-94 | the emitted frames, each followed by 0x04, then what is left, make up the buffer: nothing lost, nothing reordered |
| Framing.DrainFramesValid | src/network/nodeconnection.py:82-94 | every emitted frame is non-empty and free of 0x04 |
| Framing.DrainLeavesStuck | src/network/nodeconnection.py:82-94 | the loop stops only when no delimiter is left above index 0, so all such frames are drained before the next read |
| Framing.DrainStep | src/network/nodeconnection.py:85-94 | a frame cut off the front is emitted first, then whatever the rest drains to |
| Framing.DrainStuck | src/network/nodeconnection.py:82 | a buffer the loop test rejects is left as it is |
| Framing.DrainJoin | src/network/nodeconnection.py:82-94 | delimited frames followed by anything are emitted exactly, first |
| Framing.SingleFrame | src/network/nodeconnection.py:82-86 | a non-empty delimiter-free p followed by 0x04, read into an empty buffer, yields exactly [p] and an empty buffer |
| Framing.DrainAppend | src/network/nodeconnection.py:77-94 | draining b ++ c is draining b, then draining what b left with c appended |
| Framing.FeedSnoc | src/network/nodeconnection.py:63-96 | one more read continues from what the earlier reads left in the buffer |
| Framing.FeedIsDrainOfStream | src/network/nodeconnection.py:63-96 | reads in any chunking deliver the frames of the whole stream, as one read of it would |
| Framing.TwoReadsAnyCut | src/network/nodeconnection.py:77-94 | two frames arriving in two reads cut at any offset are delivered as those two frames |
| Framing.DrainJoined | src/network/nodeconnection.py:82-94 | whole frames in one read are delivered exactly, leaving an empty buffer |
| Framing.LeadingDelimiterWedges | src/network/nodeconnection.py:82 | once the buffer starts with 0x04 (the frame of an empty string) no later read delivers any frame: everything piles up behind it |
| Framing.EncodePayload | src/network/nodeconnection.py:122-163 | `send` writes something exactly for a str, bytes, or a dict `json.dumps` accepts; what it writes ends with the delimiter |
| Framing.ParsedAsBytes | src/network/nodeconnection.py:175-195 | a frame comes back as bytes exactly when it is not UTF-8, and then unchanged |
| Framing.ParseSentText | src/network/nodeconnection.py:175-185 | text sent as str comes back as itself unless `json.loads` accepts it, in which case the JSON value arrives (so "42" arrives as 42) |
| Framing.ParseSentDict | src/network/nodeconnection.py:134-137 | a dict sent by `send` is parsed back into the same dict |
| Network.Chunks | src/network/nodeconnection.py:64-78 | one chunk per read: the received bytes, or nothing for a timeout or an error |
| Network.Consumed | src/network/nodeconnection.py:63-75 | the receive thread never performs more reads than there are results |
| Network.ConsumedSnoc | src/network/nodeconnection.py:63-75 | one read more is made only when no earlier read failed; without a failure every result is read |
| Network.Delivered | src/network/nodeconnection.py:88-91 | one `node_message` per cut frame, in order, carrying the parsed frame |
| Network.CutStep | src/network/nodeconnection.py:85-94 | one pass of the inner loop keeps the frames cut so far in step with the reference drain |
| Network.CutDone | src/network/nodeconnection.py:82 | when the inner loop stops, it has cut exactly the reference drain's frames and left its buffer |
| Network.DeliveredAppend | src/network/nodeconnection.py:88-91 | the deliveries of two runs of frames are the deliveries of their concatenation |
| Network.FirstRaise | src/network/nodeconnection.py:85-91 | the first frame whose delivery raises: every frame before it is harmless, and it exists exactly when some frame raises |
| Network.Reached | src/network/nodeconnection.py:85-91 | the frames handed on are a prefix of those cut, all of them when none raises, never empty when one does, and only the last one may raise |
| Network.Step | src/network/nodeconnection.py:66-94 | one pass sets the termination flag exactly on a read error, and a failed read hands on nothing, so it never also raises |
| Network.Reads | src/network/nodeconnection.py:63-96 | the thread makes at most as many reads as offered and never ends both by its flag and by an exception |
| Network.ReadsSnoc | src/network/nodeconnection.py:63-96 | a thread still running makes the next read and adds that pass's frames |
| Network.ReadsStay | src/network/nodeconnection.py:63-96 | reads offered after the thread has stopped, by its flag or by an exception, change nothing |
| Network.ReadsQuiet | src/network/nodeconnection.py:63-96 | with a callback that never raises, the thread reads up to and including the first error and hands on all frames of the stream read so far; its flag is set exactly when a read failed |
| Network.QuietSnoc | src/network/nodeconnection.py:63-96 | the quiet thread's outcome carries over one more offered read, whether or not an earlier read failed |
| Network.QuietStep | src/network/nodeconnection.py:66-94 | a quiet thread that has seen no error makes the next read and continues the stream's frames from its buffer |
| Network.ReadsCrashLast | src/network/nodeconnection.py:88-91 | of the frames handed on, only the last can have raised, and it did exactly when the thread ended by an exception |
| Network.ReadsCutShort | src/network/nodeconnection.py:88-91 | a raising callback only truncates delivery: the frames are a prefix of those a quiet callback gets, and without a raise the whole outcome is the same |
| Network.LastRaises | src/network/nodeconnection.py:88-91 | harmless frames followed by frames of which only the last raises keep that shape |
| Network.AccountedStep | src/network/nodeconnection.py:88 | the receive count grows by exactly one per extracted frame across successive reads |
| Network.Link.constructor | src/network/nodeconnection.py:26-46 | a new link has its owner, id, host and port, an empty buffer and wire, and is running |
| Network.Link.Stop | src/network/nodeconnection.py:104-110 | raises the termination flag, nothing else |
| Network.Link.Send | src/network/nodeconnection.py:112-163 | the wire grows by the payload plus one delimiter when `sendall` succeeds; an unsupported type or a dict `json.dumps` rejects writes nothing and keeps the link; a failed `sendall` writes nothing and stops it |
| Network.Link.Receive | src/network/nodeconnection.py:66-94 | after one read: an error sets the flag; the buffer is what draining the old buffer plus the chunk leaves; the count grows by, and the owner's log gets, the frames handed on up to the first whose delivery raises; it reports whether one raised |
| Network.Link.Absorb | src/network/nodeconnection.py:77-94 | the chunk joins the buffer; what is left is what draining the joined buffer leaves; the frames it cuts are counted and handed on up to the first whose delivery raises, and it reports whether one raised |
| Network.Link.CutFrames | src/network/nodeconnection.py:79-94 | the inner loop cuts exactly the frames the reference drain gives and leaves its rest |
| Network.Link.Run | src/network/nodeconnection.py:54-102 | the thread's reads, flag, buffer, count and log are those of the reference thread; on a normal stop the link leaves both of the owner's sets and the disconnection is reported; after a raising delivery nothing is closed or reported and the link stays registered |
| Network.Link.ReadLoop | src/network/nodeconnection.py:63-96 | the loop's reads, flag, buffer, count and log are those of the reference thread: it stops at the first read error or raising delivery, and makes no read with its flag already set |
| Network.ParseIdentity | src/network/node.py:159-164 | a parsed id never holds ':' |
| Network.HelloIdentity | src/network/node.py:298 | the admitting side reads back exactly the id and port text the connecting side sent |
| Network.BareIdentity | src/network/node.py:156-164 | an identity line without ':' keeps the socket's source port |
| Network.TwoColonsCrash | src/network/node.py:160-164 | a line with two ':' cannot be unpacked and raises |
| Network.SweptSnoc | src/network/node.py:363-397 | the sweep of a list extended by one target is the earlier sweep plus that target's outcome |
| Network.SweptKeepsAll | src/network/node.py:385-397 | the sweep keeps every target exactly when the policy agreed for each one not found, and then keeps the order, resetting found targets to 0 tries and adding one to the others |
| Network.SweptShorter | src/network/node.py:385-397 | the sweep never lengthens the list |
| Network.DefaultPolicyKeepsAll | src/network/node.py:498-517 | with the shipped policy nothing is ever removed |
| Network.SweepAsWritten | src/network/node.py:385-389 | the as-written sweep leaves as many targets as it got |
| Network.AsWrittenSweepCrashes | src/network/node.py:387-389 | as written, the sweep raises exactly when some target is not connected |
| Network.RemoveFirst | src/network/node.py:397 | `list.remove` drops one element exactly when it is present |
| Network.InPlaceRemovalSkips | src/network/node.py:397 | removing during iteration skips the next target: it survives with its count unchanged, while the intended sweep removes both |
| Network.Node.AllNodes | src/network/node.py:68-77 | the union of the inbound and outbound sets |
| Network.Node.TotalConnection | src/network/node.py:536-545 | at least the size of either set |
| Network.AllNodesCount | src/network/node.py:536-545 | the sets are disjoint, so `all_nodes` has `total_connection` members |
| Network.Node.constructor | src/network/node.py:11-66 | the given or generated id; no links, no reconnect targets, count 0; `server_started` reported |
| Network.Node.DeliverMessage | src/network/node.py:409-422 | reports the frame to the callback as a message from the link |
| Network.Node.DeliverAll | src/network/nodeconnection.py:85-94 | each frame is counted and then reported in order, up to and including the first whose delivery raises; it reports whether one raised |
| Network.Node.Accept | src/network/node.py:148-183 | refused exactly at the cap; crashes exactly when under the cap and the identity line does not parse; otherwise one new inbound link with the parsed id and port, reported |
| Network.Node.ConnectWithNode | src/network/node.py:261-353 | its own address: False, nothing sent or made. Already connected out: True, nothing made. Unreachable or undecodable reply: False. Reply with its own id or a known inbound id: True after sending the closing line. Otherwise exactly one new outbound link, reported, and a 0-tries target appended iff reconnecting; True only then, else None |
| Network.Node.ReconnectNodes | src/network/node.py:355-397 | visits every target once in order; the new list is the intended sweep; every target connected at the start is found; every found target, or one the policy retried and that answered as a new peer, is connected afterwards; target `i` gets a new link exactly when it was not found, the policy agreed and its address answered as a new peer, and that link goes to its address; the outbound set grows by exactly those fresh links and the callback log by exactly their `outbound_node_connected` reports, in visiting order |
| Network.Node.Sweep | src/network/node.py:363-397 | the loop over the targets: the same promises, stated for the list it was given, with the list it leaves returned |
| Network.MadeSnoc | src/network/node.py:333-336 | one more visit adds its link, if any, to the links made and its `outbound_node_connected` report to the reports |
| Network.Node.Advance | src/network/node.py:363-397 | one round of the sweep: target `i` is visited and its outcome recorded; the sweep state (`Sweeping`) is extended by it, so the outbound set is still the start set plus the links made so far and the log the start log plus their reports; the new slot's link is fresh |
| Network.Node.Visit | src/network/node.py:372-390 | one target: found iff an outbound link has its address; a link is made iff it was not found, the policy agrees and the address answers as a new peer (`connect_with_node` without registration); then the outbound set gains exactly that fresh link to the target's address and the log exactly its `outbound_node_connected` report, otherwise neither changes; targets restored earlier stay restored |
| Network.Node.RestoredSnoc | src/network/node.py:363-397 | restored targets plus one more restored target are all restored |
| Network.Node.NodeDisconnected | src/network/node.py:230-245 | removes the link from whichever set holds it and reports exactly those removals; a link in neither set changes nothing |
| Network.Node.SendToNode | src/network/node.py:216-227 | only a link of this node is written to; any other is untouched |
| Network.Node.Stop | src/network/node.py:123-130 | reports the stop request, then raises the flag |
| Network.Node.Shutdown | src/network/node.py:196-200 | every inbound and outbound link is stopped, their buffers and wires untouched |
| Router.Route | src/network/networkhandler.py:151-226 | the kind is the event's name; inbound events and messages go from the peer to this node; outbound events and send successes go from this node to the peer; start and stop go from "sys" to this node |
| Router.RouteConventions | src/network/networkhandler.py:161-214 | a message's payload passes unchanged; the direction flips between inbound and outbound, and a disconnect keeps its connect's direction |
| Router.Registered | src/network/networkhandler.py:161-208 | a connect maps the peer id to the link; a disconnect removes only that id, absent or not; every other id is untouched |
| Router.RegisteredConsistent | src/network/networkhandler.py:161-208 | handling an event keeps every id mapped to a link with that id |
| Router.SameIdShadows | src/network/networkhandler.py:171-208 | re-registering an id overwrites it, and a disconnect of the older link removes the newer one's entry |
| Router.Forward | src/network/networkhandler.py:228-233 | never more envelopes than events |
| Router.ForwardOnce | src/network/networkhandler.py:148-233 | one envelope per event other than `node_send_success`, and no envelope of that kind: nothing dropped, nothing duplicated (positions: `Router.ForwardInOrder`) |
| Router.ForwardInOrder | src/network/networkhandler.py:148-233 | every event other than `node_send_success` (the daemon event) has its own envelope in the output, at its index minus the daemon events before it: contents and order both kept |
| Router.ForwardAt | src/network/networkhandler.py:148-233 | the envelope of one such event sits at exactly that position |
| Router.OtherKind | src/network/networkhandler.py:222-225 | only the daemon event carries the kind `node_send_success` |
| Router.ForwardIsKept | src/network/networkhandler.py:148-233 | forwarding keeps the events other than `node_send_success`, each turned into its envelope, in order |
| Router.KeptAt | src/network/networkhandler.py:148-233 | the image of each kept event sits at its index minus the daemon events before it |
| Router.KeptAll | src/network/networkhandler.py:148-233 | a property of every kept event's image holds of every element kept |
| Router.KeptLength | src/network/networkhandler.py:148-233 | one image per event other than `node_send_success` |
| Router.RegisteredAllConsistent | src/network/networkhandler.py:161-208 | any sequence of events keeps the registry consistent |
| Router.SendStepsCompose | src/network/networkhandler.py:77-78 | two stretches of sending, at most one of which sends to a link, make one stretch that sends if either does |
| Router.Handler.constructor | src/network/networkhandler.py:24-41 | the given or generated id, a fresh node with that id and address and cap 1, an empty registry; the node's start is relayed iff listening |
| Router.Handler.NodeCallback | src/network/networkhandler.py:127-233 | the registry is updated as `Registered` says and the envelope is passed on iff it is not a daemon event |
| Router.Handler.Relay | src/network/networkhandler.py:127-233 | after a run of events the registry and the forwarded envelopes are those of the whole run |
| Router.Handler.SendToNodeWithId | src/network/networkhandler.py:89-95 | sends once through the link registered under the id, if it belongs to the node; every other link is unchanged; an unknown id sends nothing |
| Router.Handler.SendToAllNodes | src/network/networkhandler.py:77-78 | every registered link of the node gets exactly one send; the others are untouched |
| Router.Handler.SendOne | src/network/networkhandler.py:77-78 | one round of the loop: the link under that id gets its send, the others keep their state |
| Router.Handler.ConnectToNode | src/network/networkhandler.py:122-124 | a link is made iff the address is not yet connected and answers as a new peer; then it is a fresh outbound link to that address, the node logs its `outbound_node_connected`, the reconnect list gains the target with no tries, the registry holds it under its id and its connection is relayed; otherwise node, registry and relay are unchanged |
| Router.Handler.Stop | src/network/networkhandler.py:97-103 | raises the termination flag |
| Router.Handler.Finish | src/network/networkhandler.py:116-120 | stops the node, whose stop request is relayed |
| Session.Drop | src/maincontroller.py:103 | the character no longer occurs, and nothing is added |
| Session.Purged | src/maincontroller.py:101-103 | only characters of the input outside the removed set remain |
| Session.DropPurged | src/maincontroller.py:102-103 | one more `replace` is purging one more character |
| Session.DropHead | src/maincontroller.py:103 | `replace` works piecewise over a concatenation |
| Session.ProcessUsername | src/maincontroller.py:100-109 | exactly 5 characters, none from the removed set; the first min(5, n) characters of the purged input, padded with uuid hex |
| Session.PurgeAll | src/maincontroller.py:102-103 | the loop of `replace` calls purges every character of the set |
| Session.PurgedNothing | src/maincontroller.py:101-103 | a name without removed characters is kept as it is |
| Session.HexIsValid | src/maincontroller.py:104-106 | uuid padding never adds a removed character |
| Session.ProcessPort | src/maincontroller.py:111-119 | always in [20000, 21000]; a typed number in range is kept; any other result is the fallback draw |
| Session.ProcessPortKeeps | src/maincontroller.py:111-119 | a port in range, typed in decimal, is returned unchanged |
| Session.ParseCommand | src/maincontroller.py:52-85 | `!quit` exactly for that line; chat exactly for lines that are neither it nor start with `!conn`, and then the text unchanged; a connect's parts hold no ':' |
| Session.NoBang | src/maincontroller.py:55 | text without '!' never starts a command |
| Session.ConnArgument | src/maincontroller.py:57 | the text after a single leading `!conn` is the argument |
| Session.StripSpaced | src/maincontroller.py:57 | stripping the space after `!conn` leaves the address |
| Session.ConnRoundTrip | src/maincontroller.py:55-71 | `!conn ip:port` typed with a decimal port parses back to that ip and port, which validates |
| Session.ConnParsed | src/maincontroller.py:55-61 | `!conn ip:digits` with plain parts is read back as those parts |
| Session.ConnAddress | src/maincontroller.py:57 | the argument cut after `!conn` and stripped is `ip:digits` |
| Session.Below | src/maincontroller.py:333-337 | every entry kept is stamped before the pivot |
| Session.AtLeast | src/maincontroller.py:333-337 | every entry kept is stamped at the pivot or later |
| Session.PartitionSplits | src/maincontroller.py:333-337 | the two halves hold exactly the entries of the whole |
| Session.BelowSnoc | src/maincontroller.py:333-337 | the smaller half of one more entry grows by it iff it is stamped before the pivot |
| Session.AtLeastSnoc | src/maincontroller.py:333-337 | the larger half of one more entry grows by it iff it is stamped at the pivot or later |
| Session.SortSpec | src/maincontroller.py:324-352 | for every pivot choice the result is ordered by timestamp and a permutation of the input |
| Session.SortNotStable | src/maincontroller.py:334-335 | two entries with equal stamps can come out in the reverse of their arrival order |
| Session.SortNotIdempotent | src/maincontroller.py:327-348 | with repeated stamps, sorting a sorted list can change it |
| Session.SortedUnique | src/maincontroller.py:324-352 | with distinct stamps, two sorted arrangements of the same entries are equal |
| Session.SortIdempotent | src/maincontroller.py:324-352 | with distinct stamps, sorting the sorted log again changes nothing |
| Session.SortOne | src/maincontroller.py:350-352 | a single entry is returned as it is |
| Session.Partition | src/maincontroller.py:333-337 | the loop splits the rest into the entries before the pivot and those at it or later, both in order |
| Session.QuickSort | src/maincontroller.py:324-352 | the recursive sort computes the reference sort for the same pivot choices |
| Session.Incoming | src/maincontroller.py:121-133 | a str is staged from the sender with the default stamp; bytes and other values are dropped; any staged entry names the sender |
| Session.IncomingRecord | src/maincontroller.py:127-132 | a chat record is staged with the sender's moment and text |
| Session.SendToPeerRaises | src/maincontroller.py:161 | as written, every chat line sent to a peer raises instead of reaching it |
| Session.StartedRoute | src/maincontroller.py:285-287 | the handler's `server_started` envelope carries the text the controller completes into "Server started by" its name, host and port |
| Session.Controller.constructor | src/maincontroller.py:13-48 | phase 0, empty buffer and log, offline, no peer |
| Session.Controller.AddDataBuffer | src/maincontroller.py:164-170 | one entry appended; without a moment it gets the default fixed at definition time |
| Session.Controller.UpdateDataStorage | src/maincontroller.py:172-177 | a non-empty buffer is sorted onto the end of the log and emptied; an empty one changes nothing |
| Session.Controller.ResetDataStorage | src/maincontroller.py:185-186 | the log is emptied |
| Session.Controller.PopDataStorage | src/maincontroller.py:188-190 | exactly the last n entries go when there are n; otherwise the pops raise after emptying the log |
| Session.Controller.PrintDataRoutine | src/maincontroller.py:198-201 | the staged entries, sorted, move to the end of the log |
| Session.Controller.Begin | src/maincontroller.py:240-242 | the name prompt is staged and sorted into the log |
| Session.Controller.Stop | src/maincontroller.py:233-234 | raises the termination flag |
| Session.Controller.UserInputHandler | src/maincontroller.py:258-279 | the first input names the user by `NameFrom` (5 characters) and leaves the port prompt last on a fresh log; the second sets the clamped port, takes the prompt back off, starts the network and logs its `server_started` line, online; later inputs are commands as `Handled` says |
| Session.Controller.NameUser | src/maincontroller.py:259-271 | a name derived from the input, the welcome line sorted into a fresh log, the port prompt after it |
| Session.Controller.Welcome | src/maincontroller.py:262-271 | the log is the welcome line and staged entries, sorted, followed by the port prompt |
| Session.Controller.Reset | src/maincontroller.py:262-264 | the log is reset to the staged entries plus one, sorted |
| Session.Controller.Append | src/maincontroller.py:214-215 | the single staged entry moves to the end of the log |
| Session.Controller.PickPort | src/maincontroller.py:273-277 | the clamped port, the prompt removed from the log, one start of the network with host, port and name, then the node's `server_started` line sorted into the log and the controller online; the peer is untouched |
| Session.Controller.StartNetwork | src/maincontroller.py:274-277 | the port is set, the prompt leaves the log, and the network is started with host, port and name |
| Session.Controller.ServerUp | src/maincontroller.py:217-230 | the `server_started` event the new node reports sets the controller online, and `print_data_routine` moves its line into the log; the peer is untouched |
| Session.Controller.ProcessUserInput | src/maincontroller.py:51-96 | `!quit` stages its line and stops; `!conn` stages exactly one line and connects only with a valid address and no peer, taking the link it made as the peer and staging its connection line first; other text is staged and sent only when online with a peer; nothing is moved into the log |
| Session.Controller.Dispatch | src/maincontroller.py:51-96 | each command leaves exactly the staged lines, flag, peer and calls `Handled` describes; only `!conn` can change the peer |
| Session.Controller.Say | src/maincontroller.py:86-96 | the line is staged under the user's name at the current moment and sent as a record iff online with a peer |
| Session.Controller.Connect | src/maincontroller.py:55-85 | an invalid address or an existing peer only stages a complaint; otherwise one connect call to the typed port and a line saying so, preceded, when a link was made, by its `outbound_node_connected` line, with that link as the peer |
| Session.Controller.SendToPeer | src/maincontroller.py:157-161 | the record of moment and text is sent to the peer's id |
| Session.Controller.PeerUp | src/maincontroller.py:288-310 | a connect event remembers the peer and its link and stages the event's line |
| Session.Controller.ProcessNetworkMessage | src/maincontroller.py:121-133 | a str is staged; a chat record is staged and the buffer sorted into the log; bytes are dropped; where it raises (`ok` false, such as a dict without `timestamp`) nothing changes, and that is the raise that ends the receive thread in `Network.Link.Run` |
| Session.Controller.Stage | src/maincontroller.py:126-133 | the entry is staged, and with a record the staged entries are sorted into the log |
| Session.Controller.NetworkCallback | src/maincontroller.py:282-321 | start sets online and stages its line, leaving log and peer alone; a connect sets the peer id (source for inbound, dest for outbound) and raises unless it is registered, leaving buffer and peer otherwise as they were, and if registered takes its link and stages its line; either disconnect clears the peer, whichever it was, and stages its line; connects and disconnects leave the log and online flag alone; a message stages a str, stages and sorts a dict into the log, or changes nothing when it is dropped or raises, and leaves the peer alone; other kinds change nothing |
| Encrypt.ModPow | src/encrypt/elgamal.py:96 | the result lies in [0, modulus) |
| Encrypt.PowAdd | src/encrypt/elgamal.py:135 | exponents add under multiplication |
| Encrypt.PowMul | src/encrypt/elgamal.py:135 | a power of a power multiplies exponents |
| Encrypt.PowModBase | src/encrypt/elgamal.py:135 | reducing the base first leaves the remainder of a power unchanged |
| Encrypt.SharedSecretAgrees | src/encrypt/elgamal.py:135-138 | `(g^x mod p)^k` and `(g^k mod p)^x` agree modulo p: both sides reach the same secret |
| Encrypt.Gcd | src/encrypt/elgamal.py:262-267 | raises exactly when an argument is 0; otherwise a positive common divisor |
| Encrypt.GcdGreatest | src/encrypt/elgamal.py:262-267 | every common divisor divides the result, so it is the greatest |
| Encrypt.GcdSymmetric | src/encrypt/elgamal.py:262-263 | the argument order does not matter |
| Encrypt.DividesDifference | src/encrypt/elgamal.py:264-267 | a divisor of b divides a iff it divides a mod b |
| Encrypt.GcdBezout | src/encrypt/elgamal.py:262-267 | the result is an integer combination of the arguments |
| Encrypt.PowInvertible | src/encrypt/elgamal.py:70 | every power of a base coprime to the modulus is coprime to it |
| Encrypt.InvertibleNotMultiple | src/encrypt/elgamal.py:70 | a number coprime to a modulus of at least 2 is not a multiple of it |
| Encrypt.Utf16 | src/encrypt/elgamal.py:9-10 | two bytes per character in the Basic Multilingual Plane, more otherwise |
| Encrypt.CodeUnits | src/encrypt/elgamal.py:9-10 | one little-endian code unit holding the character below U+10000, a surrogate pair above |
| Encrypt.Utf16Bmp | src/encrypt/elgamal.py:9-10 | Basic Multilingual Plane text is its code points as little-endian units |
| Encrypt.Utf16Ascii | src/encrypt/elgamal.py:9-10 | an ASCII character is its byte followed by 0 |
| Encrypt.MarkersShape | src/encrypt/elgamal.py:9-10 | both markers are 8 bytes, start with the byte order mark, and differ in the digit |
| Encrypt.Pack | src/encrypt/elgamal.py:177-179 | a packet ends with its marker |
| Encrypt.PackUnpack | src/encrypt/elgamal.py:193-197 | unpacking a packet with any 8-byte marker gives the packed value back |
| Encrypt.UnpackIgnoresMarker | src/encrypt/elgamal.py:193-197 | the marker is never checked: bodies that agree unpack alike |
| Encrypt.KeyOf | src/encrypt/elgamal.py:132-138 | a key is read only from a dict holding all three fields |
| Encrypt.KeyValueRoundTrip | src/encrypt/elgamal.py:110-116 | the key dict is serialisable and reads back as the key |
| Encrypt.PublicKeyOf | src/encrypt/elgamal.py:96-116 | the record holds the modulus, the base and base^private mod modulus, in range |
| Encrypt.PublicKeyRoundTrip | src/encrypt/elgamal.py:177-197 | `unpack_public_key(pack_public_key())` is the instance's public key |
| Encrypt.IntList | src/encrypt/elgamal.py:145 | the masks as a list of ints, one per entry |
| Encrypt.CiphersOf | src/encrypt/elgamal.py:157 | a ciphertext is read only from a value that is one |
| Encrypt.CiphersValueRoundTrip | src/encrypt/elgamal.py:145-157 | a ciphertext's list is serialisable and reads back as the ciphertext |
| Encrypt.CiphersRoundTrip | src/encrypt/elgamal.py:214-233 | `unpack_encrypted_message(pack_encrypted_message(c))` is c |
| Encrypt.Masks | src/encrypt/elgamal.py:143-144 | one entry per character: the secret times its code point |
| Encrypt.Encrypt | src/encrypt/elgamal.py:132-145 | c1 is base^k mod p, and c2 masks each character with the secret (g^x mod p)^k mod p |
| Encrypt.PackToBytesMessage | src/encrypt/elgamal.py:247-248 | the packet of the ciphertext `encrypt` produces |
| Encrypt.Unmask | src/encrypt/elgamal.py:160-163 | succeeds exactly when the secret is non-zero and every quotient is a character; then one character per entry |
| Encrypt.QuotExact | src/encrypt/elgamal.py:162 | dividing a mask by its positive secret gives the code point back |
| Encrypt.UnmaskMasks | src/encrypt/elgamal.py:143-162 | unmasking with the secret that masked gives the message back |
| Encrypt.Decrypt | src/encrypt/elgamal.py:157-163 | the loop unmasks c2 with the secret computed from c1 |
| Encrypt.SecretNonZero | src/encrypt/elgamal.py:69-71 | the shared secret is never 0, because the base is coprime to the modulus |
| Encrypt.DecryptEncrypt | src/encrypt/elgamal.py:157-163 | decrypting what was encrypted under the instance's own public key gives the message |
| Encrypt.DecryptAsWrittenRaises | src/encrypt/elgamal.py:158 | as written, even a ciphertext for the instance's own key fails to decrypt |
| EndToEnd.RecordOnWire | src/network/nodeconnection.py:134-137 | a chat record goes on the wire as its JSON text plus one delimiter, and the text holds no delimiter |
| EndToEnd.ChatArrives | src/network/networkhandler.py:211-214 | a sent chat record is cut as one frame with nothing left, parsed back, routed from the link's id, and staged with the sender's moment and text |
| EndToEnd.UntimedChatEndsThread | src/network/nodeconnection.py:88-91 | a dict holding only `content` reaches the other side as one frame, whose delivery raises in `process_network_message`: the receive thread ends on it with its flag clear |
| EndToEnd.DictOnWire | src/network/nodeconnection.py:134-137 | a serialisable dict goes on the wire as one valid frame that parses back into the dict |
| EndToEnd.OneFrameRaises | src/network/nodeconnection.py:63-96 | a thread that reads one frame whose delivery raises hands it on and ends by the exception, with an empty buffer |

## Left out

- Threads and timing. Each thread body is a sequential method; interleavings, `terminate_flag` polling, `time.sleep`, `join` and the busy loops of `NetworkHandler.run` and `MainController.run` are not modelled.
- Socket calls. `bind`, `listen`, `settimeout` and `close` are not modelled; `recv`, connect-and-handshake and `sendall` are parameters (`RecvResult`, `Dial`, a delivered flag).
- Network.Node.Accept: the id the admitting node sends back (`conn.send` at `src/network/node.py:167`) is returned as `reply` but not put on the new link's `wire`, and a crash ends only the call, not the listening thread.
- The terminal UI (`src/termui/`), `update_text_buffer`, `create_text_from_data` (`strftime`), `update_peer_ui` and the `update_*_info` calls: rendering with no state the core reads.
- `debug_print`, `print` and logging.
- Randomness. The uuid ids, fallback ports, quicksort pivots (`pick`) and the ephemeral key are parameters within their stated bounds.
- Foreign libraries. `json.dumps`/`json.loads` are a codec with the laws `JsonLaws` names, `datetime.isoformat`/`fromisoformat` a codec with `IsoLaws`, and `socket.inet_aton` (`validate_ip`) a predicate parameter.
- Encrypt.Drawn: the Miller-Rabin test (`miller_test`, `is_prime`) is not modelled. The modulus is only known to lie in [10^20, 10^50] and to be coprime to the base; the round trip needs nothing more.
- Encrypt.Unmask: `int(a / b)` is integer division truncated toward zero. It matches Python's float division on exact multiples, which every mask is, but not on huge non-multiples, where the float rounds.
- Encrypt.Gcd: arguments are natural numbers. The source only calls it on positive draws.
- Encrypt.Utf16: little-endian byte order only (a byte order mark of FF FE). Lone surrogates cannot occur, since a Dafny `char` is a Unicode scalar value.
- Session.SortIdempotent: proved only for entries with distinct timestamps. With repeated stamps the sort is neither stable nor idempotent (`Session.SortNotStable`, `Session.SortNotIdempotent`).
- Router.Handler.SendToAllNodes: the order in which ids are visited is not modelled. Only the set of links written to and what each receives is stated.
- Network.Link.Run: only a finite sequence of reads is modelled. A thread still reading when the sequence runs out has not disconnected.
- A `Node` without a callback: the handler always passes one, so every event goes to the event log.
- Text.ParseInt: only the ASCII digits 0-9 are digits. Python's `int()` also accepts the other Unicode decimal digits (Arabic-Indic, full-width and so on), which the model rejects.
- Session.ProcessPort: a port typed in non-ASCII decimal digits is taken as no number, so the fallback is drawn where Python keeps the typed port (see `Text.ParseInt`).
- Session.ValidatePort: a port typed in non-ASCII decimal digits is refused where Python accepts it (see `Text.ParseInt`).
- Encrypt.Unmask: a quotient that is a surrogate code point (0xD800..0xDFFF) counts as a failure. Python's `chr` accepts it and builds a string with a lone surrogate, which a Dafny `char` cannot hold.
- Json.Value: there are no floats. `process_network_message` drops a float like any value that is neither bytes, str nor dict. Text that `json.loads` would read as a float (such as "1.5") is outside the codec's laws: the model's codec returns some other value or nothing for it.
- `MainController.run` calls `print_data_routine` continuously (`src/maincontroller.py:246-247`), so staged entries reach the log at some later moment; only the calls made inside the handlers are modelled.
- Session.Controller.PickPort: the node's socket is assumed to bind. A failed bind, which raises inside `NetworkHandler.__init__`, is not modelled.
- Encryption negotiation between peers: the code has only empty branches for it (`src/maincontroller.py:95-98`, `src/maincontroller.py:122-124`).

## Findings

| source | as written | input that shows it | evidently intended | confidence | as-written member | corrected member |
|---|---|---|---|---|---|---|
| src/network/node.py:387-389 | the policy's first argument reads an attribute of the host string, so the call raises AttributeError | any reconnect target with no matching outbound link | call the policy with host, port and tries | high, not executed | Network.SweepAsWritten, Network.AsWrittenSweepCrashes | Network.Node.ReconnectNodes, Network.SweptKeepsAll |
| src/network/node.py:397 | a target is removed from the list the loop is walking, so the next target is skipped | two disconnected targets and a policy that refuses both: the second survives with its count unchanged | visit every target once and drop those refused | high, not executed | Network.SweepInPlace, Network.InPlaceRemovalSkips | Network.Node.ReconnectNodes, Network.SweptKeepsAll |
| src/encrypt/elgamal.py:158 | the secret is computed with `self.power`, which the class does not define | any ciphertext, even one made for the instance's own key | the built-in three-argument `pow` | high, not executed | Encrypt.DecryptAsWritten, Encrypt.DecryptAsWrittenRaises | Encrypt.Decrypt, Encrypt.DecryptEncrypt |
| src/maincontroller.py:161 | calls `send_to_node` on the network handler, which defines only `send_to_node_with_id` | any chat line typed while online with a peer | send the record to the peer's id with `send_to_node_with_id` | high, not executed | Session.SendToPeerAsWritten, Session.SendToPeerRaises | Session.Controller.SendToPeer, EndToEnd.ChatArrives |
