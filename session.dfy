/**
  * `src/maincontroller.py`: the application between the terminal and the network. It
  * takes the user's first input as a name and the second as a port, treats every later
  * input as a command or a chat line, follows the peer through the network's callbacks,
  * and keeps a staging list of log entries that is sorted into the shown log.
  *
  * Calls into the network handler are recorded as `NetCall` values rather than made.
  */
module Session {
  import opened Wrappers
  import opened Text
  import opened Json
  import opened Network
  import opened Router

  /** A `datetime`, as a count of microseconds: only its order and its ISO text matter here. */
  type Timestamp = int

  /** `datetime.isoformat` and `datetime.fromisoformat` (None where it raises ValueError). */
  datatype IsoCodec = IsoCodec(format: Timestamp -> string, parse: string -> Option<Timestamp>)

  /** Reading back the ISO text of a moment gives that moment. */
  ghost predicate IsoLaws(iso: IsoCodec) {
    forall t :: iso.parse(iso.format(t)) == Some(t)
  }

  /** An entry of `data_buffer` / `data_storage`: `{"source", "timestamp", "message"}`. */
  datatype Entry = Entry(source: string, timestamp: Timestamp, message: Value)

  /** A call the controller makes on its `NetworkHandler`. */
  datatype NetCall =
    | Start(host: string, port: int, id: string)    // NetworkHandler(...) and start()
    | ConnectTo(host: string, port: int)              // connect_to_node
    | SendTo(peer: string, record: Value)             // a chat record sent to the peer

  // ---------------------------------------------------------------- user name

  /** The characters `process_username` removes. */
  const InvalidChars: string := "'\"\\:@#$!~%^&*()_+"

  /** `s.replace(c, "")` */
  function Drop(s: string, c: char): (r: string)
    ensures c !in r && |r| <= |s|
  {
    if s == [] then [] else (if s[0] == c then [] else [s[0]]) + Drop(s[1..], c)
  }

  /** `s` without any character of `cs`, order kept. */
  function Purged(s: string, cs: string): (r: string)
    ensures forall i | 0 <= i < |r| :: r[i] in s && r[i] !in cs
  {
    if s == [] then [] else (if s[0] in cs then [] else [s[0]]) + Purged(s[1..], cs)
  }

  /** Removing one more character from a purged string purges it of that one too. */
  lemma {:induction false} DropPurged(s: string, cs: string, c: char)
    ensures Drop(Purged(s, cs), c) == Purged(s, cs + [c])
  {
    if s != [] {
      DropPurged(s[1..], cs, c);
      var head := if s[0] in cs then [] else [s[0]];
      assert Purged(s, cs) == head + Purged(s[1..], cs);
      DropHead(head, Purged(s[1..], cs), c);
    }
  }

  lemma DropHead(head: string, tail: string, c: char)
    requires |head| <= 1
    ensures Drop(head + tail, c) == Drop(head, c) + Drop(tail, c)
  {
    if head == [] {
      assert head + tail == tail;
    } else {
      var h := head + tail;
      var x := if head[0] == c then [] else [head[0]];
      assert h[0] == head[0] && h[1..] == tail;
      assert head[1..] == [];
      assert Drop(h, c) == x + Drop(tail, c);
      assert Drop(head, c) == x + Drop([], c);
      assert Drop([], c) == [];
    }
  }

  predicate IsHex(c: char) {
    '0' <= c <= '9' || 'a' <= c <= 'f'
  }

  /**
    * `r` is the name made of `username`: its first five characters once purged of the
    * invalid ones, padded with the first digits of `uuidHex` when fewer remain.
    */
  predicate NameFrom(r: string, username: string, uuidHex: string) {
    var clean := Purged(username, InvalidChars);
    var m := if |clean| < 5 then |clean| else 5;
    |uuidHex| >= 5 && |r| == 5 && r[..m] == clean[..m] && r[m..] == uuidHex[..5 - m]
  }

  /**
    * `process_username`: strip the invalid characters one kind after the other, then
    * keep the first five characters, or pad a shorter name with the first characters of
    * `uuidHex` (the first eight hex digits of a random UUID).
    */
  method ProcessUsername(username: string, uuidHex: string) returns (r: string)
    requires |uuidHex| == 8 && forall i | 0 <= i < 8 :: IsHex(uuidHex[i])
    ensures |r| == 5
    ensures forall i | 0 <= i < 5 :: r[i] !in InvalidChars
    ensures NameFrom(r, username, uuidHex)
  {
    var name := PurgeAll(username, InvalidChars);
    if |name| < 5 {
      r := name + uuidHex[..5 - |name|];
      forall j | 0 <= j < 5 ensures r[j] !in InvalidChars {
        if j >= |name| {
          assert r[j] == uuidHex[j - |name|];
          HexIsValid(r[j]);
        }
      }
    } else {
      r := name[..5];
    }
  }

  /** The loop of `process_username`: one `replace` per character of `cs`. */
  method PurgeAll(s: string, cs: string) returns (r: string)
    ensures r == Purged(s, cs)
  {
    r := s;
    var i := 0;
    assert Purged(s, cs[..0]) == s by {
      PurgedNothing(s, cs[..0]);
    }
    while i < |cs|
      invariant i <= |cs|
      invariant r == Purged(s, cs[..i])
    {
      DropPurged(s, cs[..i], cs[i]);
      assert cs[..i + 1] == cs[..i] + [cs[i]];
      r := Drop(r, cs[i]);
      i := i + 1;
    }
    assert cs[..i] == cs;
  }

  lemma {:induction false} PurgedNothing(s: string, cs: string)
    requires cs == []
    ensures Purged(s, cs) == s
  {
    if s != [] {
      PurgedNothing(s[1..], cs);
      assert s == [s[0]] + s[1..];
    }
  }

  lemma HexIsValid(c: char)
    requires IsHex(c)
    ensures c !in InvalidChars
  {
  }

  // ---------------------------------------------------------------- port

  /**
    * `process_port`: a text `int()` accepts with a value in [20000, 21000] is that port;
    * anything else is replaced by `fallback`, the draw of `random.randint(20000, 21000)`.
    */
  function ProcessPort(text: string, fallback: int): (r: int)
    requires 20000 <= fallback <= 21000
    ensures 20000 <= r <= 21000
    ensures ParseInt(text).Some? && 20000 <= ParseInt(text).value <= 21000 ==> r == ParseInt(text).value
    ensures r != fallback ==> ParseInt(text) == Some(r)
  {
    match ParseInt(text)
    case Some(n) => if 20000 <= n <= 21000 then n else fallback
    case None => fallback
  }

  /** A port in range, typed in decimal, is kept. */
  lemma ProcessPortKeeps(n: int, fallback: int)
    requires 20000 <= n <= 21000 && 20000 <= fallback <= 21000
    ensures ProcessPort(IntToString(n), fallback) == n
  {
    IntToStringRoundTrip(n);
  }

  /** `validate_port`: does `int()` accept the text? */
  predicate ValidatePort(text: string) {
    ParseInt(text).Some?
  }

  // ---------------------------------------------------------------- commands

  /** What `process_user_input` makes of a line. */
  datatype Command =
    | Quit
    | Conn(ip: string, port: string)   // `!conn` with an argument of two ':'-separated parts
    | Malformed                        // `!conn` with anything else
    | Chat(text: string)

  function Last(parts: seq<string>): string
    requires |parts| > 0
  {
    parts[|parts| - 1]
  }

  /**
    * The command of a line: `!quit` exactly, or a line starting with `!conn` whose text
    * after the last `!conn`, stripped, splits on ':' into the address, or chat.
    */
  function ParseCommand(line: string): (c: Command)
    ensures c.Quit? <==> line == "!quit"
    ensures c.Chat? <==> line != "!quit" && !StartsWith(line, "!conn")
    ensures c.Chat? ==> c.text == line
    ensures c.Conn? ==> ':' !in c.ip && ':' !in c.port
  {
    if line == "!quit" then Quit
    else if StartsWith(line, "!conn") then
      var parts := Split(Strip(Last(Split(line, "!conn"))), ":");
      if |parts| == 2 then
        ContainsChar(parts[0], ':');
        ContainsChar(parts[1], ':');
        Conn(parts[0], parts[1])
      else Malformed
    else Chat(line)
  }

  /** Text without '!' holds no `!conn`. */
  lemma NoBang(s: string)
    requires '!' !in s
    ensures !Contains(s, "!conn")
  {
    forall j | 0 <= j <= |s| ensures !OccursAt(s, "!conn", j) {
      if j + 5 <= |s| {
        assert s[j..j + 5][0] == s[j];
      }
    }
  }

  /** The text after a single leading `!conn` is the command's argument. */
  lemma ConnArgument(rest: string)
    requires '!' !in rest
    ensures Last(Split("!conn" + rest, "!conn")) == rest
  {
    var line := "!conn" + rest;
    NoBang(rest);
    assert FindSub(line, "!conn") == 0 by {
      assert line[..5] == "!conn";
    }
    assert line[5..] == rest;
    SplitNone(rest, "!conn");
    assert Split(line, "!conn") == [line[..0]] + [rest];
  }

  /** Stripping the space that follows `!conn` leaves the address. */
  lemma StripSpaced(addr: string)
    requires addr != [] && !IsSpace(addr[0]) && !IsSpace(addr[|addr| - 1])
    ensures Strip(" " + addr) == addr
  {
    var rest := " " + addr;
    assert IsSpace(rest[0]) && rest[1..] == addr;
    assert StripLeft(rest) == StripLeft(addr);
    StripUnspaced(addr);
  }

  /**
    * The command a user types to connect, `!conn <ip>:<port>`, is read back as that
    * address and port; the port is valid and stands for the number typed.
    */
  lemma ConnRoundTrip(ip: string, port: int)
    requires ip != [] && ':' !in ip && '!' !in ip && !IsSpace(ip[0])
    ensures ParseCommand("!conn " + ip + ":" + IntToString(port)) == Conn(ip, IntToString(port))
    ensures ValidatePort(IntToString(port)) && ParseInt(IntToString(port)) == Some(port)
  {
    var digits := IntToString(port);
    IntToStringRoundTrip(port);
    assert ':' !in digits && '!' !in digits;
    ConnParsed(ip, digits);
  }

  /** `!conn <ip>:<port>` with neither part holding ':' or '!' is read back as those parts. */
  lemma ConnParsed(ip: string, digits: string)
    requires ip != [] && ':' !in ip && '!' !in ip && !IsSpace(ip[0])
    requires digits != [] && ':' !in digits && '!' !in digits && !IsSpace(digits[|digits| - 1])
    ensures ParseCommand("!conn " + ip + ":" + digits) == Conn(ip, digits)
  {
    var addr := ip + [':'] + digits;
    ConnLine(ip, digits);
    assert StartsWith("!conn" + (" " + addr), "!conn");
    ConnAddress(ip, digits);
    SplitAround(ip, digits, ':');
  }

  /** The argument of such a line, cut after `!conn` and stripped, is `<ip>:<port>`. */
  lemma ConnAddress(ip: string, digits: string)
    requires ip != [] && '!' !in ip && !IsSpace(ip[0])
    requires digits != [] && '!' !in digits && !IsSpace(digits[|digits| - 1])
    ensures Strip(Last(Split("!conn" + (" " + (ip + [':'] + digits)), "!conn"))) == ip + [':'] + digits
  {
    var addr := ip + [':'] + digits;
    assert '!' !in " " + addr;
    ConnArgument(" " + addr);
    assert addr[0] == ip[0] && addr[|addr| - 1] == digits[|digits| - 1];
    StripSpaced(addr);
  }

  lemma ConnLine(ip: string, digits: string)
    ensures "!conn " + ip + ":" + digits == "!conn" + (" " + (ip + [':'] + digits))
  {
    assert "!conn " == "!conn" + " ";
    assert ":" == [':'];
  }

  // ---------------------------------------------------------------- sorting

  /** Every entry of `s` is stamped before `p`. */
  predicate Under(s: seq<Entry>, p: Timestamp) {
    forall i | 0 <= i < |s| :: s[i].timestamp < p
  }

  /** Every entry of `s` is stamped at `p` or later. */
  predicate Over(s: seq<Entry>, p: Timestamp) {
    forall i | 0 <= i < |s| :: s[i].timestamp >= p
  }

  /** The entries of `xs` stamped before `p`, in order. */
  function Below(xs: seq<Entry>, p: Timestamp): (r: seq<Entry>)
    ensures Under(r, p)
  {
    if xs == [] then []
    else (if xs[0].timestamp < p then [xs[0]] else []) + Below(xs[1..], p)
  }

  /** The entries of `xs` stamped at `p` or later, in order. */
  function AtLeast(xs: seq<Entry>, p: Timestamp): (r: seq<Entry>)
    ensures Over(r, p)
  {
    if xs == [] then []
    else (if xs[0].timestamp >= p then [xs[0]] else []) + AtLeast(xs[1..], p)
  }

  /** The two halves of a partition hold the entries of the whole, no more and no fewer. */
  lemma {:induction false} PartitionSplits(xs: seq<Entry>, p: Timestamp)
    ensures multiset(Below(xs, p)) + multiset(AtLeast(xs, p)) == multiset(xs)
    ensures |Below(xs, p)| + |AtLeast(xs, p)| == |xs|
  {
    if xs != [] {
      PartitionSplits(xs[1..], p);
      assert xs == [xs[0]] + xs[1..];
    }
  }

  lemma {:induction false} BelowSnoc(xs: seq<Entry>, x: Entry, p: Timestamp)
    ensures Below(xs + [x], p) == Below(xs, p) + (if x.timestamp < p then [x] else [])
  {
    if xs != [] {
      BelowSnoc(xs[1..], x, p);
      assert (xs + [x])[1..] == xs[1..] + [x];
    }
  }

  lemma {:induction false} AtLeastSnoc(xs: seq<Entry>, x: Entry, p: Timestamp)
    ensures AtLeast(xs + [x], p) == AtLeast(xs, p) + (if x.timestamp >= p then [x] else [])
  {
    if xs != [] {
      AtLeastSnoc(xs[1..], x, p);
      assert (xs + [x])[1..] == xs[1..] + [x];
    }
  }

  predicate Sorted(xs: seq<Entry>) {
    forall i, j | 0 <= i < j < |xs| :: xs[i].timestamp <= xs[j].timestamp
  }

  /**
    * `quicksort_dict_in_list` with key `timestamp`: `pick` stands for `random.randint`,
    * choosing the pivot's index among the list's positions. Entries stamped below the
    * pivot go before it, the others after it.
    */
  function Sort(xs: seq<Entry>, pick: seq<Entry> -> nat): seq<Entry>
    decreases |xs|
  {
    if |xs| <= 1 then xs
    else
      var k := pick(xs) % |xs|;
      var pivot := xs[k];
      var rest := xs[..k] + xs[k + 1..];
      var smaller, larger := Below(rest, pivot.timestamp), AtLeast(rest, pivot.timestamp);
      PartitionSplits(rest, pivot.timestamp);
      var low, high := Sort(smaller, pick), Sort(larger, pick);
      if smaller == [] then [pivot] + high
      else if larger == [] then low + [pivot]
      else low + [pivot] + high
  }

  /** The sort's result is in timestamp order and holds exactly the input's entries, whatever the pivots. */
  lemma {:induction false} SortSpec(xs: seq<Entry>, pick: seq<Entry> -> nat)
    ensures Sorted(Sort(xs, pick))
    ensures multiset(Sort(xs, pick)) == multiset(xs)
    decreases |xs|
  {
    if |xs| > 1 {
      var k := pick(xs) % |xs|;
      var pivot := xs[k];
      var rest := xs[..k] + xs[k + 1..];
      var smaller, larger := Below(rest, pivot.timestamp), AtLeast(rest, pivot.timestamp);
      PartitionSplits(rest, pivot.timestamp);
      SortSpec(smaller, pick);
      SortSpec(larger, pick);
      Assemble(xs, k, smaller, larger, Sort(smaller, pick), Sort(larger, pick));
    }
  }

  /** The halves, sorted, go on either side of the pivot. */
  lemma Assemble(xs: seq<Entry>, k: nat, smaller: seq<Entry>, larger: seq<Entry>, low: seq<Entry>, high: seq<Entry>)
    requires k < |xs|
    requires multiset(smaller) + multiset(larger) == multiset(xs[..k] + xs[k + 1..])
    requires Under(smaller, xs[k].timestamp) && Over(larger, xs[k].timestamp)
    requires Sorted(low) && multiset(low) == multiset(smaller)
    requires Sorted(high) && multiset(high) == multiset(larger)
    ensures var r := low + [xs[k]] + high;
      Sorted(r) && multiset(r) == multiset(xs) &&
      (smaller == [] ==> [xs[k]] + high == r) && (larger == [] ==> low + [xs[k]] == r)
  {
    var pivot := xs[k];
    assert xs == xs[..k] + [pivot] + xs[k + 1..];
    assert multiset(xs) == multiset(xs[..k] + xs[k + 1..]) + multiset{pivot};
    assert multiset(low + [pivot] + high) == multiset(low) + multiset{pivot} + multiset(high);
    Carry(low, smaller, pivot.timestamp);
    CarryOver(high, larger, pivot.timestamp);
    SortedAround(low, pivot, high);
    if smaller == [] {
      assert |multiset(low)| == 0;
      assert low == [];
      assert low + [pivot] + high == [pivot] + high;
    }
    if larger == [] {
      assert |multiset(high)| == 0;
      assert high == [];
      assert low + [pivot] + high == low + [pivot];
    }
  }

  lemma Carry(a: seq<Entry>, b: seq<Entry>, p: Timestamp)
    requires multiset(a) == multiset(b) && Under(b, p)
    ensures Under(a, p)
  {
    forall i | 0 <= i < |a| ensures a[i].timestamp < p {
      assert a[i] in multiset(b);
      var j :| 0 <= j < |b| && b[j] == a[i];
    }
  }

  lemma CarryOver(a: seq<Entry>, b: seq<Entry>, p: Timestamp)
    requires multiset(a) == multiset(b) && Over(b, p)
    ensures Over(a, p)
  {
    forall i | 0 <= i < |a| ensures a[i].timestamp >= p {
      assert a[i] in multiset(b);
      var j :| 0 <= j < |b| && b[j] == a[i];
    }
  }

  lemma SortedAround(low: seq<Entry>, pivot: Entry, high: seq<Entry>)
    requires Sorted(low) && Sorted(high)
    requires Under(low, pivot.timestamp) && Over(high, pivot.timestamp)
    ensures Sorted(low + [pivot] + high)
  {
    var s := low + [pivot] + high;
    forall i, j | 0 <= i < j < |s| ensures s[i].timestamp <= s[j].timestamp {
      if j > |low| {
        assert s[j] == high[j - |low| - 1];
      }
    }
  }

  /**
    * The sort is not stable: with the second of two equally stamped entries as pivot,
    * they come out swapped, since entries stamped like the pivot go after it.
    */
  lemma SortNotStable(pick: seq<Entry> -> nat)
    requires pick([Entry("a", 7, VStr("first")), Entry("b", 7, VStr("second"))]) % 2 == 1
    ensures Sort([Entry("a", 7, VStr("first")), Entry("b", 7, VStr("second"))], pick) ==
            [Entry("b", 7, VStr("second")), Entry("a", 7, VStr("first"))]
  {
    var a, b := Entry("a", 7, VStr("first")), Entry("b", 7, VStr("second"));
    var xs := [a, b];
    assert xs[..1] + xs[2..] == [a];
    assert [a][1..] == [];
    assert Below([a], 7) == [];
    assert AtLeast([a], 7) == [a];
    assert Sort([a], pick) == [a];
  }

  /**
    * Sorting is not idempotent either: with the second entry as pivot each time, two
    * equally stamped entries swap on every pass.
    */
  lemma SortNotIdempotent(pick: seq<Entry> -> nat)
    requires pick([Entry("a", 7, VStr("first")), Entry("b", 7, VStr("second"))]) % 2 == 1
    requires pick([Entry("b", 7, VStr("second")), Entry("a", 7, VStr("first"))]) % 2 == 1
    ensures var xs := [Entry("a", 7, VStr("first")), Entry("b", 7, VStr("second"))];
      Sort(xs, pick) != xs && Sort(Sort(xs, pick), pick) == xs
  {
    var a, b := Entry("a", 7, VStr("first")), Entry("b", 7, VStr("second"));
    SortNotStable(pick);
    var ys := [b, a];
    assert ys[..1] + ys[2..] == [b];
    assert [b][1..] == [];
    assert Below([b], 7) == [];
    assert AtLeast([b], 7) == [b];
    assert Sort([b], pick) == [b];
  }

  /** No two entries of `m` share a stamp, and none occurs twice. */
  ghost predicate DistinctStamps(m: multiset<Entry>) {
    (forall e | e in m :: m[e] == 1) &&
    (forall e1, e2 | e1 in m && e2 in m && e1.timestamp == e2.timestamp :: e1 == e2)
  }

  /** With distinct stamps there is only one order: two sorted arrangements of the same entries are equal. */
  lemma {:induction false} SortedUnique(a: seq<Entry>, b: seq<Entry>)
    requires Sorted(a) && Sorted(b) && multiset(a) == multiset(b) && DistinctStamps(multiset(a))
    ensures a == b
    decreases |a|
  {
    assert |a| == |multiset(a)| == |multiset(b)| == |b|;
    if a != [] {
      SameFirst(a, b);
      TailOf(a);
      TailOf(b);
      FewerDistinct(multiset(a), a[0]);
      SortedUnique(a[1..], b[1..]);
      SameHeadTail(a, b);
    }
  }

  lemma SameHeadTail(a: seq<Entry>, b: seq<Entry>)
    requires a != [] && b != [] && a[0] == b[0] && a[1..] == b[1..]
    ensures a == b
  {
    assert a == [a[0]] + a[1..];
    assert b == [b[0]] + b[1..];
  }

  /** Sorted arrangements of the same distinctly stamped entries start alike. */
  lemma SameFirst(a: seq<Entry>, b: seq<Entry>)
    requires a != [] && b != []
    requires Sorted(a) && Sorted(b) && multiset(a) == multiset(b) && DistinctStamps(multiset(a))
    ensures a[0] == b[0]
  {
    assert b[0] in multiset(a) && a[0] in multiset(b);
    var i :| 0 <= i < |a| && a[i] == b[0];
    var j :| 0 <= j < |b| && b[j] == a[0];
    assert a[0].timestamp <= a[i].timestamp && b[0].timestamp <= b[j].timestamp;
  }

  lemma TailOf(a: seq<Entry>)
    requires a != []
    ensures multiset(a[1..]) == multiset(a) - multiset{a[0]}
  {
    assert a == [a[0]] + a[1..];
  }

  lemma FewerDistinct(m: multiset<Entry>, x: Entry)
    requires DistinctStamps(m)
    ensures DistinctStamps(m - multiset{x})
  {
  }

  /** Sorting a batch whose stamps are distinct a second time changes nothing. */
  lemma SortIdempotent(xs: seq<Entry>, pick: seq<Entry> -> nat)
    requires DistinctStamps(multiset(xs))
    ensures Sort(Sort(xs, pick), pick) == Sort(xs, pick)
  {
    SortSpec(xs, pick);
    SortSpec(Sort(xs, pick), pick);
    SortedUnique(Sort(Sort(xs, pick), pick), Sort(xs, pick));
  }

  lemma SortOne(x: Entry, pick: seq<Entry> -> nat)
    ensures Sort([x], pick) == [x]
  {
  }

  /** The partitioning loop of `quicksort_dict_in_list`. */
  method Partition(rest: seq<Entry>, pivot: Entry) returns (smaller: seq<Entry>, larger: seq<Entry>)
    ensures smaller == Below(rest, pivot.timestamp) && larger == AtLeast(rest, pivot.timestamp)
  {
    smaller, larger := [], [];
    var i := 0;
    while i < |rest|
      invariant i <= |rest|
      invariant smaller == Below(rest[..i], pivot.timestamp) && larger == AtLeast(rest[..i], pivot.timestamp)
    {
      assert rest[..i + 1] == rest[..i] + [rest[i]];
      BelowSnoc(rest[..i], rest[i], pivot.timestamp);
      AtLeastSnoc(rest[..i], rest[i], pivot.timestamp);
      if rest[i].timestamp >= pivot.timestamp {
        larger := larger + [rest[i]];
      } else {
        smaller := smaller + [rest[i]];
      }
      i := i + 1;
    }
    assert rest[..i] == rest;
  }

  /** `quicksort_dict_in_list`, recursive over fresh lists as the source is. */
  method QuickSort(xs: seq<Entry>, pick: seq<Entry> -> nat) returns (r: seq<Entry>)
    ensures r == Sort(xs, pick)
    decreases |xs|
  {
    if |xs| <= 1 {
      return xs;
    }
    var k := pick(xs) % |xs|;
    var pivot := xs[k];
    var rest := xs[..k] + xs[k + 1..];
    var smaller, larger := Partition(rest, pivot);
    PartitionSplits(rest, pivot.timestamp);
    if smaller == [] {
      larger := QuickSort(larger, pick);
      r := [pivot] + larger;
    } else if larger == [] {
      smaller := QuickSort(smaller, pick);
      r := smaller + [pivot];
    } else {
      smaller := QuickSort(smaller, pick);
      larger := QuickSort(larger, pick);
      r := smaller + [pivot] + larger;
    }
  }

  // ---------------------------------------------------------------- network payloads

  /** The record `send_to_peer` builds for a chat line. */
  function Record(iso: IsoCodec, t: Timestamp, text: string): Value {
    VDict(map["timestamp" := VStr(iso.format(t)), "content" := VStr(text)])
  }

  /**
    * What `process_network_message` stages for a payload from `source`: None where it
    * raises (a dict without `content` or `timestamp`, or whose `timestamp` is not ISO
    * text), Some(None) where it stages nothing (bytes, and payloads neither str nor dict).
    */
  function Incoming(source: string, data: Value, iso: IsoCodec, stamp: Timestamp): (r: Option<Option<Entry>>)
    ensures data.VStr? ==> r == Some(Some(Entry(source, stamp, data)))
    ensures !data.VStr? && !data.VDict? ==> r == Some(None)
    ensures r.Some? && r.value.Some? ==> r.value.value.source == source
  {
    match data
    case VStr(s) => Some(Some(Entry(source, stamp, VStr(s))))
    case VDict(fields) =>
      if "content" !in fields || "timestamp" !in fields then None
      else
        (match fields["timestamp"]
         case VStr(text) =>
           (match iso.parse(text)
            case Some(t) => Some(Some(Entry(source, t, fields["content"])))
            case None => None)
         case _ => None)
    case _ => Some(None)
  }

  /** A chat record is staged by the receiver with the sender's moment and text. */
  lemma IncomingRecord(source: string, iso: IsoCodec, t: Timestamp, text: string, stamp: Timestamp)
    requires IsoLaws(iso)
    ensures Incoming(source, Record(iso, t, text), iso, stamp) == Some(Some(Entry(source, t, VStr(text))))
  {
    assert iso.parse(iso.format(t)) == Some(t);
  }

  // ---------------------------------------------------------------- the controller

  /**
    * The line the controller stages for `server_started`: its own prefix around the text
    * `node_callback` builds, `"server_started: {id} @{host}:{port}"`.
    */
  function StartedLine(id: string, host: string, port: int): string {
    "Server started by server_started: " + id + " @" + host + ":" + IntToString(port)
  }

  /** The handler's `server_started` envelope carries the text the controller completes into its line. */
  lemma StartedRoute(id: string, host: string, port: int)
    ensures var env := Route(id, host, port, ServerStarted);
      env.kind == "server_started" && env.data.VStr? && "Server started by " + env.data.s == StartedLine(id, host, port)
  {
  }

  /** The attributes `NetworkHandler` defines. */
  const HandlerAttributes: set<string> := {
    "debug", "terminate_flag", "host", "port", "id", "callback", "node", "conn_info",
    "debug_print", "create_new_node", "send_to_all_nodes", "send_to_node_with_id", "stop",
    "run", "connect_to_node", "node_callback", "generate_random_id"
  }

  /**
    * `send_to_peer` as written: it calls `network_handler.send_to_node`, which does not
    * exist, so the call raises AttributeError (None) instead of sending anything.
    */
  function SendToPeerAsWritten(iso: IsoCodec, peer: string, t: Timestamp, text: string): (r: Option<NetCall>)
  {
    if "send_to_node" in HandlerAttributes then Some(SendTo(peer, Record(iso, t, text))) else None
  }

  /** Every chat line sent while a peer is connected raises instead of reaching it. */
  lemma SendToPeerRaises(iso: IsoCodec, peer: string, t: Timestamp, text: string)
    ensures SendToPeerAsWritten(iso, peer, t, text) == None
  {
  }

  /** The event kinds `network_callback_handler` acts on. */
  const ControllerKinds: set<string> := {
    "server_started", "outbound_node_connected", "inbound_node_connected",
    "outbound_node_disconnected", "inbound_node_disconnected", "node_message"
  }

  /** `MainController` */
  class Controller {
    const host: string
    const defaultStamp: Timestamp      // `add_data_buffer`'s default, evaluated once at definition
    var counter: nat
    var username: string
    var port: Option<int>
    var dataBuffer: seq<Entry>
    var dataStorage: seq<Entry>
    var isOnline: bool
    var havePeer: bool
    var peerId: Option<string>
    var peerConnection: Option<Link>
    var stopping: bool                 // the termination flag
    var calls: seq<NetCall>

    /** A log entry of the system itself. */
    function Sys(text: string): Entry {
      Entry(" sys ", defaultStamp, VStr(text))
    }

    /**
      * Three input phases; while the port is awaited its prompt is the last log entry and
      * nothing is staged; the network is untouched before the port is known; a peer
      * comes with its id and its link.
      */
    ghost predicate Valid()
      reads this
    {
      counter <= 2 &&
      (counter == 1 ==> dataBuffer == [] && dataStorage != [] && dataStorage[|dataStorage| - 1] == Sys("Pick a port : ")) &&
      (counter < 2 ==> !isOnline && !havePeer && calls == []) &&
      (counter == 2 ==> port.Some?) &&
      (havePeer ==> peerId.Some? && peerConnection.Some?)
    }

    constructor (host: string, defaultStamp: Timestamp)
      ensures this.host == host && this.defaultStamp == defaultStamp
      ensures counter == 0 && dataBuffer == [] && dataStorage == [] && calls == []
      ensures !isOnline && !havePeer && peerId == None && peerConnection == None && !stopping
      ensures Valid()
    {
      this.host := host;
      this.defaultStamp := defaultStamp;
      counter := 0;
      username := "";
      port := None;
      dataBuffer := [];
      dataStorage := [];
      isOnline := false;
      havePeer := false;
      peerId := None;
      peerConnection := None;
      stopping := false;
      calls := [];
    }

    /** `add_data_buffer`: stage one entry; without a moment it gets the shared default. */
    method AddDataBuffer(source: string, message: Value, timestamp: Option<Timestamp>)
      modifies this`dataBuffer
      ensures dataBuffer == old(dataBuffer) + [Entry(source, if timestamp.Some? then timestamp.value else defaultStamp, message)]
    {
      var stamp := if timestamp.Some? then timestamp.value else defaultStamp;
      dataBuffer := dataBuffer + [Entry(source, stamp, message)];
    }

    /** `update_data_storage`: sort what is staged onto the end of the log. */
    method UpdateDataStorage(pick: seq<Entry> -> nat)
      modifies this`dataBuffer, this`dataStorage
      ensures old(dataBuffer) == [] ==> dataBuffer == [] && dataStorage == old(dataStorage)
      ensures old(dataBuffer) != [] ==>
        dataBuffer == [] && dataStorage == old(dataStorage) + Sort(old(dataBuffer), pick)
    {
      if |dataBuffer| > 0 {
        var inter := QuickSort(dataBuffer, pick);
        dataBuffer := [];
        dataStorage := dataStorage + inter;
      }
    }

    /** `reset_data_storage` */
    method ResetDataStorage()
      modifies this`dataStorage
      ensures dataStorage == []
    {
      dataStorage := [];
    }

    /**
      * `pop_data_storage(n)`: remove the last `n` entries; with fewer than `n` the log is
      * emptied and IndexError raised (`ok` false).
      */
    method PopDataStorage(n: int) returns (ok: bool)
      modifies this`dataStorage
      ensures ok <==> n <= |old(dataStorage)|
      ensures ok ==> dataStorage == old(dataStorage)[..|old(dataStorage)| - if n < 0 then 0 else n]
      ensures !ok ==> dataStorage == []
    {
      var count := if n < 0 then 0 else n;
      var i := 0;
      while i < count
        invariant i <= count && i <= |old(dataStorage)|
        invariant dataStorage == old(dataStorage)[..|old(dataStorage)| - i]
      {
        if dataStorage == [] {
          return false;
        }
        dataStorage := dataStorage[..|dataStorage| - 1];
        i := i + 1;
      }
      return true;
    }

    /** `print_data_routine`, without the terminal: move the staged entries into the log. */
    method PrintDataRoutine(pick: seq<Entry> -> nat)
      requires Valid()
      modifies this`dataBuffer, this`dataStorage
      ensures Valid()
      ensures dataBuffer == [] && dataStorage == old(dataStorage) + (if old(dataBuffer) == [] then [] else Sort(old(dataBuffer), pick))
    {
      UpdateDataStorage(pick);
    }

    /** The start of `run`: ask for a name. */
    method Begin(pick: seq<Entry> -> nat)
      requires Valid() && counter == 0
      modifies this`dataBuffer, this`dataStorage
      ensures Valid()
      ensures dataBuffer == [] && dataStorage == old(dataStorage) + Sort(old(dataBuffer) + [Sys("Username max 5 char. : ")], pick)
    {
      AddDataBuffer(" sys ", VStr("Username max 5 char. : "), None);
      PrintDataRoutine(pick);
    }

    /** `stop`: raise the termination flag. */
    method Stop()
      modifies this`stopping
      ensures stopping
    {
      stopping := true;
    }

    /**
      * `user_input_handler`: the first input names the user and asks for a port, the
      * second picks the port (the prompt is taken back off the log) and starts the
      * network, which reports `server_started` at once; every later one is a command or
      * a chat line. `now` is the clock, `uuidHex` and `fallback` the random draws,
      * `ipValid` is `socket.inet_aton`, `made` the link `connect_to_node` makes, if any.
      */
    method UserInputHandler(input: string, now: Timestamp, uuidHex: string, fallback: int,
                            ipValid: string -> bool, made: Option<Link>, iso: IsoCodec, pick: seq<Entry> -> nat)
      requires Valid()
      requires |uuidHex| == 8 && (forall i | 0 <= i < 8 :: IsHex(uuidHex[i])) && 20000 <= fallback <= 21000
      modifies this
      ensures Valid()
      ensures old(counter) == 0 ==> (
        counter == 1 && |username| == 5 && NameFrom(username, input, uuidHex) && calls == old(calls) &&
        dataStorage == Sort(old(dataBuffer) + [Sys("Welcome, " + username)], pick) + [Sys("Pick a port : ")])
      ensures old(counter) == 1 ==> (
        counter == 2 && port == Some(ProcessPort(input, fallback)) && isOnline && dataBuffer == [] &&
        dataStorage == old(dataStorage)[..|old(dataStorage)| - 1] + [Sys(StartedLine(username, host, port.value))] &&
        calls == old(calls) + [Start(host, port.value, username)])
      ensures old(counter) == 2 ==> (counter == 2 && username == old(username) &&
        Handled(ParseCommand(input), now, ipValid, made, iso))
    {
      if counter == 0 {
        NameUser(input, uuidHex, pick);
      } else if counter == 1 {
        PickPort(input, fallback, iso, pick);
      } else {
        ProcessUserInput(input, now, ipValid, made, iso);
      }
    }

    /** The first input: the user's name, then the port prompt on a fresh log. */
    method NameUser(input: string, uuidHex: string, pick: seq<Entry> -> nat)
      requires Valid() && counter == 0
      requires |uuidHex| == 8 && forall i | 0 <= i < 8 :: IsHex(uuidHex[i])
      modifies this`username, this`counter, this`dataBuffer, this`dataStorage
      ensures Valid()
      ensures counter == 1 && NameFrom(username, input, uuidHex)
      ensures dataStorage == Sort(old(dataBuffer) + [Sys("Welcome, " + username)], pick) + [Sys("Pick a port : ")]
    {
      var name := ProcessUsername(input, uuidHex);
      username := name;
      counter := 1;
      Welcome(pick);
    }

    /** Greet the user on a fresh log and ask for a port. */
    method Welcome(pick: seq<Entry> -> nat)
      modifies this`dataBuffer, this`dataStorage
      ensures dataBuffer == []
      ensures dataStorage == Sort(old(dataBuffer) + [Sys("Welcome, " + username)], pick) + [Sys("Pick a port : ")]
      ensures dataStorage != [] && dataStorage[|dataStorage| - 1] == Sys("Pick a port : ")
    {
      Reset(" sys ", VStr("Welcome, " + username), pick);
      Append(" sys ", VStr("Pick a port : "), pick);
    }

    /** Stage one entry with the default stamp on a fresh log, then sort the staged entries in. */
    method Reset(source: string, message: Value, pick: seq<Entry> -> nat)
      modifies this`dataBuffer, this`dataStorage
      ensures dataBuffer == []
      ensures dataStorage == Sort(old(dataBuffer) + [Entry(source, defaultStamp, message)], pick)
    {
      AddDataBuffer(source, message, None);
      ghost var staged := Sort(dataBuffer, pick);
      ResetDataStorage();
      UpdateDataStorage(pick);
      assert dataStorage == [] + staged;
    }

    /** Stage one entry with the default stamp alone and move it to the end of the log. */
    method Append(source: string, message: Value, pick: seq<Entry> -> nat)
      requires dataBuffer == []
      modifies this`dataBuffer, this`dataStorage
      ensures dataBuffer == []
      ensures dataStorage == old(dataStorage) + [Entry(source, defaultStamp, message)]
    {
      AddDataBuffer(source, message, None);
      assert dataBuffer == [Entry(source, defaultStamp, message)];
      UpdateDataStorage(pick);
      SortOne(Entry(source, defaultStamp, message), pick);
    }

    /**
      * The second input: the port; its prompt leaves the log and the network starts.
      * Building the node binds its socket and reports `server_started` to the callback
      * before `start_network_handler` moves the staged line into the log.
      */
    method PickPort(input: string, fallback: int, iso: IsoCodec, pick: seq<Entry> -> nat)
      requires Valid() && counter == 1 && 20000 <= fallback <= 21000
      modifies this`port, this`counter, this`dataBuffer, this`dataStorage, this`calls,
        this`isOnline, this`havePeer, this`peerId, this`peerConnection
      ensures Valid()
      ensures counter == 2 && port == Some(ProcessPort(input, fallback)) && isOnline
      ensures dataBuffer == [] &&
        dataStorage == old(dataStorage)[..|old(dataStorage)| - 1] + [Sys(StartedLine(username, host, port.value))]
      ensures calls == old(calls) + [Start(host, port.value, username)]
      ensures !havePeer && peerId == old(peerId) && peerConnection == old(peerConnection)
    {
      StartNetwork(ProcessPort(input, fallback));
      ServerUp(iso, pick);
    }

    /** Take the prompt back off the log and start the network on port `p`. */
    method StartNetwork(p: int)
      requires Valid() && counter == 1
      modifies this`port, this`counter, this`dataStorage, this`calls
      ensures Valid() && counter == 2 && port == Some(p) && dataBuffer == []
      ensures dataStorage == old(dataStorage)[..|old(dataStorage)| - 1]
      ensures calls == old(calls) + [Start(host, p, username)]
    {
      var _ := PopDataStorage(1);
      port := Some(p);
      counter := 2;
      calls := calls + [Start(host, p, username)];
    }

    /** The node's `server_started`, passed up by the handler, then `print_data_routine`. */
    method ServerUp(iso: IsoCodec, pick: seq<Entry> -> nat)
      requires Valid() && counter == 2 && dataBuffer == []
      modifies this`dataBuffer, this`dataStorage, this`isOnline, this`havePeer, this`peerId, this`peerConnection
      ensures Valid() && isOnline && dataBuffer == []
      ensures dataStorage == old(dataStorage) + [Sys(StartedLine(username, host, port.value))]
      ensures havePeer == old(havePeer) && peerId == old(peerId) && peerConnection == old(peerConnection)
    {
      var env := Route(username, host, port.value, ServerStarted);
      StartedRoute(username, host, port.value);
      var _ := NetworkCallback(env, map[], iso, pick);
      SortOne(Sys(StartedLine(username, host, port.value)), pick);
      PrintDataRoutine(pick);
    }

    /**
      * `process_user_input` with `send_to_peer` repaired (see `SendToPeerAsWritten`):
      * `!quit` stops; `!conn ip:port` connects when both parts are valid and no peer is
      * connected, and every `!conn` stages exactly one system line saying what happened,
      * after the line of the connection the attempt made, if any; anything else is a chat
      * line, staged under the user's name and sent to the peer when online with one.
      * What is staged stays staged: nothing here moves it into the log.
      */
    method ProcessUserInput(input: string, now: Timestamp, ipValid: string -> bool, made: Option<Link>, iso: IsoCodec)
      requires Valid() && counter == 2
      modifies this`dataBuffer, this`stopping, this`calls, this`havePeer, this`peerId, this`peerConnection
      ensures Valid()
      ensures Handled(ParseCommand(input), now, ipValid, made, iso)
    {
      var command := ParseCommand(input);
      Dispatch(command, now, ipValid, made, iso);
    }

    /** What a command leaves behind: the lines it stages, the flag, the peer and the calls it makes. */
    twostate predicate Handled(c: Command, now: Timestamp, ipValid: string -> bool, made: Option<Link>, iso: IsoCodec)
      reads this
    {
      (!c.Conn? ==> havePeer == old(havePeer) && peerId == old(peerId) && peerConnection == old(peerConnection)) &&
      match c
      case Quit => dataBuffer == old(dataBuffer) + [Sys("Closing....")] && stopping && calls == old(calls)
      case Malformed =>
        dataBuffer == old(dataBuffer) + [Sys("Invalid input, makesure ip:port")] &&
        calls == old(calls) && stopping == old(stopping)
      case Conn(ip, portText) =>
        stopping == old(stopping) &&
        ConnectOutcome(ip, portText, ipValid(ip), made, old(dataBuffer), old(calls), old(havePeer), old(peerId), old(peerConnection))
      case Chat(text) =>
        stopping == old(stopping) &&
        dataBuffer == old(dataBuffer) + [Entry(username, now, VStr(text))] &&
        calls == old(calls) + if isOnline && havePeer && peerId.Some? then [SendTo(peerId.value, Record(iso, now, text))] else []
    }

    /** Carry out one command. */
    method Dispatch(command: Command, now: Timestamp, ipValid: string -> bool, made: Option<Link>, iso: IsoCodec)
      requires Valid() && counter == 2
      modifies this`dataBuffer, this`stopping, this`calls, this`havePeer, this`peerId, this`peerConnection
      ensures Valid()
      ensures Handled(command, now, ipValid, made, iso)
    {
      match command {
        case Quit =>
          AddDataBuffer(" sys ", VStr("Closing...."), None);
          Stop();
        case Malformed =>
          AddDataBuffer(" sys ", VStr("Invalid input, makesure ip:port"), None);
        case Conn(ip, portText) =>
          Connect(ip, portText, ipValid(ip), made);
        case Chat(text) =>
          Say(text, now, iso);
      }
    }

    /** A chat line: staged under the user's name, and sent to the peer when online with one. */
    method Say(text: string, now: Timestamp, iso: IsoCodec)
      requires Valid() && counter == 2
      modifies this`dataBuffer, this`calls
      ensures Valid()
      ensures dataBuffer == old(dataBuffer) + [Entry(username, now, VStr(text))]
      ensures calls == old(calls) + if isOnline && havePeer then [SendTo(peerId.value, Record(iso, now, text))] else []
    {
      AddDataBuffer(username, VStr(text), Some(now));
      if isOnline && havePeer {
        SendToPeer(text, now, iso);
      }
    }

    /**
      * What `!conn ip:port` leaves behind, from the staged entries, calls and peer before
      * it: a complaint when the address is invalid or a peer is already there; otherwise a
      * connect call to the typed port and a line saying so, and when the attempt made a
      * link, that link is the peer and its `outbound_node_connected` line is staged first.
      */
    ghost predicate ConnectOutcome(ip: string, portText: string, ipOk: bool, made: Option<Link>,
                                   buffer0: seq<Entry>, calls0: seq<NetCall>,
                                   peer0: bool, peerId0: Option<string>, conn0: Option<Link>)
      reads this
    {
      var connecting := ipOk && ValidatePort(portText) && !peer0;
      (connecting && made.Some? ==> havePeer && peerId == Some(made.value.id) && peerConnection == made) &&
      (!(connecting && made.Some?) ==> havePeer == peer0 && peerId == peerId0 && peerConnection == conn0) &&
      if !(ipOk && ValidatePort(portText)) then
        dataBuffer == buffer0 + [Sys("Invalid IP address and/or Port")] && calls == calls0
      else if peer0 then
        dataBuffer == buffer0 + [Sys("Already have peer!")] && calls == calls0
      else
        var p := ParseInt(portText).value;
        var report := if made.Some? then [Sys(LinkLine("outbound_node_connected", username, "<-", made.value))] else [];
        dataBuffer == buffer0 + report + [Sys("Connecting to " + ip + ":" + IntToString(p))] &&
        calls == calls0 + [ConnectTo(ip, p)]
    }

    /**
      * The `!conn` branch of `process_user_input`; `ipOk` is `socket.inet_aton`'s verdict.
      * `connect_to_node` reports a link it makes to the callback before it returns: the
      * handler registers it in `conn_info` and the controller takes it as its peer.
      */
    method Connect(ip: string, portText: string, ipOk: bool, made: Option<Link>)
      requires Valid() && counter == 2
      modifies this`dataBuffer, this`calls, this`havePeer, this`peerId, this`peerConnection
      ensures Valid()
      ensures ConnectOutcome(ip, portText, ipOk, made, old(dataBuffer), old(calls), old(havePeer), old(peerId), old(peerConnection))
    {
      if ipOk && ValidatePort(portText) {
        if !havePeer {
          var p := ParseInt(portText).value;
          calls := calls + [ConnectTo(ip, p)];
          if made.Some? {
            var l := made.value;
            PeerUp(l.id, l, Route(username, host, port.value, OutboundConnected(l)).data);
          }
          AddDataBuffer(" sys ", VStr("Connecting to " + ip + ":" + IntToString(p)), None);
        } else {
          AddDataBuffer(" sys ", VStr("Already have peer!"), None);
        }
      } else {
        AddDataBuffer(" sys ", VStr("Invalid IP address and/or Port"), None);
      }
    }

    /** A connect event's effect on the peer: remember it and its link, and stage the event's line. */
    method PeerUp(peer: string, link: Link, line: Value)
      requires Valid() && counter == 2
      modifies this`peerId, this`peerConnection, this`havePeer, this`dataBuffer
      ensures Valid()
      ensures havePeer && peerId == Some(peer) && peerConnection == Some(link)
      ensures dataBuffer == old(dataBuffer) + [Entry(" sys ", defaultStamp, line)]
    {
      peerId := Some(peer);
      peerConnection := Some(link);
      havePeer := true;
      AddDataBuffer(" sys ", line, None);
    }

    /** `send_to_peer`, repaired: the chat record goes to the peer's id. */
    method SendToPeer(text: string, t: Timestamp, iso: IsoCodec)
      requires havePeer && peerId.Some?
      modifies this`calls
      ensures calls == old(calls) + [SendTo(peerId.value, Record(iso, t, text))]
    {
      calls := calls + [SendTo(peerId.value, Record(iso, t, text))];
    }

    /**
      * `process_network_message`: stage a str or a chat record from `source` (a record
      * also sorts the staged entries into the log); drop bytes and anything else; `ok`
      * is false where it raises, and then nothing changes.
      */
    method ProcessNetworkMessage(source: string, data: Value, iso: IsoCodec, pick: seq<Entry> -> nat)
      returns (ok: bool)
      requires Valid() && counter == 2
      modifies this`dataBuffer, this`dataStorage
      ensures Valid()
      ensures var r := Incoming(source, data, iso, defaultStamp);
        ok == r.Some? &&
        (r.None? || r.value.None? ==> dataBuffer == old(dataBuffer) && dataStorage == old(dataStorage)) &&
        (ok && r.value.Some? && !data.VDict? ==> dataBuffer == old(dataBuffer) + [r.value.value] && dataStorage == old(dataStorage)) &&
        (ok && r.value.Some? && data.VDict? ==> dataBuffer == [] && dataStorage == old(dataStorage) + Sort(old(dataBuffer) + [r.value.value], pick))
    {
      var r := Incoming(source, data, iso, defaultStamp);
      if r.None? {
        return false;
      }
      if r.value.Some? {
        Stage(r.value.value, data.VDict?, pick);
      }
      return true;
    }

    /** Stage one received entry, and with `settle` sort the staged entries into the log. */
    method Stage(e: Entry, settle: bool, pick: seq<Entry> -> nat)
      requires Valid() && counter == 2
      modifies this`dataBuffer, this`dataStorage
      ensures Valid()
      ensures !settle ==> dataBuffer == old(dataBuffer) + [e] && dataStorage == old(dataStorage)
      ensures settle ==> dataBuffer == [] && dataStorage == old(dataStorage) + Sort(old(dataBuffer) + [e], pick)
    {
      AddDataBuffer(e.source, e.message, Some(e.timestamp));
      if settle {
        UpdateDataStorage(pick);
      }
    }

    /**
      * `network_callback_handler`: follow the peer through connection events and pass
      * messages on. A connect event whose peer id is missing from `connInfo` (the
      * handler's `conn_info`) raises KeyError after `peer_id` was set (`ok` false).
      */
    method NetworkCallback(env: Envelope, connInfo: map<string, Link>, iso: IsoCodec, pick: seq<Entry> -> nat)
      returns (ok: bool)
      requires Valid() && counter == 2
      modifies this`dataBuffer, this`dataStorage, this`isOnline, this`havePeer, this`peerId, this`peerConnection
      ensures Valid()
      ensures env.kind == "server_started" ==> (
        isOnline && ok &&
        dataBuffer == old(dataBuffer) + [Sys("Server started by " + (if env.data.VStr? then env.data.s else ""))] &&
        dataStorage == old(dataStorage) && havePeer == old(havePeer) && peerId == old(peerId) &&
        peerConnection == old(peerConnection))
      ensures env.kind == "outbound_node_connected" ==> (
        peerId == Some(env.dest) && (ok <==> env.dest in connInfo) &&
        dataStorage == old(dataStorage) && isOnline == old(isOnline) &&
        (ok ==> havePeer && peerConnection == Some(connInfo[env.dest]) && dataBuffer == old(dataBuffer) + [Entry(" sys ", defaultStamp, env.data)]) &&
        (!ok ==> havePeer == old(havePeer) && peerConnection == old(peerConnection) && dataBuffer == old(dataBuffer)))
      ensures env.kind == "inbound_node_connected" ==> (
        peerId == Some(env.source) && (ok <==> env.source in connInfo) &&
        dataStorage == old(dataStorage) && isOnline == old(isOnline) &&
        (ok ==> havePeer && peerConnection == Some(connInfo[env.source]) && dataBuffer == old(dataBuffer) + [Entry(" sys ", defaultStamp, env.data)]) &&
        (!ok ==> havePeer == old(havePeer) && peerConnection == old(peerConnection) && dataBuffer == old(dataBuffer)))
      ensures env.kind in {"outbound_node_disconnected", "inbound_node_disconnected"} ==> (
        ok && !havePeer && peerId == None && peerConnection == None &&
        dataBuffer == old(dataBuffer) + [Entry(" sys ", defaultStamp, env.data)] &&
        dataStorage == old(dataStorage) && isOnline == old(isOnline))
      ensures env.kind == "node_message" ==> (
        havePeer == old(havePeer) && peerId == old(peerId) && peerConnection == old(peerConnection) &&
        isOnline == old(isOnline))
      ensures env.kind == "node_message" ==> var r := Incoming(env.source, env.data, iso, defaultStamp);
        ok == r.Some? &&
        (r.None? || r.value.None? ==> dataBuffer == old(dataBuffer) && dataStorage == old(dataStorage)) &&
        (ok && r.value.Some? && !env.data.VDict? ==> dataBuffer == old(dataBuffer) + [r.value.value] && dataStorage == old(dataStorage)) &&
        (ok && r.value.Some? && env.data.VDict? ==> dataBuffer == [] && dataStorage == old(dataStorage) + Sort(old(dataBuffer) + [r.value.value], pick))
      ensures env.kind !in ControllerKinds ==> (
        ok && dataBuffer == old(dataBuffer) && dataStorage == old(dataStorage) &&
        havePeer == old(havePeer) && peerId == old(peerId) && isOnline == old(isOnline))
    {
      ok := true;
      if env.kind == "server_started" {
        isOnline := true;
        AddDataBuffer(" sys ", VStr("Server started by " + (if env.data.VStr? then env.data.s else "")), None);
      } else if env.kind == "outbound_node_connected" || env.kind == "inbound_node_connected" {
        var peer := if env.kind == "outbound_node_connected" then env.dest else env.source;
        if peer !in connInfo {
          peerId := Some(peer);
          return false;
        }
        PeerUp(peer, connInfo[peer], env.data);
      } else if env.kind == "outbound_node_disconnected" || env.kind == "inbound_node_disconnected" {
        peerId := None;
        peerConnection := None;
        havePeer := false;
        AddDataBuffer(" sys ", env.data, None);
      } else if env.kind == "node_message" {
        ok := ProcessNetworkMessage(env.source, env.data, iso, pick);
      }
    }
  }
}
