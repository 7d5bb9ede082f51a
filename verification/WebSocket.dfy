/** The client's side of the websocket: frames out of an incrementally filled buffer, and frames written. */
module WebSockets {
  import opened Text
  import opened Bytes

  datatype Frame = Frame(fin: bool, op: nat, data: seq<byte>)

  function Masked(data: seq<byte>, mask: seq<byte>): seq<byte>
    requires |mask| == 4
  {
    seq(|data|, i requires 0 <= i < |data| => XorByte(data[i], mask[i % 4]))
  }

  lemma MaskedTwice(data: seq<byte>, mask: seq<byte>)
    requires |mask| == 4
    ensures Masked(Masked(data, mask), mask) == data
  {
    forall i | 0 <= i < |data| ensures Masked(Masked(data, mask), mask)[i] == data[i] {
      XorTwice(data[i], mask[i % 4]);
    }
  }

  // ----- one frame

  /** The length of the payload, and where the mask or the payload starts; None when that is still to come. */
  function Header(b: seq<byte>): Option<(nat, nat)> {
    if |b| < 2 then None
    else var n := b[1] % 128;
      if n == 126 then (if |b| < 4 then None else Some((FromBytes(b[2..4]), 4)))
      else if n == 127 then (if |b| < 10 then None else Some((FromBytes(b[2..10]), 10)))
      else Some((n, 2))
  }

  /** The first frame in `b` and its length; None when it is not complete. */
  function Parse(b: seq<byte>): Option<(Frame, nat)> {
    match Header(b)
    case None => None
    case Some((n, at)) =>
      var body := if b[1] >= 128 then at + 4 else at;
      if |b| < body + n then None
      else
        var data := b[body..body + n];
        Some((Frame(b[0] >= 128, b[0] % 16, if b[1] >= 128 then Masked(data, b[at..at + 4]) else data), body + n))
  }

  /** Frames that can be written: a four-bit opcode, a payload whose length fits, a mask of four bytes or none. */
  predicate Writable(f: Frame, mask: seq<byte>) {
    f.op < 16 && |f.data| < Power256(8) && |mask| in {0, 4}
  }

  function Head(f: Frame, mask: seq<byte>): (head: seq<byte>)
    requires Writable(f, mask)
    ensures |head| in {2, 4, 10}
  {
    var n := |f.data|;
    var m: byte := if mask != [] then 128 else 0;
    var b0: byte := (if f.fin then 128 else 0) + f.op;
    assert Power256(2) == 65536;
    if n < 126 then [b0, m + n]
    else if n < 65536 then [b0, m + 126] + ToBytes(n, 2)
    else [b0, m + 127] + ToBytes(n, 8)
  }

  function Payload(f: Frame, mask: seq<byte>): (body: seq<byte>)
    requires Writable(f, mask)
    ensures |body| == |f.data|
  {
    if mask != [] then Masked(f.data, mask) else f.data
  }

  /** A frame on the wire; a client masks it, a server (empty mask) does not. */
  function Encode(f: Frame, mask: seq<byte>): seq<byte>
    requires Writable(f, mask)
  {
    Head(f, mask) + mask + Payload(f, mask)
  }

  /** Each bit of the masked payload is the bit of the payload, turned over where the mask has that bit. */
  lemma MaskedBits(data: seq<byte>, mask: seq<byte>, i: nat, j: nat)
    requires |mask| == 4 && i < |data|
    ensures |Masked(data, mask)| == |data|
    ensures Bit(Masked(data, mask)[i], j) == (Bit(data[i], j) + Bit(mask[i % 4], j)) % 2
  {
    XorBits(data[i], mask[i % 4], j);
  }

  /** The head of a frame, byte by byte: FIN and opcode, the mask's flag and the length, in one of three forms. */
  lemma HeadFormat(f: Frame, mask: seq<byte>)
    requires Writable(f, mask)
    ensures var head, n := Head(f, mask), |f.data|;
      && |head| == (if n < 126 then 2 else if n < 65536 then 4 else 10)
      && head[0] == (if f.fin then 128 else 0) + f.op
      && head[1] == (if mask == [] then 0 else 128) + (if n < 126 then n else if n < 65536 then 126 else 127)
      && forall k :: 2 <= k < |head| ==> head[k] == n / Power256(|head| - 1 - k) % 256
  {
    var head, n := Head(f, mask), |f.data|;
    Power256Values();
    forall k | 2 <= k < |head| ensures head[k] == n / Power256(|head| - 1 - k) % 256 {
      assert head[k] == ToBytes(n, |head| - 2)[k - 2];
      ToBytesDigits(n, |head| - 2, k - 2);
    }
  }

  lemma Parts(head: seq<byte>, mask: seq<byte>, body: seq<byte>, tail: seq<byte>)
    ensures var b, at, to := head + mask + body + tail, |head|, |head| + |mask|;
      to + |body| <= |b| && head <= b && b[at..to] == mask && b[to..to + |body|] == body
  {
  }

  /** A frame as it goes over the wire: its head, its mask, and then as many bytes as the payload has. */
  lemma WireFormat(f: Frame, mask: seq<byte>)
    requires Writable(f, mask)
    ensures var e, head := Encode(f, mask), Head(f, mask);
      |e| == |head| + |mask| + |f.data| && head <= e && e[|head|..|head| + |mask|] == mask
  {
    Parts(Head(f, mask), mask, Payload(f, mask), []);
    assert Encode(f, mask) + [] == Encode(f, mask);
  }

  /** Those bytes: of a payload that is masked, each bit is turned over where the mask has it. */
  lemma WireBytes(f: Frame, mask: seq<byte>, i: nat, j: nat)
    requires Writable(f, mask) && i < |f.data|
    ensures var e, at := Encode(f, mask), |Head(f, mask)| + |mask|;
      && at + i < |e| && (mask == [] ==> e[at + i] == f.data[i])
      && (mask != [] ==> Bit(e[at + i], j) == (Bit(f.data[i], j) + Bit(mask[i % 4], j)) % 2)
  {
    WireFormat(f, mask);
    assert Encode(f, mask)[|Head(f, mask)| + |mask| + i] == Payload(f, mask)[i];
    if mask != [] {
      MaskedBits(f.data, mask, i, j);
    }
  }

  /** The head of any peer's frame: the reserved bits as they may be, the length in any of the forms that hold it. */
  function AnyHead(b0: byte, form: nat, masked: bool, n: nat): (head: seq<byte>)
    requires form in {0, 2, 8} && if form == 0 then n < 126 else n < Power256(form)
    ensures |head| == 2 + form && head[0] == b0 && (head[1] >= 128 <==> masked)
    ensures head[1] % 128 == (if form == 0 then n else if form == 2 then 126 else 127)
    ensures form != 0 ==> head[2..] == ToBytes(n, form)
  {
    var m: byte := if masked then 128 else 0;
    if form == 0 then [b0, m + n] else [b0, m + (if form == 2 then 126 else 127)] + ToBytes(n, form)
  }

  lemma AnyHeader(b0: byte, form: nat, masked: bool, n: nat, b: seq<byte>)
    requires form in {0, 2, 8} && if form == 0 then n < 126 else n < Power256(form)
    requires AnyHead(b0, form, masked, n) <= b
    ensures Header(b) == Some((n, 2 + form)) && b[0] == b0 && (b[1] >= 128 <==> masked)
  {
    var head := AnyHead(b0, form, masked, n);
    assert b[0] == head[0] && b[1] == head[1];
    SlicePrefix(head, b, 2, 2 + form);
    assert head[2..] == head[2..2 + form];
  }

  lemma ParseParts(b: seq<byte>, at: nat, mask: seq<byte>, body: seq<byte>)
    requires Header(b) == Some((|body|, at)) && |mask| in {0, 4} && (b[1] >= 128 <==> mask != [])
    requires at + |mask| + |body| <= |b|
    requires b[at..at + |mask|] == mask && b[at + |mask|..at + |mask| + |body|] == body
    ensures var data := if mask == [] then body else Masked(body, mask);
      Parse(b) == Some((Frame(b[0] >= 128, b[0] % 16, data), at + |mask| + |body|))
  {
    var from := if b[1] >= 128 then at + 4 else at;
    assert from == at + |mask| && b[from..from + |body|] == body;
    assert b[1] >= 128 ==> b[at..at + 4] == mask;
  }

  /** Such a frame is read as its payload, with FIN and the opcode from the first byte, whatever follows. */
  lemma AnyFrame(b0: byte, form: nat, mask: seq<byte>, data: seq<byte>, tail: seq<byte>)
    requires form in {0, 2, 8} && |mask| in {0, 4}
    requires if form == 0 then |data| < 126 else |data| < Power256(form)
    ensures var body := if mask == [] then data else Masked(data, mask);
      var e := AnyHead(b0, form, mask != [], |data|) + mask + body;
      Parse(e + tail) == Some((Frame(b0 >= 128, b0 % 16, data), |e|))
  {
    var head, body := AnyHead(b0, form, mask != [], |data|), if mask == [] then data else Masked(data, mask);
    Parts(head, mask, body, tail);
    AnyHeader(b0, form, mask != [], |data|, head + mask + body + tail);
    ParseParts(head + mask + body + tail, |head|, mask, body);
    if mask != [] {
      MaskedTwice(data, mask);
    }
  }

  lemma HeadLength(f: Frame, mask: seq<byte>, b: seq<byte>)
    requires Writable(f, mask) && Head(f, mask) <= b
    ensures Header(b) == Some((|f.data|, |Head(f, mask)|))
  {
    var n, head := |f.data|, Head(f, mask);
    assert b[1] == head[1];
    SlicePrefix(head, b, 2, |head|);
    if |head| == 4 {
      assert head[2..4] == ToBytes(n, 2);
    } else if |head| == 10 {
      assert head[2..10] == ToBytes(n, 8);
    }
  }

  lemma HeadBits(f: Frame, mask: seq<byte>, b: seq<byte>)
    requires Writable(f, mask) && Head(f, mask) <= b
    ensures (b[0] >= 128 <==> f.fin) && b[0] % 16 == f.op && (b[1] >= 128 <==> mask != [])
  {
    var head := Head(f, mask);
    assert b[0] == head[0] && b[1] == head[1];
  }

  /** Reading back what was written gives the frame, and leaves what follows it. */
  lemma RoundTrip(f: Frame, mask: seq<byte>, tail: seq<byte>)
    requires Writable(f, mask)
    ensures Parse(Encode(f, mask) + tail) == Some((f, |Encode(f, mask)|))
  {
    var head, body := Head(f, mask), Payload(f, mask);
    var b := Encode(f, mask) + tail;
    Parts(head, mask, body, tail);
    HeadLength(f, mask, b);
    HeadBits(f, mask, b);
    ParseParts(b, |head|, mask, body);
    if mask != [] {
      MaskedTwice(f.data, mask);
    }
  }

  lemma HeaderLocal(c: seq<byte>, b: seq<byte>)
    requires c <= b
    ensures Header(c).Some? ==> Header(b) == Header(c)
    ensures Header(b).Some? && Header(b).value.1 <= |c| ==> Header(c) == Header(b)
  {
    assert |c| >= 4 ==> c[2..4] == b[2..4];
    assert |c| >= 10 ==> c[2..10] == b[2..10];
  }

  /** A frame is never empty, and a payload's length fits in eight bytes. */
  lemma ParseBounds(b: seq<byte>)
    requires Parse(b).Some?
    ensures 2 <= Header(b).value.1 && Header(b).value.1 + Header(b).value.0 <= Parse(b).value.1 <= |b|
    ensures Parse(b).value.0.op < 16 && |Parse(b).value.0.data| < Power256(8)
  {
    var (n, at) := Header(b).value;
    Power256Values();
    if at == 4 { FromBytesBound(b[2..4]); }
    if at == 10 { FromBytesBound(b[2..10]); }
  }

  /** Whether a frame is complete depends on its own bytes only: no proper prefix of it is, whatever follows. */
  lemma ParseLocal(c: seq<byte>, b: seq<byte>)
    requires c <= b
    ensures Parse(c).Some? ==> Parse(b) == Parse(c)
    ensures Parse(b).Some? ==> Parse(c) == if |c| < Parse(b).value.1 then None else Parse(b)
  {
    HeaderLocal(c, b);
    if Parse(c).Some? {
      SameFrame(c, b);
      ParseBounds(c);
    } else if Parse(b).Some? && Parse(b).value.1 <= |c| {
      ParseBounds(b);
      SameFrame(c, b);
    }
  }

  lemma SameFrame(c: seq<byte>, b: seq<byte>)
    requires c <= b && Header(b).Some? && Header(c) == Header(b)
    requires |c| >= Header(b).value.1 + Header(b).value.0 + (if b[1] >= 128 then 4 else 0)
    ensures Parse(c) == Parse(b)
  {
    var (n, at) := Header(b).value;
    var from := if b[1] >= 128 then at + 4 else at;
    SlicePrefix(c, b, from, from + n);
    SlicePrefix(c, b, at, from);
    var mask, body := b[at..from], b[from..from + n];
    assert c[0] == b[0] && c[1] == b[1];
    ParseParts(b, at, mask, body);
    ParseParts(c, at, mask, body);
  }

  /** No proper prefix of a written frame is read as a frame. */
  lemma PrefixIncomplete(f: Frame, mask: seq<byte>, k: nat)
    requires Writable(f, mask) && k < |Encode(f, mask)|
    ensures Parse(Encode(f, mask)[..k]) == None
  {
    RoundTrip(f, mask, []);
    assert Encode(f, mask) + [] == Encode(f, mask);
    ParseLocal(Encode(f, mask)[..k], Encode(f, mask));
  }

  // ----- all frames of a buffer

  /** The complete frames of `b`, and the bytes left over. */
  function ParseAll(b: seq<byte>): (seq<Frame>, seq<byte>)
    decreases |b|
  {
    match Parse(b)
    case None => ([], b)
    case Some((f, k)) =>
      ParseBounds(b);
      var (fs, rest) := ParseAll(b[k..]);
      ([f] + fs, rest)
  }

  lemma ParseAllStep(b: seq<byte>)
    requires Parse(b).Some?
    ensures var (f, k) := Parse(b).value;
      k <= |b| && ParseAll(b) == ([f] + ParseAll(b[k..]).0, ParseAll(b[k..]).1)
  {
    ParseBounds(b);
  }

  /** Where the stream is cut makes no difference to the frames. */
  lemma {:induction false} ParseAllSplit(a: seq<byte>, b: seq<byte>)
    ensures ParseAll(a + b) == (ParseAll(a).0 + ParseAll(ParseAll(a).1 + b).0, ParseAll(ParseAll(a).1 + b).1)
    decreases |a|
  {
    if Parse(a).Some? {
      var (f, k) := Parse(a).value;
      ParseBounds(a);
      ParseLocal(a, a + b);
      ParseAllStep(a);
      ParseAllStep(a + b);
      DropPrefix(a, b, k);
      ParseAllSplit(a[k..], b);
      Associates([f], ParseAll(a[k..]).0, ParseAll(ParseAll(a).1 + b).0);
    } else {
      assert ParseAll(a) == ([], a);
      assert [] + ParseAll(a + b).0 == ParseAll(a + b).0;
    }
  }

  /** The bytes of many frames, each written with its own mask. */
  function EncodeAll(frames: seq<(Frame, seq<byte>)>): seq<byte>
    requires forall i :: 0 <= i < |frames| ==> Writable(frames[i].0, frames[i].1)
  {
    if frames == [] then [] else Encode(frames[0].0, frames[0].1) + EncodeAll(frames[1..])
  }

  function Unmasked(frames: seq<(Frame, seq<byte>)>): seq<Frame> {
    if frames == [] then [] else [frames[0].0] + Unmasked(frames[1..])
  }

  lemma {:induction false} FrameThenRest(f: Frame, mask: seq<byte>, rest: seq<byte>)
    requires Writable(f, mask)
    ensures ParseAll(Encode(f, mask) + rest) == ([f] + ParseAll(rest).0, ParseAll(rest).1)
  {
    var e := Encode(f, mask);
    RoundTrip(f, mask, rest);
    ParseAllStep(e + rest);
    DropPrefix(e, rest, |e|);
  }

  lemma FrameThenFrames(f: Frame, mask: seq<byte>, rest: seq<byte>, fs: seq<Frame>)
    requires Writable(f, mask) && ParseAll(rest) == (fs, [])
    ensures ParseAll(Encode(f, mask) + rest) == ([f] + fs, [])
  {
    FrameThenRest(f, mask, rest);
  }

  /** Whatever one side writes, frame after frame, the other reads exactly that. */
  lemma {:induction false} AllRoundTrip(frames: seq<(Frame, seq<byte>)>)
    requires forall i :: 0 <= i < |frames| ==> Writable(frames[i].0, frames[i].1)
    ensures ParseAll(EncodeAll(frames)) == (Unmasked(frames), [])
  {
    if frames != [] {
      AllRoundTrip(frames[1..]);
      FrameThenFrames(frames[0].0, frames[0].1, EncodeAll(frames[1..]), Unmasked(frames[1..]));
    } else {
      NothingRead();
    }
  }

  lemma NothingRead()
    ensures ParseAll([]) == ([], [])
  {
    assert Parse([]).None?;
  }

  // ----- messages and pings

  /** What the frames amounted to: the text message under way, the messages delivered, and the pongs owed. */
  datatype Client = Client(message: seq<byte>, texts: seq<seq<byte>>, pongs: seq<seq<byte>>)

  function Step(c: Client, f: Frame): Client {
    if f.op in {0, 1} then
      if f.fin then c.(message := [], texts := c.texts + [c.message + f.data]) else c.(message := c.message + f.data)
    else if f.op == 9 then c.(pongs := c.pongs + [f.data])
    else c
  }

  /** What each opcode does: 0 and 1 add to the text that has come, and FIN completes a message of it; 9 is answered;
      no other frame does anything. */
  lemma StepExactly(c: Client, f: Frame)
    ensures f.op in {0, 1} ==>
      && Flatten(Step(c, f).texts) + Step(c, f).message == Flatten(c.texts) + c.message + f.data
      && (f.fin ==> Step(c, f).message == [] && |Step(c, f).texts| == |c.texts| + 1)
      && (!f.fin ==> Step(c, f).texts == c.texts) && Step(c, f).pongs == c.pongs
    ensures f.op == 9 ==> Step(c, f) == Client(c.message, c.texts, c.pongs + [f.data])
    ensures f.op !in {0, 1, 9} ==> Step(c, f) == c
  {
    if f.op in {0, 1} {
      Associates(Flatten(c.texts), c.message, f.data);
      if f.fin {
        FlattenAppend(c.texts, [c.message + f.data]);
        FlattenOne(c.message + f.data);
        assert Flatten(Step(c, f).texts) + [] == Flatten(Step(c, f).texts);
      }
    }
  }

  function Run(c: Client, frames: seq<Frame>): Client
    decreases |frames|
  {
    if frames == [] then c else Run(Step(c, frames[0]), frames[1..])
  }

  lemma {:induction false} RunAppend(c: Client, a: seq<Frame>, b: seq<Frame>)
    ensures Run(c, a + b) == Run(Run(c, a), b)
    decreases |a|
  {
    if a == [] {
      assert a + b == b;
    } else {
      assert (a + b)[1..] == a[1..] + b;
      RunAppend(Step(c, a[0]), a[1..], b);
    }
  }

  function DataFrames(frames: seq<Frame>): seq<Frame> {
    if frames == [] then []
    else (if frames[0].op in {0, 1} then [frames[0]] else []) + DataFrames(frames[1..])
  }

  function PingPayloads(frames: seq<Frame>): seq<seq<byte>> {
    if frames == [] then []
    else (if frames[0].op == 9 then [frames[0].data] else []) + PingPayloads(frames[1..])
  }

  /** Each ping is answered by one pong, in order, whatever comes between them. */
  lemma {:induction false} PongsInOrder(c: Client, frames: seq<Frame>)
    ensures Run(c, frames).pongs == c.pongs + PingPayloads(frames)
    decreases |frames|
  {
    if frames != [] {
      PongsInOrder(Step(c, frames[0]), frames[1..]);
    }
  }

  /** Control frames between the fragments don't disturb the messages. */
  lemma {:induction false} Interleaved(c: Client, d: Client, frames: seq<Frame>)
    requires c.message == d.message && c.texts == d.texts
    ensures Run(c, frames).message == Run(d, DataFrames(frames)).message
    ensures Run(c, frames).texts == Run(d, DataFrames(frames)).texts
    decreases |frames|
  {
    if frames != [] {
      var f, rest := frames[0], DataFrames(frames[1..]);
      if f.op in {0, 1} {
        assert DataFrames(frames) == [f] + rest && ([f] + rest)[1..] == rest;
        Interleaved(Step(c, f), Step(d, f), frames[1..]);
      } else {
        assert DataFrames(frames) == rest;
        Interleaved(Step(c, f), d, frames[1..]);
      }
    }
  }

  lemma NextFrame(done: seq<Frame>, f: Frame, rest: seq<Frame>, c: Client)
    ensures done + ([f] + rest) == (done + [f]) + rest
    ensures Run(c, done + [f]) == Step(Run(c, done), f)
    ensures Pongs(PingPayloads(done + [f]))
         == Pongs(PingPayloads(done)) + if f.op == 9 then [Frame(true, 10, f.data)] else []
  {
    RunAppend(c, done, [f]);
    PingAppend(done, f);
  }

  lemma {:induction false} PingAppend(frames: seq<Frame>, f: Frame)
    ensures PingPayloads(frames + [f]) == PingPayloads(frames) + if f.op == 9 then [f.data] else []
  {
    if frames != [] {
      PingAppend(frames[1..], f);
      assert (frames + [f])[1..] == frames[1..] + [f];
    }
  }

  /** A message sent in fragments: the first has opcode 1, the others 0, and the last has FIN. */
  function Fragments(parts: seq<seq<byte>>, op: nat): seq<Frame> {
    if parts == [] then []
    else [Frame(|parts| == 1, op, parts[0])] + Fragments(parts[1..], 0)
  }

  lemma {:induction false} FragmentsJoin(c: Client, parts: seq<seq<byte>>, op: nat)
    requires parts != [] && op in {0, 1}
    ensures Run(c, Fragments(parts, op)) == c.(message := [], texts := c.texts + [c.message + Flatten(parts)])
    decreases |parts|
  {
    var f, rest := Frame(|parts| == 1, op, parts[0]), Fragments(parts[1..], 0);
    assert Fragments(parts, op)[1..] == rest;
    if |parts| == 1 {
      assert Flatten(parts) == parts[0];
    } else {
      FragmentsJoin(Step(c, f), parts[1..], 0);
      assert c.message + Flatten(parts) == c.message + parts[0] + Flatten(parts[1..]);
    }
  }

  function AllFragments(messages: seq<seq<seq<byte>>>): seq<Frame> {
    if messages == [] then [] else Fragments(messages[0], 1) + AllFragments(messages[1..])
  }

  function Joined(messages: seq<seq<seq<byte>>>): seq<seq<byte>> {
    if messages == [] then [] else [Flatten(messages[0])] + Joined(messages[1..])
  }

  lemma {:induction false} MessagesJoin(c: Client, messages: seq<seq<seq<byte>>>)
    requires c.message == [] && forall i :: 0 <= i < |messages| ==> messages[i] != []
    ensures Run(c, AllFragments(messages)) == c.(texts := c.texts + Joined(messages))
    decreases |messages|
  {
    if messages != [] {
      var d := c.(texts := c.texts + [Flatten(messages[0])]);
      FragmentsJoin(c, messages[0], 1);
      RunAppend(c, Fragments(messages[0], 1), AllFragments(messages[1..]));
      assert c.message + Flatten(messages[0]) == Flatten(messages[0]);
      MessagesJoin(d, messages[1..]);
      assert c.texts + Joined(messages) == d.texts + Joined(messages[1..]);
    } else {
      assert c.texts + Joined(messages) == c.texts;
    }
  }

  // ----- the stream

  /** The bytes not yet parsed, and what came of those that were. */
  datatype Stream = Stream(buf: seq<byte>, client: Client)

  function Feed(s: Stream, d: seq<byte>): Stream {
    var (frames, rest) := ParseAll(s.buf + d);
    Stream(rest, Run(s.client, frames))
  }

  function FeedAll(s: Stream, chunks: seq<seq<byte>>): Stream
    decreases |chunks|
  {
    if chunks == [] then s else FeedAll(Feed(s, chunks[0]), chunks[1..])
  }

  lemma FeedTwice(s: Stream, a: seq<byte>, b: seq<byte>)
    ensures Feed(Feed(s, a), b) == Feed(s, a + b)
  {
    assert s.buf + (a + b) == s.buf + a + b;
    ParseAllSplit(s.buf + a, b);
    RunAppend(s.client, ParseAll(s.buf + a).0, ParseAll(ParseAll(s.buf + a).1 + b).0);
  }

  /** However the stream is cut into reads, it comes to the same as one read of all of it. */
  lemma {:induction false} AnySplit(s: Stream, chunks: seq<seq<byte>>)
    requires chunks != []
    ensures FeedAll(s, chunks) == Feed(s, Flatten(chunks))
    decreases |chunks|
  {
    if |chunks| == 1 {
      FlattenOne(chunks[0]);
      assert chunks == [chunks[0]];
    } else {
      AnySplit(Feed(s, chunks[0]), chunks[1..]);
      FeedTwice(s, chunks[0], Flatten(chunks[1..]));
    }
  }

  /** A server that sends the messages in fragments, with any control frames between them, cut anywhere in transit. */
  lemma {:induction false} EndToEnd(messages: seq<seq<seq<byte>>>, frames: seq<(Frame, seq<byte>)>,
                                    chunks: seq<seq<byte>>)
    requires forall i :: 0 <= i < |messages| ==> messages[i] != []
    requires forall i :: 0 <= i < |frames| ==> Writable(frames[i].0, frames[i].1)
    requires DataFrames(Unmasked(frames)) == AllFragments(messages)
    requires chunks != [] && Flatten(chunks) == EncodeAll(frames)
    ensures FeedAll(Stream([], Client([], [], [])), chunks)
         == Stream([], Client([], Joined(messages), PingPayloads(Unmasked(frames))))
  {
    var c := Client([], [], []);
    AnySplit(Stream([], c), chunks);
    AllRoundTrip(frames);
    assert [] + Flatten(chunks) == EncodeAll(frames);
    Interleaved(c, c, Unmasked(frames));
    PongsInOrder(c, Unmasked(frames));
    MessagesJoin(c, messages);
  }

  /** The connection. `delivered` and `sent` are the history of what was read and written. */
  class WebSocket {
    var buf: seq<byte>
    var message: seq<byte>  // a text message arriving in several frames
    var wire: seq<byte>     // the bytes written to the server
    ghost var delivered: seq<seq<byte>>
    ghost var sent: seq<Frame>
    ghost var ponged: seq<seq<byte>>

    /** The server can read all that was written, as exactly the frames that were sent. */
    ghost predicate Valid()
      reads this
    {
      ParseAll(wire) == (sent, [])
    }

    ghost function State(): Stream
      reads this
    {
      Stream(buf, Client(message, delivered, ponged))
    }

    constructor (left: seq<byte>)
      ensures Valid() && sent == [] && State() == Stream(left, Client([], [], []))
    {
      buf, message, wire := left, [], [];
      delivered, sent, ponged := [], [], [];
    }

    /** The first frame in the buffer, taken out of it. */
    method TakeFrame() returns (f: Option<Frame>)
      modifies this`buf
      ensures f.None? ==> Parse(old(buf)).None? && buf == old(buf)
      ensures f.Some? ==> Parse(old(buf)) == Some((f.value, |old(buf)| - |buf|))
      ensures f.Some? ==> |buf| < |old(buf)| && buf == old(buf)[|old(buf)| - |buf|..]
    {
      var parsed := Parse(buf);
      if parsed.None? {
        return None;
      }
      ParseBounds(buf);
      buf := buf[parsed.value.1..];
      return Some(parsed.value.0);
    }

    /** Writes a frame, masked with four random bytes. */
    method Write(op: nat, data: seq<byte>)
      requires Valid() && op < 16 && |data| < Power256(8)
      modifies this`wire, this`sent
      ensures Valid() && sent == old(sent) + [Frame(true, op, data)]
      ensures exists mask :: |mask| == 4 && wire == old(wire) + Encode(Frame(true, op, data), mask)
    {
      ghost var anyMask: seq<byte> := [0, 0, 0, 0];
      assert |anyMask| == 4;
      var mask: seq<byte> :| |mask| == 4;
      var f := Frame(true, op, data);
      var bytes := Encode(f, mask);
      ParseAllSplit(wire, bytes);
      AllRoundTrip([(f, mask)]);
      assert EncodeAll([(f, mask)]) == bytes && Unmasked([(f, mask)]) == [f] && [] + bytes == bytes;
      wire := wire + bytes;
      sent := sent + [f];
    }

    method Receive(received: seq<seq<byte>>)
      modifies this`buf
      ensures buf == old(buf) + Flatten(received)
    {
      var k := 0;
      while k < |received|
        invariant k <= |received| && buf == old(buf) + Flatten(received[..k])
      {
        FlattenAppend(received[..k], [received[k]]);
        FlattenOne(received[k]);
        assert received[..k + 1] == received[..k] + [received[k]];
        buf := buf + received[k];
        k := k + 1;
      }
      assert received[..k] == received;
    }

    /** Acts on one frame, and returns the text message it completes, if any. */
    method Handle(f: Frame) returns (texts: seq<seq<byte>>)
      requires Valid() && f.op < 16 && |f.data| < Power256(8)
      modifies this`message, this`delivered, this`ponged, this`wire, this`sent
      ensures Valid()
      ensures Client(message, delivered, ponged) == Step(Client(old(message), old(delivered), old(ponged)), f)
      ensures delivered == old(delivered) + texts
      ensures sent == old(sent) + if f.op == 9 then [Frame(true, 10, f.data)] else []
    {
      texts := [];
      if f.op in {0, 1} {
        message := message + f.data;
        if f.fin {
          texts := [message];
          delivered := delivered + texts;
          message := [];
        }
      } else if f.op == 9 {
        Write(10, f.data);
        ponged := ponged + [f.data];
      }
    }

    /** Takes in what was received, answers the pings, and returns the text messages completed. */
    method Read(received: seq<seq<byte>>, eof: bool) returns (texts: seq<seq<byte>>, closed: bool)
      requires Valid()
      modifies this
      ensures Valid() && State() == Feed(old(State()), Flatten(received))
      ensures delivered == old(delivered) + texts
      ensures sent == old(sent) + Pongs(PingPayloads(ParseAll(old(buf) + Flatten(received)).0))
      ensures closed <==> eof || exists f :: f in ParseAll(old(buf) + Flatten(received)).0 && f.op == 8
    {
      closed, texts := eof, [];
      Receive(received);
      ghost var (all, left) := ParseAll(buf);
      ghost var done: seq<Frame> := [];
      ghost var before := old(State()).client;
      while true
        invariant all == done + ParseAll(buf).0 && ParseAll(buf).1 == left
        invariant Client(message, delivered, ponged) == Run(before, done)
        invariant delivered == old(delivered) + texts
        invariant sent == old(sent) + Pongs(PingPayloads(done))
        invariant closed <==> eof || exists f :: f in done && f.op == 8
        invariant Valid()
        decreases |buf|
      {
        ghost var b := buf;
        var next := TakeFrame();
        if next.None? {
          assert done + [] == done;
          break;
        }
        var f := next.value;
        ParseBounds(b);
        NextFrame(done, f, ParseAll(buf).0, before);
        Associates(old(sent), Pongs(PingPayloads(done)), if f.op == 9 then [Frame(true, 10, f.data)] else []);
        done := done + [f];
        var more := Handle(f);
        Associates(old(delivered), texts, more);
        texts := texts + more;
        closed := closed || f.op == 8;
      }
    }
  }

  function Pongs(payloads: seq<seq<byte>>): seq<Frame> {
    seq(|payloads|, i requires 0 <= i < |payloads| => Frame(true, 10, payloads[i]))
  }
}
