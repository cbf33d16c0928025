/** The incremental framing of a BitTorrent byte stream: btp_parser.py (peer wire protocol, BEP 3). What the handlers
    do with a message is left aside; the frames they are given are recorded. */
module BitTorrentFramer {

  type Bytes = seq<nat>

  /** A handshake, or a message with its length prefix removed. */
  datatype Frame = Handshake(bytes: Bytes) | Message(body: Bytes)

  datatype Parser = Parser(buffer: Bytes, nextLen: nat, readingLen: bool, hadHandshake: bool, wrong: bool,
                           frames: seq<Frame>)

  /** A parser as it is constructed. */
  function Fresh(): Parser {
    Parser([], 68, false, false, false, [])
  }

  /** The value of a big-endian 32-bit integer. */
  function Unpack(b: Bytes): nat
    requires |b| == 4
  {
    ((b[0] * 256 + b[1]) * 256 + b[2]) * 256 + b[3]
  }

  /** The base-256 digits of a 32-bit number. */
  lemma Digits(n: nat)
    requires n < 0x1_0000_0000
    ensures n / 0x100_0000 < 256
    ensures ((n / 0x100_0000 * 256 + n / 0x1_0000 % 256) * 256 + n / 256 % 256) * 256 + n % 256 == n
  {
    var a := n / 256;
    var b := a / 256;
    assert b == n / 0x1_0000 && b / 256 == n / 0x100_0000;
    assert n == a * 256 + n % 256 && a == b * 256 + a % 256 && b == b / 256 * 256 + b % 256;
  }

  predicate AreBytes(b: Bytes) {
    forall i :: 0 <= i < |b| ==> b[i] < 256
  }

  function Pack(n: nat): (b: Bytes)
    requires n < 0x1_0000_0000
    ensures |b| == 4 && AreBytes(b) && Unpack(b) == n
  {
    Digits(n);
    [n / 0x100_0000, n / 0x1_0000 % 256, n / 256 % 256, n % 256]
  }

  lemma PackUnpack(b: Bytes)
    requires |b| == 4 && AreBytes(b)
    ensures Unpack(b) < 0x1_0000_0000 && Pack(Unpack(b)) == b
  {
  }

  /** Numbers order like their four bytes do, the first one that differs being decisive. */
  lemma UnpackOrder(b: Bytes, c: Bytes)
    requires |b| == |c| == 4 && AreBytes(b) && AreBytes(c)
    ensures Unpack(b) < Unpack(c) <==> exists i :: 0 <= i < 4 && b[i] < c[i] && b[..i] == c[..i]
  {
    if i :| 0 <= i < 4 && b[i] < c[i] && b[..i] == c[..i] {
      assert forall j :: 0 <= j < i ==> b[j] == b[..i][j] == c[j];
    }
    if Unpack(b) < Unpack(c) {
      var i := if b[0] != c[0] then 0 else if b[1] != c[1] then 1 else if b[2] != c[2] then 2 else 3;
      assert b[..i] == c[..i] && b[i] < c[i];
    }
  }

  const PROTOCOL: string := "BitTorrent protocol"

  /** The test of process_handshake: the length of the protocol name and the name. */
  predicate IsProtocolHandshake(bytes: Bytes)
    requires |bytes| == 68
  {
    bytes[0] == 19 && forall i :: 0 <= i < 19 ==> bytes[1 + i] == PROTOCOL[i] as nat
  }

  /** The first twenty bytes of every handshake of the protocol. */
  const HEADER: Bytes := [19, 66, 105, 116, 84, 111, 114, 114, 101, 110, 116, 32, 112, 114, 111, 116, 111, 99, 111, 108]

  predicate HasHeader(bytes: Bytes)
    requires |bytes| >= 20
  {
    bytes[..20] == HEADER
  }

  lemma TestsHeader(bytes: Bytes)
    requires |bytes| == 68
    ensures IsProtocolHandshake(bytes) <==> HasHeader(bytes)
  {
    if IsProtocolHandshake(bytes) {
      forall i | 0 <= i < 20 ensures bytes[..20][i] == HEADER[i] {
        assert i > 0 ==> bytes[1 + (i - 1)] == PROTOCOL[i - 1] as nat;
      }
    }
    if bytes[..20] == HEADER {
      forall i | 0 <= i < 19 ensures bytes[1 + i] == PROTOCOL[i] as nat {
        assert bytes[1 + i] == bytes[..20][1 + i];
      }
    }
  }

  /** What every call of process_segment finds and leaves. */
  ghost predicate WellFormed(p: Parser) {
    && AreBytes(p.buffer)
    && (p.readingLen ==> p.hadHandshake && p.nextLen == 4)
    && (!p.hadHandshake ==> p.nextLen == 68 && p.frames == [] && !p.wrong)
    && (p.hadHandshake ==> |p.frames| > 0 && p.frames[0].Handshake? && |p.frames[0].bytes| == 68)
    && (forall i :: 1 <= i < |p.frames| ==> p.frames[i].Message?)
    && p.nextLen < 0x1_0000_0000
  }

  predicate Ready(p: Parser) {
    |p.buffer| >= p.nextLen
  }

  /** One round of the loop: takes a length prefix, a message or the handshake from the buffer. */
  function Step(p: Parser): (r: Parser)
    requires Ready(p) && (p.readingLen ==> p.nextLen == 4) && (!p.readingLen && !p.hadHandshake ==> p.nextLen == 68)
  {
    var head, rest := p.buffer[..p.nextLen], p.buffer[p.nextLen..];
    if p.readingLen then
      p.(buffer := rest, nextLen := Unpack(head), readingLen := false)
    else if p.hadHandshake then
      p.(buffer := rest, nextLen := 4, readingLen := true, frames := p.frames + [Message(head)])
    else
      p.(buffer := rest, nextLen := 4, readingLen := true, hadHandshake := true,
         wrong := p.wrong || !HasHeader(head), frames := p.frames + [Handshake(head)])
  }

  /** Every round takes bytes from the buffer or turns from a message to the next length prefix; a message of length
      zero takes none. */
  ghost function Work(p: Parser): nat {
    2 * |p.buffer| + if p.readingLen then 0 else 1
  }

  lemma StepWellFormed(p: Parser)
    requires WellFormed(p) && Ready(p)
    ensures WellFormed(Step(p)) && Work(Step(p)) < Work(p)
  {
    if p.readingLen {
      PackUnpack(p.buffer[..4]);
    }
  }

  /** The loop of process_segment. */
  ghost function Loop(p: Parser): (r: Parser)
    requires WellFormed(p)
    ensures WellFormed(r) && !Ready(r)
    decreases Work(p)
  {
    if Ready(p) then
      StepWellFormed(p);
      Loop(Step(p))
    else p
  }

  ghost function Buffered(p: Parser, data: Bytes): Parser {
    p.(buffer := p.buffer + data)
  }

  /** process_segment: the flag is tested on entry only. */
  ghost function Feed(p: Parser, data: Bytes): (r: Parser)
    requires WellFormed(p) && AreBytes(data)
    ensures WellFormed(r)
  {
    if p.wrong then p else Loop(Buffered(p, data))
  }

  // ----- chunking -----

  lemma StepBuffered(p: Parser, more: Bytes)
    requires WellFormed(p) && Ready(p) && AreBytes(more)
    ensures Ready(Buffered(p, more)) && Step(Buffered(p, more)) == Buffered(Step(p), more)
  {
    assert (p.buffer + more)[..p.nextLen] == p.buffer[..p.nextLen];
    assert (p.buffer + more)[p.nextLen..] == p.buffer[p.nextLen..] + more;
  }

  /** Running the loop, adding bytes and running it again amounts to adding the bytes first. */
  lemma {:induction false} LoopBuffered(p: Parser, more: Bytes)
    requires WellFormed(p) && AreBytes(more)
    ensures Loop(Buffered(Loop(p), more)) == Loop(Buffered(p, more))
    decreases Work(p)
  {
    if Ready(p) {
      StepWellFormed(p);
      StepBuffered(p, more);
      LoopBuffered(Step(p), more);
    }
  }

  /** The loop never forgets a frame and never takes back that the stream is wrong. */
  lemma {:induction false} LoopGrows(p: Parser)
    requires WellFormed(p)
    ensures p.frames <= Loop(p).frames && (p.wrong ==> Loop(p).wrong)
    ensures p.hadHandshake ==> Loop(p).hadHandshake && (Loop(p).wrong ==> p.wrong)
    decreases Work(p)
  {
    if Ready(p) {
      StepWellFormed(p);
      LoopGrows(Step(p));
    }
  }

  // ----- nothing is lost -----

  ghost predicate Sendable(f: Frame) {
    match f
    case Handshake(bytes) => |bytes| == 68 && AreBytes(bytes)
    case Message(body) => |body| < 0x1_0000_0000 && AreBytes(body)
  }

  /** The bytes that a sender puts on the wire for a frame. */
  ghost function WireOf(f: Frame): (b: Bytes)
    requires Sendable(f)
    ensures AreBytes(b)
  {
    match f
    case Handshake(bytes) => bytes
    case Message(body) => Pack(|body|) + body
  }

  ghost function Wire(frames: seq<Frame>): (b: Bytes)
    requires forall i :: 0 <= i < |frames| ==> Sendable(frames[i])
    ensures AreBytes(b)
  {
    if frames == [] then [] else Wire(frames[..|frames| - 1]) + WireOf(frames[|frames| - 1])
  }

  lemma WireAppend(frames: seq<Frame>, f: Frame)
    requires (forall i :: 0 <= i < |frames| ==> Sendable(frames[i])) && Sendable(f)
    ensures Wire(frames + [f]) == Wire(frames) + WireOf(f)
  {
    assert (frames + [f])[..|frames|] == frames;
  }

  ghost predicate AllSendable(p: Parser) {
    forall i :: 0 <= i < |p.frames| ==> Sendable(p.frames[i])
  }

  /** All bytes a parser has been fed: the frames it took, the length prefix it has read, and what is in the buffer. */
  ghost function Fed(p: Parser): Bytes
    requires WellFormed(p) && AllSendable(p)
  {
    Wire(p.frames) + (if p.hadHandshake && !p.readingLen then Pack(p.nextLen) else []) + p.buffer
  }

  lemma FramesStaySendable(p: Parser)
    requires WellFormed(p) && Ready(p) && AllSendable(p)
    ensures AllSendable(Step(p))
  {
  }

  lemma Regroup(a: Bytes, b: Bytes, c: Bytes, d: Bytes)
    ensures a + b + (c + d) == a + (b + c) + d == a + (b + c) + [] + d
  {
  }

  lemma PrefixKeepsBytes(p: Parser)
    requires WellFormed(p) && Ready(p) && AllSendable(p) && p.readingLen
    ensures WellFormed(Step(p)) && Fed(Step(p)) == Fed(p)
  {
    StepWellFormed(p);
    PackUnpack(p.buffer[..4]);
    assert p.buffer == p.buffer[..4] + p.buffer[4..];
    Regroup(Wire(p.frames), [], p.buffer[..4], p.buffer[4..]);
  }

  lemma FrameKeepsBytes(p: Parser)
    requires WellFormed(p) && Ready(p) && AllSendable(p) && !p.readingLen
    ensures WellFormed(Step(p)) && AllSendable(Step(p)) && Fed(Step(p)) == Fed(p)
  {
    StepWellFormed(p);
    FramesStaySendable(p);
    var head, rest := p.buffer[..p.nextLen], p.buffer[p.nextLen..];
    var frame := if p.hadHandshake then Message(head) else Handshake(head);
    assert p.buffer == head + rest;
    WireAppend(p.frames, frame);
    Regroup(Wire(p.frames), if p.hadHandshake then Pack(p.nextLen) else [], head, rest);
  }

  lemma StepKeepsBytes(p: Parser)
    requires WellFormed(p) && Ready(p) && AllSendable(p)
    ensures WellFormed(Step(p)) && AllSendable(Step(p)) && Fed(Step(p)) == Fed(p)
  {
    if p.readingLen {
      PrefixKeepsBytes(p);
    } else {
      FrameKeepsBytes(p);
    }
  }

  lemma {:induction false} LoopKeepsBytes(p: Parser)
    requires WellFormed(p) && AllSendable(p)
    ensures AllSendable(Loop(p)) && Fed(Loop(p)) == Fed(p)
    decreases Work(p)
  {
    if Ready(p) {
      StepWellFormed(p);
      StepKeepsBytes(p);
      LoopKeepsBytes(Step(p));
    }
  }

  /** Nothing fed to a parser that has not met a wrong handshake is lost, reordered or made up. */
  lemma FeedIsLossless(p: Parser, data: Bytes)
    requires WellFormed(p) && AllSendable(p) && AreBytes(data) && !p.wrong
    ensures AllSendable(Feed(p, data)) && Fed(Feed(p, data)) == Fed(p) + data
  {
    LoopKeepsBytes(Buffered(p, data));
    assert Fed(Buffered(p, data)) == Fed(p) + data;
  }

  // ----- where the bytes are cut -----

  /** The bytes begin with a whole handshake, of another protocol. */
  predicate WrongHandshake(w: Bytes) {
    |w| >= 68 && !HasHeader(w)
  }

  lemma LoopStep(p: Parser)
    requires WellFormed(p) && Ready(p)
    ensures WellFormed(Step(p)) && Loop(p) == Loop(Step(p))
    ensures !Ready(Step(p)) ==> Loop(p) == Step(p)
  {
    StepWellFormed(p);
  }

  /** A stream turns wrong exactly when its first 68 bytes are complete and do not name the protocol. */
  lemma FeedWrong(p: Parser, a: Bytes)
    requires WellFormed(p) && AreBytes(a) && !p.wrong
    ensures Feed(p, a).wrong <==> !p.hadHandshake && WrongHandshake(p.buffer + a)
  {
    var q := Buffered(p, a);
    if !p.hadHandshake && Ready(q) {
      LoopStep(q);
      LoopGrows(Step(q));
    } else {
      LoopGrows(q);
    }
  }

  /** Where the bytes are cut makes no difference, except that after a wrong handshake the rest of the same segment is
      still parsed while later segments are dropped. */
  lemma ChunkingInvariance(p: Parser, a: Bytes, b: Bytes)
    requires WellFormed(p) && AllSendable(p) && AreBytes(a) && AreBytes(b)
    ensures Feed(Feed(p, a), b) == Feed(p, a + b) <==> p.hadHandshake || !WrongHandshake(p.buffer + a) || b == []
  {
    if !p.wrong {
      var q := Feed(p, a);
      FeedWrong(p, a);
      assert Buffered(Buffered(p, a), b) == Buffered(p, a + b);
      LoopBuffered(Buffered(p, a), b);
      if q.wrong {
        FeedIsLossless(p, a);
        FeedIsLossless(p, a + b);
        if b == [] {
          assert a + b == a;
        } else {
          assert |Fed(p) + (a + b)| > |Fed(p) + a|;
        }
      }
    }
  }

  ghost function Concat(chunks: seq<Bytes>): Bytes {
    if chunks == [] then [] else Concat(chunks[..|chunks| - 1]) + chunks[|chunks| - 1]
  }

  ghost predicate AllBytes(chunks: seq<Bytes>) {
    forall i :: 0 <= i < |chunks| ==> AreBytes(chunks[i])
  }

  /** process_segment called for one chunk after the other. */
  ghost function FeedAll(p: Parser, chunks: seq<Bytes>): (r: Parser)
    requires WellFormed(p) && AllBytes(chunks)
    ensures WellFormed(r)
  {
    if chunks == [] then p else Feed(FeedAll(p, chunks[..|chunks| - 1]), chunks[|chunks| - 1])
  }

  lemma {:induction false} ConcatPrefix(chunks: seq<Bytes>, k: nat)
    requires k <= |chunks|
    ensures Concat(chunks[..k]) <= Concat(chunks)
  {
    if k == |chunks| {
      assert chunks[..k] == chunks;
    } else {
      var n := |chunks| - 1;
      ConcatPrefix(chunks[..n], k);
      assert chunks[..n][..k] == chunks[..k];
    }
  }

  lemma {:induction false} ConcatIsBytes(chunks: seq<Bytes>)
    requires AllBytes(chunks)
    ensures AreBytes(Concat(chunks))
  {
    if chunks != [] {
      ConcatIsBytes(chunks[..|chunks| - 1]);
    }
  }

  lemma FeedNothing()
    ensures Feed(Fresh(), []) == Fresh()
  {
    assert Buffered(Fresh(), []) == Fresh();
  }

  /** The chunks that come when 68 bytes have arrived are empty. */
  ghost predicate NothingAfterHandshake(chunks: seq<Bytes>) {
    forall k :: 0 <= k < |chunks| && |Concat(chunks[..k])| >= 68 ==> chunks[k] == []
  }

  lemma NothingAfterNext(init: seq<Bytes>, last: Bytes)
    ensures NothingAfterHandshake(init + [last]) <==>
      NothingAfterHandshake(init) && (|Concat(init)| >= 68 ==> last == [])
  {
    var chunks := init + [last];
    assert forall k :: 0 <= k <= |init| ==> chunks[..k] == init[..k];
    assert init[..|init|] == init && chunks[|init|] == last;
    assert forall k :: 0 <= k < |init| ==> chunks[k] == init[k];
  }

  lemma ConcatNext(init: seq<Bytes>, last: Bytes)
    ensures Concat(init + [last]) == Concat(init) + last
  {
    assert (init + [last])[..|init|] == init;
  }

  lemma FeedAllNext(init: seq<Bytes>, last: Bytes)
    requires AllBytes(init) && AreBytes(last)
    ensures AllBytes(init + [last]) && FeedAll(Fresh(), init + [last]) == Feed(FeedAll(Fresh(), init), last)
  {
    assert (init + [last])[..|init|] == init;
  }

  /** One more chunk: the outcome is that of one call exactly when it was so before, or the handshake was incomplete. */
  lemma FeedOneMore(w: Bytes, q: Parser, last: Bytes)
    requires AreBytes(w) && AreBytes(last) && WellFormed(q)
    requires q == Feed(Fresh(), w)
    ensures Feed(q, last) == Feed(Fresh(), w + last) <==> !WrongHandshake(w) || last == []
  {
    ChunkingInvariance(Fresh(), w, last);
    assert Fresh().buffer + w == w;
  }

  lemma FeedIsWrong(w: Bytes)
    requires AreBytes(w)
    ensures Feed(Fresh(), w).wrong <==> WrongHandshake(w)
  {
    FeedWrong(Fresh(), w);
    assert Fresh().buffer + w == w;
  }

  /** A new parser accepts a stream exactly when it begins with byte 19 and the name of the protocol. */
  lemma FirstBytesDecide(w: Bytes)
    requires AreBytes(w) && |w| >= 68
    ensures !Feed(Fresh(), w).wrong <==>
            w[..20] == [19, 66, 105, 116, 84, 111, 114, 114, 101, 110, 116, 32, 112, 114, 111, 116, 111, 99, 111, 108]
  {
    FeedIsWrong(w);
  }

  /** More bytes after the first 68 do not change what these are. */
  lemma WrongHandshakeExtends(w: Bytes, more: Bytes)
    ensures WrongHandshake(w) ==> WrongHandshake(w + more)
    ensures |w| >= 68 ==> (WrongHandshake(w) <==> WrongHandshake(w + more))
  {
    if |w| >= 68 {
      assert (w + more)[..68] == w[..68];
    }
  }

  /** Chunk by chunk, a stream with a wrong handshake turns wrong too, and no more than its bytes are taken. */
  lemma {:induction false} FeedAllTakes(chunks: seq<Bytes>)
    requires AllBytes(chunks)
    ensures AreBytes(Concat(chunks)) && AllSendable(FeedAll(Fresh(), chunks))
    ensures |Fed(FeedAll(Fresh(), chunks))| <= |Concat(chunks)|
  {
    ConcatIsBytes(chunks);
    if chunks != [] {
      var init, last := chunks[..|chunks| - 1], chunks[|chunks| - 1];
      FeedAllTakes(init);
      var p := FeedAll(Fresh(), init);
      if !p.wrong {
        FeedIsLossless(p, last);
      }
    }
  }

  lemma NothingAfterIncomplete(chunks: seq<Bytes>)
    requires |Concat(chunks)| < 68
    ensures NothingAfterHandshake(chunks)
  {
    forall k | 0 <= k <= |chunks| ensures |Concat(chunks[..k])| < 68 {
      ConcatPrefix(chunks, k);
    }
  }

  /** A parser that is wrong already drops another chunk, while one call with all bytes takes it. */
  lemma FeedAfterWrong(init: seq<Bytes>, last: Bytes, w: Bytes, q: Parser)
    requires AllBytes(init) && AreBytes(last) && w == Concat(init) && AreBytes(w) && q == FeedAll(Fresh(), init)
    requires q.wrong && (q == Feed(Fresh(), w) <==> NothingAfterHandshake(init))
    ensures Feed(q, last) == q
    ensures q == Feed(Fresh(), w + last) <==> NothingAfterHandshake(init) && last == []
  {
    if last == [] {
      assert w + last == w;
    } else {
      FeedAllTakes(init);
      FeedIsLossless(Fresh(), w + last);
      assert |Fed(Fresh())| == 0;
    }
  }

  /** For every way to cut a stream into segments: the outcome is that of one call exactly when the first 68 bytes are
      incomplete, or name the protocol, or nothing follows the segment that completes them. */
  lemma {:induction false} FeedAllIsFeed(chunks: seq<Bytes>)
    requires AllBytes(chunks)
    ensures AreBytes(Concat(chunks))
    ensures FeedAll(Fresh(), chunks).wrong <==> WrongHandshake(Concat(chunks))
    ensures FeedAll(Fresh(), chunks) == Feed(Fresh(), Concat(chunks)) <==>
      !WrongHandshake(Concat(chunks)) || NothingAfterHandshake(chunks)
  {
    ConcatIsBytes(chunks);
    FeedIsWrong(Concat(chunks));
    if chunks == [] {
      FeedNothing();
    } else {
      var init, last := chunks[..|chunks| - 1], chunks[|chunks| - 1];
      assert chunks == init + [last];
      FeedAllIsFeed(init);
      ConcatNext(init, last);
      FeedAllNext(init, last);
      NothingAfterNext(init, last);
      var w, q := Concat(init), FeedAll(Fresh(), init);
      WrongHandshakeExtends(w, last);
      if WrongHandshake(w) {
        FeedAfterWrong(init, last, w, q);
      } else {
        FeedOneMore(w, q, last);
        if |w| < 68 {
          NothingAfterIncomplete(init);
        }
      }
    }
  }

  // ----- parsing what a peer sends -----

  /** A valid handshake followed by messages. */
  ghost predicate Conversation(fs: seq<Frame>) {
    && |fs| > 0 && fs[0].Handshake? && |fs[0].bytes| == 68 && HasHeader(fs[0].bytes)
    && (forall i :: 0 <= i < |fs| ==> Sendable(fs[i]))
    && (forall i :: 1 <= i < |fs| ==> fs[i].Message?)
  }

  /** A parser that has taken the frames fs and waits for the next length prefix. */
  ghost function After(fs: seq<Frame>): Parser {
    Parser([], 4, true, true, false, fs)
  }

  lemma FeedHandshake(h: Bytes)
    requires Sendable(Handshake(h)) && HasHeader(h)
    ensures Feed(Fresh(), h) == After([Handshake(h)])
  {
    var p := Buffered(Fresh(), h);
    assert p.buffer == h && h[..68] == h && h[68..] == [];
    StepWellFormed(p);
    assert Step(p) == After([Handshake(h)]);
    LoopStep(p);
  }

  lemma FeedMessage(fs: seq<Frame>, body: Bytes)
    requires WellFormed(After(fs)) && Sendable(Message(body))
    ensures Feed(After(fs), WireOf(Message(body))) == After(fs + [Message(body)])
  {
    var p := Buffered(After(fs), Pack(|body|) + body);
    assert p.buffer[..4] == Pack(|body|) && p.buffer[4..] == body;
    StepWellFormed(p);
    var q := Parser(body, |body|, false, true, false, fs);
    assert Step(p) == q;
    assert body[..|body|] == body && body[|body|..] == [];
    StepWellFormed(q);
    assert Step(q) == After(fs + [Message(body)]);
    LoopStep(p);
    LoopStep(q);
  }

  lemma ParseFirst(h: Bytes)
    requires Sendable(Handshake(h)) && HasHeader(h)
    ensures Feed(Fresh(), Wire([Handshake(h)])) == After([Handshake(h)])
  {
    WireAppend([], Handshake(h));
    assert [] + [Handshake(h)] == [Handshake(h)];
    assert Wire([Handshake(h)]) == h;
    FeedHandshake(h);
  }

  lemma ParseNext(fs: seq<Frame>, f: Frame)
    requires Conversation(fs) && Sendable(f) && f.Message? && Feed(Fresh(), Wire(fs)) == After(fs)
    ensures Feed(Fresh(), Wire(fs + [f])) == After(fs + [f])
  {
    WireAppend(fs, f);
    FeedIsWrong(Wire(fs));
    FeedOneMore(Wire(fs), After(fs), WireOf(f));
    FeedMessage(fs, f.body);
  }

  lemma ConversationPrefix(fs: seq<Frame>, k: nat)
    requires Conversation(fs) && 0 < k <= |fs|
    ensures Conversation(fs[..k])
  {
  }

  /** One call with everything a peer sends yields its frames, and nothing is left over. */
  lemma {:induction false} ParseConversation(fs: seq<Frame>)
    requires Conversation(fs)
    ensures Feed(Fresh(), Wire(fs)) == After(fs)
  {
    var n := |fs| - 1;
    if n == 0 {
      assert fs == [fs[0]];
      ParseFirst(fs[0].bytes);
    } else {
      ConversationPrefix(fs, n);
      ParseConversation(fs[..n]);
      assert fs == fs[..n] + [fs[n]];
      ParseNext(fs[..n], fs[n]);
    }
  }

  lemma {:induction false} WirePrefix(fs: seq<Frame>, k: nat)
    requires (forall i :: 0 <= i < |fs| ==> Sendable(fs[i])) && k <= |fs|
    ensures Wire(fs[..k]) <= Wire(fs)
    decreases |fs|
  {
    if k == |fs| {
      assert fs[..k] == fs;
    } else {
      var n := |fs| - 1;
      WirePrefix(fs[..n], k);
      assert fs[..n][..k] == fs[..k];
    }
  }

  /** Feeding a fresh parser may be interrupted anywhere. */
  lemma FeedResumes(w: Bytes, m: nat)
    requires AreBytes(w) && m <= |w|
    ensures Feed(Fresh(), w) == Loop(Buffered(Feed(Fresh(), w[..m]), w[m..]))
  {
    LoopBuffered(Buffered(Fresh(), w[..m]), w[m..]);
    assert w == w[..m] + w[m..];
    assert Buffered(Buffered(Fresh(), w[..m]), w[m..]) == Buffered(Fresh(), w);
  }

  /** Whatever the parser has taken after n bytes it still has in the end. */
  lemma ResumesTo(fs: seq<Frame>, n: nat)
    requires Conversation(fs) && n <= |Wire(fs)|
    ensures !Feed(Fresh(), Wire(fs)[..n]).wrong && Feed(Fresh(), Wire(fs)[..n]).frames <= fs
  {
    var w := Wire(fs);
    FeedResumes(w, n);
    ParseConversation(fs);
    LoopGrows(Buffered(Feed(Fresh(), w[..n]), w[n..]));
  }

  /** A frame that ends within the first n bytes has been taken. */
  lemma TakesCompleteFrames(fs: seq<Frame>, w: Bytes)
    requires Conversation(fs) && AreBytes(w) && Wire(fs) <= w
    ensures fs <= Feed(Fresh(), w).frames
  {
    var m := |Wire(fs)|;
    assert w[..m] == Wire(fs);
    FeedResumes(w, m);
    ParseConversation(fs);
    LoopGrows(Buffered(After(fs), w[m..]));
  }

  /** The frames taken so far fit into the bytes fed so far. */
  lemma FramesFit(w: Bytes)
    requires AreBytes(w)
    ensures AllSendable(Feed(Fresh(), w)) && |Wire(Feed(Fresh(), w).frames)| <= |w|
  {
    FeedIsLossless(Fresh(), w);
    assert |Fed(Feed(Fresh(), w))| == |w|;
  }

  lemma FirstFramesTaken(fs: seq<Frame>, w: Bytes, k: nat)
    requires Conversation(fs) && AreBytes(w) && 0 < k <= |fs| && Wire(fs[..k]) <= w
    ensures k <= |Feed(Fresh(), w).frames|
  {
    ConversationPrefix(fs, k);
    TakesCompleteFrames(fs[..k], w);
  }

  lemma PrefixOfPrefix(whole: Bytes, part: Bytes, n: nat)
    requires part <= whole && |part| <= n <= |whole|
    ensures part <= whole[..n]
  {
  }

  /** The frame after those taken does not end within the first n bytes. */
  lemma NextDoesNotFit(fs: seq<Frame>, n: nat, k: nat)
    requires Conversation(fs) && n <= |Wire(fs)| && k < |fs| && k == |Feed(Fresh(), Wire(fs)[..n]).frames|
    ensures n < |Wire(fs[..k + 1])|
  {
    if |Wire(fs[..k + 1])| <= n {
      WirePrefix(fs, k + 1);
      PrefixOfPrefix(Wire(fs), Wire(fs[..k + 1]), n);
      FirstFramesTaken(fs, Wire(fs)[..n], k + 1);
    }
  }

  lemma TakenFramesFit(fs: seq<Frame>, n: nat, taken: seq<Frame>)
    requires Conversation(fs) && n <= |Wire(fs)| && taken == Feed(Fresh(), Wire(fs)[..n]).frames
    ensures |taken| <= |fs| && taken == fs[..|taken|] && |Wire(fs[..|taken|])| <= n
  {
    ResumesTo(fs, n);
    assert taken == fs[..|taken|];
    FramesFit(Wire(fs)[..n]);
  }

  /** Fed with the first n bytes of a conversation, a parser has taken exactly those frames that end within them. */
  lemma ParsePrefix(fs: seq<Frame>, n: nat)
    requires Conversation(fs) && n <= |Wire(fs)|
    ensures var r := Feed(Fresh(), Wire(fs)[..n]);
      && !r.wrong && r.frames <= fs && |Wire(fs[..|r.frames|])| <= n
      && (|r.frames| < |fs| ==> n < |Wire(fs[..|r.frames| + 1])|)
  {
    var taken := Feed(Fresh(), Wire(fs)[..n]).frames;
    ResumesTo(fs, n);
    TakenFramesFit(fs, n, taken);
    if |taken| < |fs| {
      NextDoesNotFit(fs, n, |taken|);
    }
  }

  // ----- a stream on which it matters -----

  /** 68 bytes that are no handshake. */
  function Garbage(): Bytes {
    seq(68, i => 0)
  }

  /** An empty message. */
  function KeepAlive(): Bytes {
    [0, 0, 0, 0]
  }

  lemma GarbageIsWrong()
    ensures !HasHeader(Garbage())
  {
    assert Garbage()[..20][0] == 0;
  }

  lemma FirstHalfAlone()
    ensures AreBytes(Garbage()) && Feed(Fresh(), Garbage()).wrong
    ensures Feed(Fresh(), Garbage()).frames == [Handshake(Garbage())]
  {
    var g := Garbage();
    var p := Buffered(Fresh(), g);
    assert p.buffer == g && g[..68] == g && g[68..] == [];
    GarbageIsWrong();
    StepWellFormed(p);
    LoopStep(p);
  }

  lemma HandshakeTaken(p: Parser, q: Parser)
    requires p == Buffered(Fresh(), Garbage() + KeepAlive())
    requires q == Parser(KeepAlive(), 4, true, true, true, [Handshake(Garbage())])
    ensures WellFormed(p) && WellFormed(q) && Loop(p) == Loop(q)
  {
    var g, k := Garbage(), KeepAlive();
    assert p.buffer[..68] == g && p.buffer[68..] == k && p.buffer[..68][..20] == g[..20];
    GarbageIsWrong();
    LoopStep(p);
    assert Step(p) == q;
  }

  lemma KeepAliveTaken(q: Parser, frames: seq<Frame>)
    requires WellFormed(q) && q == Parser(KeepAlive(), 4, true, true, true, frames)
    ensures Loop(q) == Parser([], 4, true, true, true, frames + [Message([])])
  {
    var k := KeepAlive();
    assert k[..4] == k && k[4..] == [] && Unpack(k) == 0;
    LoopStep(q);
    var r := Parser([], 0, false, true, true, frames);
    assert Step(q) == r;
    LoopStep(r);
  }

  /** In one segment the empty message after the wrong handshake is taken, in a second one it is dropped. */
  lemma CuttingMatters()
    ensures AreBytes(Garbage()) && AreBytes(Garbage() + KeepAlive())
    ensures Feed(Fresh(), Garbage() + KeepAlive()).frames == [Handshake(Garbage()), Message([])]
    ensures Feed(Feed(Fresh(), Garbage()), KeepAlive()).frames == [Handshake(Garbage())]
  {
    var q := Parser(KeepAlive(), 4, true, true, true, [Handshake(Garbage())]);
    HandshakeTaken(Buffered(Fresh(), Garbage() + KeepAlive()), q);
    KeepAliveTaken(q, q.frames);
    FirstHalfAlone();
  }

  // ----- the parser object -----

  /** ByteFIFO. */
  class ByteFIFO {
    var buf: Bytes

    constructor ()
      ensures buf == []
    {
      buf := [];
    }

    method Put(data: Bytes)
      modifies this
      ensures buf == old(buf) + data
    {
      buf := buf + data;
    }

    /** Takes up to size bytes from the front. */
    method Get(size: nat) returns (data: Bytes)
      modifies this
      ensures data + buf == old(buf) && |data| == if size < |old(buf)| then size else |old(buf)|
    {
      var n := if size < |buf| then size else |buf|;
      data := buf[..n];
      buf := buf[n..];
    }
  }

  class BitTorrentParser {
    const messageBuffer: ByteFIFO
    var nextLen: nat
    var readingLen: bool
    var hadHandshake: bool
    var wrong: bool
    var frames: seq<Frame>

    function State(): Parser
      reads this, messageBuffer
    {
      Parser(messageBuffer.buf, nextLen, readingLen, hadHandshake, wrong, frames)
    }

    constructor ()
      ensures fresh(messageBuffer) && State() == Fresh()
    {
      messageBuffer := new ByteFIFO();
      nextLen, readingLen, hadHandshake, wrong, frames := 68, false, false, false, [];
    }

    method ProcessHandshake()
      requires WellFormed(State()) && Ready(State()) && !hadHandshake
      modifies this`hadHandshake, this`wrong, this`frames, messageBuffer
      ensures messageBuffer.buf == old(messageBuffer.buf[68..]) && hadHandshake
      ensures frames == old(frames + [Handshake(messageBuffer.buf[..68])])
      ensures wrong == old(wrong || !HasHeader(messageBuffer.buf))
    {
      var stream := messageBuffer.Get(68);
      assert stream == old(messageBuffer.buf)[..68];
      TestsHeader(stream);
      assert stream[..20] == old(messageBuffer.buf)[..20];
      if !IsProtocolHandshake(stream) {
        wrong := true;
      }
      hadHandshake := true;
      frames := frames + [Handshake(stream)];
    }

    method ProcessMessage()
      requires Ready(State())
      modifies this`frames, messageBuffer
      ensures messageBuffer.buf == old(messageBuffer.buf[nextLen..])
      ensures frames == old(frames + [Message(messageBuffer.buf[..nextLen])])
    {
      var stream := messageBuffer.Get(nextLen);
      assert stream == old(messageBuffer.buf)[..nextLen];
      frames := frames + [Message(stream)];
    }

    /** The body of the loop of process_segment. */
    method ProcessNext()
      requires WellFormed(State()) && Ready(State())
      modifies this, messageBuffer
      ensures State() == old(Step(State()))
    {
      if readingLen {
        var lenB := messageBuffer.Get(4);
        assert lenB == old(messageBuffer.buf)[..4];
        nextLen := Unpack(lenB);
        readingLen := false;
        return;
      }
      if hadHandshake {
        ProcessMessage();
      } else {
        ProcessHandshake();
      }
      readingLen := true;
      nextLen := 4;
    }

    method ProcessSegment(payload: Bytes)
      requires WellFormed(State()) && AreBytes(payload)
      modifies this, messageBuffer
      ensures WellFormed(State()) && State() == old(Feed(State(), payload))
      ensures old(State()) == Fresh() && |payload| >= 68 ==> (!wrong <==> HasHeader(payload))
    {
      ghost var before := State();
      if before == Fresh() {
        FeedIsWrong(payload);
      }
      if wrong {
        return;
      }
      messageBuffer.Put(payload);
      var inBuffer := |messageBuffer.buf|;
      while inBuffer >= nextLen
        invariant inBuffer == |messageBuffer.buf| && WellFormed(State())
        invariant Loop(State()) == old(Feed(State(), payload))
        decreases Work(State())
      {
        StepWellFormed(State());
        ProcessNext();
        inBuffer := |messageBuffer.buf|;
      }
    }
  }
}
