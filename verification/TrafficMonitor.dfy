/** Reassembly and framing together: every segment that add_segment delivers goes to the parser of its direction
    (on_new_segment of main_tracer.py). */
module TrafficMonitor {
  import opened UtpReassembly
  import opened BitTorrentFramer

  lemma {:induction false} ChunksAreBytes(chunks: seq<Bytes>)
    requires AreBytes(Concat(chunks))
    ensures forall i :: 0 <= i < |chunks| ==> AreBytes(chunks[i])
  {
    if chunks != [] {
      var n := |chunks| - 1;
      var whole, init := Concat(chunks), Concat(chunks[..n]);
      assert forall i :: 0 <= i < |init| ==> init[i] == whole[i];
      assert forall i :: 0 <= i < |chunks[n]| ==> chunks[n][i] == whole[|init| + i];
      ChunksAreBytes(chunks[..n]);
      assert forall i :: 0 <= i < n ==> chunks[i] == chunks[..n][i];
    }
  }

  /** The sender of direction d puts the frames fs on the wire in n packets, and no other packet arrives. */
  ghost predicate Sends(t: Traffic, d: Direction, n: nat, fs: seq<Frame>) {
    && Conversation(fs)
    && Concat(Stream(t.sent, d, t.first.At(d), t.first.At(d) + n)) == Wire(fs)
    && forall k :: k in t.received.At(d) ==> t.first.At(d) <= k < t.first.At(d) + n
  }

  /** What has been delivered is a beginning of what was sent. */
  lemma DeliveredBytes(t: Traffic, c: Progress, next: Both<int>, d: Direction, n: nat, fs: seq<Frame>)
    requires Settled(t, c, next) && Sends(t, d, n, fs)
    ensures t.first.At(d) <= next.At(d) <= t.first.At(d) + n
    ensures PayloadsOf(d, c.delivered) ==
            Stream(t.sent, d, t.first.At(d), t.first.At(d) + n)[..next.At(d) - t.first.At(d)]
    ensures Concat(PayloadsOf(d, c.delivered)) <= Wire(fs)
    ensures forall i :: 0 <= i < |PayloadsOf(d, c.delivered)| ==> AreBytes(PayloadsOf(d, c.delivered)[i])
  {
    DeliveredIsPrefix(t, c, next, d);
    var all, k := Stream(t.sent, d, t.first.At(d), t.first.At(d) + n), next.At(d) - t.first.At(d);
    assert k > 0 ==> next.At(d) - 1 in t.received.At(d);
    assert all[..k] == Stream(t.sent, d, t.first.At(d), next.At(d));
    ConcatPrefix(all, k);
    ChunksAreBytes(all);
  }

  /** The parser state that the delivered segments lead to is that of a single call with all their bytes. */
  lemma SegmentsAsOne(t: Traffic, c: Progress, next: Both<int>, d: Direction, n: nat, fs: seq<Frame>, m: nat)
    requires Settled(t, c, next) && Sends(t, d, n, fs) && m == |Concat(PayloadsOf(d, c.delivered))|
    ensures forall i :: 0 <= i < |PayloadsOf(d, c.delivered)| ==> AreBytes(PayloadsOf(d, c.delivered)[i])
    ensures m <= |Wire(fs)| && FeedAll(Fresh(), PayloadsOf(d, c.delivered)) == Feed(Fresh(), Wire(fs)[..m])
  {
    DeliveredBytes(t, c, next, d, n, fs);
    assert Wire(fs)[..m] == Concat(PayloadsOf(d, c.delivered));
    ResumesTo(fs, m);
    FeedIsWrong(Wire(fs)[..m]);
    FeedAllIsFeed(PayloadsOf(d, c.delivered));
  }

  /** When all packets have arrived all bytes have been delivered. */
  lemma AllDelivered(t: Traffic, c: Progress, next: Both<int>, d: Direction, n: nat, fs: seq<Frame>)
    requires Settled(t, c, next) && Sends(t, d, n, fs)
    requires forall k :: t.first.At(d) <= k < t.first.At(d) + n ==> k in t.received.At(d)
    ensures Concat(PayloadsOf(d, c.delivered)) == Wire(fs)
  {
    DeliveredBytes(t, c, next, d, n, fs);
    DeliveredIsPrefix(t, c, next, d);
    var all := Stream(t.sent, d, t.first.At(d), t.first.At(d) + n);
    assert all[..n] == all;
  }

  /** In whatever order the packets of a direction arrive, the parser has taken a beginning of what the sender sent,
      without a mistake, and everything once all packets have arrived. */
  lemma EndToEnd(t: Traffic, c: Progress, next: Both<int>, d: Direction, n: nat, fs: seq<Frame>)
    requires Settled(t, c, next) && Sends(t, d, n, fs)
    ensures forall i :: 0 <= i < |PayloadsOf(d, c.delivered)| ==> AreBytes(PayloadsOf(d, c.delivered)[i])
    ensures var r := FeedAll(Fresh(), PayloadsOf(d, c.delivered));
      && !r.wrong && r.frames <= fs
      && ((forall k :: t.first.At(d) <= k < t.first.At(d) + n ==> k in t.received.At(d)) ==> r == After(fs))
  {
    var m := |Concat(PayloadsOf(d, c.delivered))|;
    SegmentsAsOne(t, c, next, d, n, fs, m);
    ResumesTo(fs, m);
    if forall k :: t.first.At(d) <= k < t.first.At(d) + n ==> k in t.received.At(d) {
      AllDelivered(t, c, next, d, n, fs);
      ParseConversation(fs);
      assert Wire(fs)[..m] == Wire(fs);
    }
  }
}
