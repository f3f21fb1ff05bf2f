/** SPTPS over a byte stream: the incremental record parser of sptps_receive_data. */
module SptpsStream {
  import opened Common
  import opened SptpsSpec

  /** A session with the bytes of the record it is still collecting. */
  datatype Stream = Stream(p: Peer, inbuf: Bytes)

  datatype Fed = Broken | Fed(s: Stream, sent: seq<Bytes>, up: seq<Record>)

  /** The length in the first two bytes. */
  function RecLen(buf: Bytes): nat
    requires |buf| >= 2
  {
    buf[0] as int * 256 + buf[1] as int
  }

  /** The size of a record with `n` bytes of payload. */
  function RecordSize(p: Peer, n: nat): nat {
    n + if p.instate then 19 else 3
  }

  predicate Complete(p: Peer, buf: Bytes) {
    |buf| >= 2 && |buf| >= RecordSize(p, RecLen(buf))
  }

  /** One more byte. */
  function FeedByte(c: Config, s: Stream, b: byte): Fed {
    var buf := s.inbuf + [b];
    if !Complete(s.p, buf) then Fed(Stream(s.p, buf), [], [])
    else
      match Receive(c, s.p, buf[2..])
      case Error => Broken
      case Next(p, sent, up) => Fed(Stream(p, []), sent, up)
  }

  /** What came of `f` and then of `g`. */
  function Then(f: Fed, g: Fed): Fed {
    if f.Broken? || g.Broken? then Broken else Fed(g.s, f.sent + g.sent, f.up + g.up)
  }

  /** Any number of bytes. */
  function Feed(c: Config, s: Stream, data: Bytes): Fed {
    if data == [] then Fed(s, [], [])
    else
      var k := |data| - 1;
      var f := Feed(c, s, data[..k]);
      if f.Broken? then Broken else Then(f, FeedByte(c, f.s, data[k]))
  }

  lemma ThenAssociative(f: Fed, g: Fed, h: Fed)
    ensures Then(Then(f, g), h) == Then(f, Then(g, h))
  {
    if f.Fed? && g.Fed? && h.Fed? {
      assert f.sent + g.sent + h.sent == f.sent + (g.sent + h.sent);
      assert f.up + g.up + h.up == f.up + (g.up + h.up);
    }
  }

  lemma ThenNothing(f: Fed)
    requires f.Fed?
    ensures Then(f, Fed(f.s, [], [])) == f
  {
    assert f.sent + [] == f.sent && f.up + [] == f.up;
  }

  /** How the stream is cut into pieces does not matter. */
  lemma {:induction false} FeedConcat(c: Config, s: Stream, d1: Bytes, d2: Bytes)
    ensures var f := Feed(c, s, d1);
            Feed(c, s, d1 + d2) == if f.Broken? then Broken else Then(f, Feed(c, f.s, d2))
    decreases |d2|
  {
    hide FeedByte;
    var f := Feed(c, s, d1);
    if d2 == [] {
      assert d1 + d2 == d1;
      if f.Fed? {
        ThenNothing(f);
      }
    } else {
      var k := |d2| - 1;
      FeedConcat(c, s, d1, d2[..k]);
      assert (d1 + d2)[..|d1 + d2| - 1] == d1 + d2[..k];
      if f.Fed? && Feed(c, f.s, d2[..k]).Fed? {
        var g := Feed(c, f.s, d2[..k]);
        ThenAssociative(f, g, FeedByte(c, g.s, d2[k]));
      }
    }
  }

  /** Bytes that do not complete the record are only stored. */
  lemma {:induction false} FeedPartial(c: Config, s: Stream, data: Bytes)
    requires forall k | 0 <= k <= |data| :: !Complete(s.p, s.inbuf + data[..k])
    ensures Feed(c, s, data) == Fed(Stream(s.p, s.inbuf + data), [], [])
    decreases |data|
  {
    hide Complete, Receive;
    if data == [] {
      assert s.inbuf + data == s.inbuf;
    } else {
      var k := |data| - 1;
      var init := data[..k];
      forall j | 0 <= j <= |init|
        ensures !Complete(s.p, s.inbuf + init[..j])
      {
        assert init[..j] == data[..j];
      }
      FeedPartial(c, s, init);
      assert data[..|data|] == data && init + [data[k]] == data;
      assert s.inbuf + init + [data[k]] == s.inbuf + data;
    }
  }

  /** A whole record, whatever has been collected of it before. */
  lemma FeedRecord(c: Config, p: Peer, w: Bytes, k: nat)
    requires k < |w| && |w| >= 2 && |w| == RecordSize(p, RecLen(w))
    ensures Feed(c, Stream(p, w[..k]), w[k..]) ==
            match Receive(c, p, w[2..])
            case Error => Broken
            case Next(p', sent, up) => Fed(Stream(p', []), sent, up)
  {
    var s, data := Stream(p, w[..k]), w[k..];
    var init := data[..|data| - 1];
    forall j | 0 <= j <= |init|
      ensures !Complete(p, s.inbuf + init[..j])
    {
      assert s.inbuf + init[..j] == w[..k + j];
    }
    FeedPartial(c, s, init);
    assert s.inbuf + init + [data[|data| - 1]] == w;
    assert Feed(c, s, data) == Then(Feed(c, s, init), FeedByte(c, Stream(p, s.inbuf + init), data[|data| - 1]));
  }

  /** While the buffer is incomplete so are all of its prefixes. */
  lemma IncompletePrefix(p: Peer, buf: Bytes, k: nat)
    requires k <= |buf| && !Complete(p, buf)
    ensures !Complete(p, buf[..k])
  {
  }

  /** A stream that broke stays broken. */
  lemma BrokenStays(c: Config, s: Stream, data: Bytes, k: nat)
    requires k <= |data| && Feed(c, s, data[..k]).Broken?
    ensures Feed(c, s, data).Broken?
  {
    FeedConcat(c, s, data[..k], data[k..]);
    assert data[..k] + data[k..] == data;
  }
}
