/** fragment_ipv4_packet of src/route.c, and putting the fragments together again as section 3.2
    of RFC 791 describes it. */
module Fragments {
  import opened Common
  import opened Checksum
  import opened Ipv4

  /** A part of a datagram: the offset counts units of eight bytes. */
  datatype Piece = Piece(offset: nat, more: bool, data: Bytes)

  ghost predicate Covers(p: Piece, x: nat) {
    8 * p.offset <= x < 8 * p.offset + |p.data|
  }

  /** What is in the reassembly buffer at x, the pieces having arrived in this order. */
  ghost function Reassembled(q: seq<Piece>, x: nat): Option<byte> {
    if q == [] then None
    else
      var p := q[|q| - 1];
      if Covers(p, x) then Some(p.data[x - 8 * p.offset]) else Reassembled(q[..|q| - 1], x)
  }

  /** The payload of a datagram, cut into pieces of at most 8 * u bytes. */
  ghost function Cut(payload: Bytes, off: nat, more: bool, u: nat): seq<Piece>
    requires u > 0
  {
    if payload == [] then []
    else if |payload| <= 8 * u then [Piece(off, more, payload)]
    else [Piece(off, true, payload[..8 * u])] + Cut(payload[8 * u..], off + u, more, u)
  }

  /** The piece holds the bytes that are there in the whole. */
  ghost predicate PartOf(p: Piece, payload: Bytes, off: nat) {
    && off <= p.offset && 8 * (p.offset - off) + |p.data| <= |payload|
    && p.data == payload[8 * (p.offset - off)..8 * (p.offset - off) + |p.data|]
  }

  lemma {:induction false} CutIsPart(payload: Bytes, off: nat, more: bool, u: nat, p: Piece)
    requires u > 0 && p in Cut(payload, off, more, u)
    ensures PartOf(p, payload, off) && 0 < |p.data| <= 8 * u
    decreases |payload|
  {
    if |payload| > 8 * u {
      if p == Piece(off, true, payload[..8 * u]) {
        assert payload[..8 * u] == payload[0..8 * u];
      } else {
        CutIsPart(payload[8 * u..], off + u, more, u, p);
        PartOfRest(p, payload, off, u);
      }
    } else {
      assert payload == payload[0..|payload|];
    }
  }

  lemma PartOfRest(p: Piece, payload: Bytes, off: nat, u: nat)
    requires |payload| > 8 * u && PartOf(p, payload[8 * u..], off + u)
    ensures PartOf(p, payload, off)
  {
    var k := 8 * (p.offset - off);
    assert payload[k..k + |p.data|] == payload[8 * u..][k - 8 * u..k - 8 * u + |p.data|];
  }

  lemma {:induction false} CutCovers(payload: Bytes, off: nat, more: bool, u: nat, x: nat) returns (p: Piece)
    requires u > 0 && 8 * off <= x < 8 * off + |payload|
    ensures p in Cut(payload, off, more, u) && Covers(p, x)
    decreases |payload|
  {
    if |payload| <= 8 * u {
      p := Piece(off, more, payload);
    } else if x < 8 * (off + u) {
      p := Piece(off, true, payload[..8 * u]);
      assert p == Cut(payload, off, more, u)[0];
    } else {
      p := CutCovers(payload[8 * u..], off + u, more, u, x);
    }
  }

  /** All pieces but the last are full and say that more follow; the last one ends the payload and
      says what the datagram said. */
  ghost predicate WellCut(c: seq<Piece>, off: nat, length: nat, more: bool, u: nat) {
    && c != [] && c[0].offset == off
    && c[|c| - 1].more == more && 8 * c[|c| - 1].offset + |c[|c| - 1].data| == 8 * off + length
    && (forall i | 0 <= i < |c| - 1 :: c[i].more && |c[i].data| == 8 * u)
    && (forall i | 0 < i < |c| :: c[i].offset == c[i - 1].offset + u)
  }

  lemma {:induction false} CutEnds(payload: Bytes, off: nat, more: bool, u: nat)
    requires u > 0 && payload != []
    ensures WellCut(Cut(payload, off, more, u), off, |payload|, more, u)
    decreases |payload|
  {
    if |payload| > 8 * u {
      CutEnds(payload[8 * u..], off + u, more, u);
      WellCutMore(Cut(payload[8 * u..], off + u, more, u), off, |payload|, more, u, payload[..8 * u]);
    }
  }

  lemma WellCutMore(t: seq<Piece>, off: nat, length: nat, more: bool, u: nat, first: Bytes)
    requires |first| == 8 * u < length && WellCut(t, off + u, length - 8 * u, more, u)
    ensures WellCut([Piece(off, true, first)] + t, off, length, more, u)
  {
    var c := [Piece(off, true, first)] + t;
    assert forall i | 0 < i < |c| :: c[i] == t[i - 1];
  }

  lemma {:induction false} CoveredMeans(q: seq<Piece>, x: nat)
    ensures Reassembled(q, x).Some? <==> exists p <- q :: Covers(p, x)
  {
    if q != [] {
      var last, init := q[|q| - 1], q[..|q| - 1];
      CoveredMeans(init, x);
      assert q == init + [last];
      if Reassembled(q, x).Some? && !Covers(last, x) {
        var p :| p in init && Covers(p, x);
        assert p in q;
      }
    }
  }

  lemma {:induction false} ByteMeans(q: seq<Piece>, payload: Bytes, off: nat, x: nat)
    requires (forall p <- q :: PartOf(p, payload, off)) && Reassembled(q, x).Some?
    ensures 8 * off <= x < 8 * off + |payload| && Reassembled(q, x).value == payload[x - 8 * off]
    decreases |q|
  {
    var last, init := q[|q| - 1], q[..|q| - 1];
    assert last in q && forall p <- init :: p in q;
    if Covers(last, x) {
      var k := 8 * (last.offset - off);
      assert last.data[x - 8 * last.offset] == payload[k..k + |last.data|][x - 8 * last.offset];
    } else {
      ByteMeans(init, payload, off, x);
    }
  }

  /** In whatever order the pieces arrive, and however often, the payload is put together again. */
  lemma ReassembleAny(q: seq<Piece>, c: seq<Piece>, payload: Bytes, off: nat, more: bool, u: nat, x: nat)
    requires u > 0 && c == Cut(payload, off, more, u) && (forall p <- q :: p in c) && (forall p <- c :: p in q)
    ensures Reassembled(q, x) == if 8 * off <= x < 8 * off + |payload| then Some(payload[x - 8 * off]) else None
  {
    forall p <- q
      ensures PartOf(p, payload, off)
    {
      CutIsPart(payload, off, more, u, p);
    }
    CoveredMeans(q, x);
    hide Cut, PartOf, Covers;
    if 8 * off <= x < 8 * off + |payload| {
      var p := CutCovers(payload, off, more, u, x);
      assert p in q && Covers(p, x);
    }
    if Reassembled(q, x).Some? {
      ByteMeans(q, payload, off, x);
    }
  }

  /** The offset field of a fragment: the bits of the offset, the flags of the datagram and the
      more-fragments flag, or-ed together. Bit 13 of the offset falls on the more-fragments flag. */
  function OffsetField(o: nat, flags: nat, more: bool): (f: nat)
    requires o < 0x4000 && flags < 8
    ensures f <= 0xffff && f % 0x2000 == o % 0x2000 && (f / 0x2000 % 2 == 1 <==> more || o >= 0x2000 || flags % 2 == 1)
  {
    o % 0x2000 + (if o >= 0x2000 || flags % 2 == 1 || more then 0x2000 else 0) + flags / 2 * 0x4000
  }

  /** The header of a fragment, its checksum field still zero. */
  function Unsummed(h: Bytes, flags: nat, o: nat, len: nat, more: bool): (r: Bytes)
    requires |h| == IP_SIZE && flags < 8 && o < 0x4000 && IP_SIZE + len <= 0xffff
    ensures |r| == IP_SIZE
  {
    SetField(SetField(SetField(h, 2, IP_SIZE + len), 6, OffsetField(o, flags, more)), 10, 0)
  }

  /** The checksum stored as it is kept in memory, low byte first. */
  function Summed(h: Bytes, c: nat): (r: Bytes)
    requires |h| == IP_SIZE && c <= 0xffff
    ensures |r| == IP_SIZE
  {
    h[10 := (c % 256) as byte][11 := (c / 256) as byte]
  }

  ghost function Header(h: Bytes, flags: nat, p: Piece): (r: Bytes)
    requires |h| == IP_SIZE && flags < 8 && p.offset < 0x4000 && IP_SIZE + |p.data| <= 0xffff
    ensures |r| == IP_SIZE
  {
    var d := Unsummed(h, flags, p.offset, |p.data|, p.more);
    Summed(d, Sum16(d, 0xffff))
  }

  lemma UnsummedFields(h: Bytes, flags: nat, o: nat, len: nat, more: bool)
    requires |h| == IP_SIZE && flags < 8 && o < 0x4000 && IP_SIZE + len <= 0xffff
    ensures var d := Unsummed(h, flags, o, len, more);
            Field(d, 2) == IP_SIZE + len && Field(d, 6) == OffsetField(o, flags, more) && d[10] == 0 && d[11] == 0
  {
    hide OffsetField;
  }

  /** The fields of a header that belong to a fragment: its length, its place and the checksum. */
  predicate OwnField(k: nat) {
    k == 2 || k == 3 || k == 6 || k == 7 || k == 10 || k == 11
  }

  /** Everything else in the header is copied. */
  lemma HeaderCopied(h: Bytes, flags: nat, p: Piece, k: nat)
    requires |h| == IP_SIZE && flags < 8 && p.offset < 0x4000 && IP_SIZE + |p.data| <= 0xffff && k < IP_SIZE
             && !OwnField(k)
    ensures Header(h, flags, p)[k] == h[k]
  {
    hide OffsetField, Sum16;
    SumRange(Unsummed(h, flags, p.offset, |p.data|, p.more));
  }

  /** The flags of the datagram but the one for more fragments. */
  lemma FlagsCopied(o: nat, flags: nat, more: bool)
    requires o < 0x4000 && flags < 8
    ensures OffsetField(o, flags, more) / 0x4000 == flags / 2
  {
  }

  /** What the header of a fragment says, and that its checksum is right. */
  lemma HeaderFields(h: Bytes, flags: nat, p: Piece)
    requires |h| == IP_SIZE && flags < 8 && p.offset < 0x4000 && IP_SIZE + |p.data| <= 0xffff
    ensures var r := Header(h, flags, p);
            Correct(r) && Field(r, 2) == IP_SIZE + |p.data| && Field(r, 6) == OffsetField(p.offset, flags, p.more)
  {
    hide OffsetField, Correct, Sum16, Unsummed;
    var d := Unsummed(h, flags, p.offset, |p.data|, p.more);
    UnsummedFields(h, flags, p.offset, |p.data|, p.more);
    SumRange(d);
    StoredIsCorrect(d, 10, Sum16(d, 0xffff));
  }

  lemma SumRange(d: Bytes)
    ensures Sum16(d, 0xffff) <= 0xffff
  {
  }

  /** A whole fragment: link header, IP header, data. */
  ghost function FragmentOf(packet: Bytes, e: nat, flags: nat, p: Piece): Bytes
    requires e + IP_SIZE <= |packet| && flags < 8 && p.offset < 0x4000 && IP_SIZE + |p.data| <= 0xffff
  {
    packet[..e] + Header(packet[e..e + IP_SIZE], flags, p) + p.data
  }

  /** What the receiver of a packet reads from it. */
  ghost function Received(f: Bytes, e: nat): Piece
    requires e + IP_SIZE <= |f|
  {
    Piece(Field(f, e + 6) % 0x2000, Field(f, e + 6) / 0x2000 % 2 == 1, f[e + IP_SIZE..])
  }

  /** Each fragment has a right checksum and length; the receiver reads the piece it was made of,
      except that only 13 bits of the offset arrive. */
  lemma FragmentReceived(packet: Bytes, e: nat, flags: nat, p: Piece)
    requires e + IP_SIZE <= |packet| && flags < 8 && p.offset < 0x4000 && IP_SIZE + |p.data| <= 0xffff
    ensures var f := FragmentOf(packet, e, flags, p);
            && |f| == e + IP_SIZE + |p.data| && f[..e] == packet[..e]
            && Correct(f[e..e + IP_SIZE]) && Field(f, e + 2) == IP_SIZE + |p.data|
            && Received(f, e) == Piece(p.offset % 0x2000, p.more || p.offset >= 0x2000 || flags % 2 == 1, p.data)
            && Field(f, e + 6) / 0x4000 == flags / 2
            && (forall k: nat | k < IP_SIZE && !OwnField(k) :: f[e + k] == packet[e + k])
  {
    hide Header, Correct, OffsetField, OwnField;
    var h := Header(packet[e..e + IP_SIZE], flags, p);
    FlagsCopied(p.offset, flags, p.more);
    forall k: nat | k < IP_SIZE && !OwnField(k) {
      HeaderCopied(packet[e..e + IP_SIZE], flags, p, k);
    }
    HeaderFields(packet[e..e + IP_SIZE], flags, p);
    var f := FragmentOf(packet, e, flags, p);
    assert f[e..e + IP_SIZE] == h && f[e + IP_SIZE..] == p.data && f[..e] == packet[..e];
    assert Field(f, e + 2) == Field(h, 2) && Field(f, e + 6) == Field(h, 6);
  }

  /** What a datagram in a packet says about itself. */
  ghost function Flags(packet: Bytes, e: nat): (r: nat)
    requires e + IP_SIZE <= |packet|
    ensures r < 8
  {
    FieldRange(packet, e + 6);
    Field(packet, e + 6) / 0x2000
  }

  /** As many units of eight bytes as fit. */
  function Units(mtu: nat, e: nat): (u: nat)
    requires e <= 18
    ensures u > 0
    ensures e + IP_SIZE + 8 * u <= (if mtu > 590 then mtu else 590) < e + IP_SIZE + 8 * u + 8
  {
    ((if mtu > 590 then mtu else 590) - e - IP_SIZE) / 8
  }

  /** The pieces the packet is sent in. */
  ghost function Pieces(packet: Bytes, e: nat, mtu: nat): seq<Piece>
    requires e + IP_SIZE <= |packet| && e <= 18
  {
    Cut(packet[e + IP_SIZE..], Field(packet, e + 6) % 0x2000, Flags(packet, e) % 2 == 1, Units(mtu, e))
  }

  /** All pieces have headers that can be written. */
  ghost predicate Sendable(c: seq<Piece>) {
    forall p <- c :: p.offset < 0x4000 && IP_SIZE + |p.data| <= 0xffff
  }

  lemma PiecesSendable(packet: Bytes, e: nat, mtu: nat)
    requires e + IP_SIZE <= |packet| && e <= 18 && |packet| <= e + 0xffff && mtu <= 0xffff
    ensures Sendable(Pieces(packet, e, mtu))
  {
    var payload, off, more, u := packet[e + IP_SIZE..], Field(packet, e + 6) % 0x2000, Flags(packet, e) % 2 == 1,
                                 Units(mtu, e);
    hide Flags, Cut;
    forall p <- Pieces(packet, e, mtu)
      ensures p.offset < 0x4000 && IP_SIZE + |p.data| <= 0xffff
    {
      CutIsPart(payload, off, more, u, p);
    }
  }

  /** The fragments sent are those of the pieces. */
  ghost predicate Sent(frags: seq<Bytes>, packet: Bytes, e: nat, c: seq<Piece>)
    requires e + IP_SIZE <= |packet| && Sendable(c)
  {
    |frags| == |c| && forall i | 0 <= i < |c| :: frags[i] == FragmentOf(packet, e, Flags(packet, e), c[i])
  }

  lemma SentMore(frags: seq<Bytes>, packet: Bytes, e: nat, c: seq<Piece>, p: Piece)
    requires e + IP_SIZE <= |packet| && Sendable(c) && Sendable(c + [p]) && Sent(frags, packet, e, c) && Sendable([p])
    ensures p in [p] && Sent(frags + [FragmentOf(packet, e, Flags(packet, e), p)], packet, e, c + [p])
  {
    hide FragmentOf;
  }

  /** The pieces still to be sent, when `done` have been. */
  ghost predicate Progress(c: seq<Piece>, done: seq<Piece>, rest: Bytes, off: nat, more: bool, u: nat) {
    u > 0 && c == done + Cut(rest, off, more, u)
  }

  lemma ProgressStep(c: seq<Piece>, done: seq<Piece>, rest: Bytes, off: nat, more: bool, u: nat)
    requires Progress(c, done, rest, off, more, u) && rest != [] && Sendable(c)
    ensures var n := if |rest| > 8 * u then 8 * u else |rest|;
            var p := Piece(off, n < |rest| || more, rest[..n]);
            && Progress(c, done + [p], rest[n..], off + n / 8, more, u) && Sendable(done + [p]) && Sendable([p])
               && Sendable(done)
  {
    var n := if |rest| > 8 * u then 8 * u else |rest|;
    var p := Piece(off, n < |rest| || more, rest[..n]);
    assert rest[..|rest|] == rest;
    assert c == done + [p] + Cut(rest[n..], off + n / 8, more, u);
    assert p == c[|done|];
    assert forall q <- done :: q in c;
  }

  /** fragment_ipv4_packet. */
  method FragmentIpv4(packet: Bytes, e: nat, mtu: nat) returns (frags: seq<Bytes>)
    requires e <= 18 && e + IP_SIZE <= |packet| <= e + 0xffff && mtu <= 0xffff
    ensures if packet[e] % 16 != 5 || e + Field(packet, e + 2) != |packet| then frags == []
            else Sendable(Pieces(packet, e, mtu)) && Sent(frags, packet, e, Pieces(packet, e, mtu))
                 && Readable(frags, e) && (Restores(frags, packet, e) <==> LastFits(packet, e, mtu))
                 && forall f <- frags :: Good(f, packet, e, mtu)
  {
    hide Restores, Readable, LastFits, Good, Cut, Sendable, Sent, Progress, FragmentOf, Summed, OffsetField, Sum16;
    frags := [];
    if packet[e] % 16 != 5 {
      return;
    }
    if e + Field(packet, e + 2) != |packet| {
      return;
    }
    PiecesSendable(packet, e, mtu);
    ghost var c, done := Pieces(packet, e, mtu), [];
    ghost var more := Flags(packet, e) % 2 == 1;
    var at, todo := e + IP_SIZE, |packet| - e - IP_SIZE;
    var u := Units(mtu, e);
    FieldRange(packet, e + 6);
    var off, flags := Field(packet, e + 6) % 0x2000, Field(packet, e + 6) / 0x2000;
    ProgressStart(packet, e, c, off, more, u);
    while todo > 0
      invariant 0 <= todo && 0 <= at && at + todo == |packet| && 0 <= off
      invariant Progress(c, done, packet[at..], off, more, u) && Sendable(done) && Sent(frags, packet, e, done)
    {
      var len := if todo > 8 * u then 8 * u else todo;
      ProgressStep(c, done, packet[at..], off, more, u);
      ghost var p := Piece(off, len < todo || more, packet[at..][..len]);
      SentMore(frags, packet, e, done, p);
      SendableOne(p);
      var data := packet[at..at + len];
      assert packet[at..][..len] == data && packet[at..][len..] == packet[at + len..];
      todo := todo - len;
      at := at + len;
      var h := Unsummed(packet[e..e + IP_SIZE], flags, off, len, todo > 0 || flags % 2 == 1);
      var sum := InetChecksum(h, 0xffff);
      SumRange(h);
      var fragment := packet[..e] + Summed(h, sum) + data;
      FragmentMade(packet, e, flags, p, h, sum, fragment);
      frags := frags + [fragment];
      done := done + [p];
      off := off + len / 8;
    }
    ProgressEnd(c, done, packet[at..], off, more, u);
    PacketReassembly(packet, e, mtu, frags, frags);
    AllGood(packet, e, mtu, frags);
  }

  lemma AllGood(packet: Bytes, e: nat, mtu: nat, frags: seq<Bytes>)
    requires e + IP_SIZE <= |packet| <= e + 0xffff && e <= 18 && mtu <= 0xffff
    requires Sendable(Pieces(packet, e, mtu)) && Sent(frags, packet, e, Pieces(packet, e, mtu))
    ensures forall f <- frags :: Good(f, packet, e, mtu)
  {
    hide Like, Correct, Field, FragmentOf, Pieces, Sendable;
    forall i | 0 <= i < |frags|
      ensures Good(frags[i], packet, e, mtu)
    {
      FragmentsReceived(packet, e, mtu, frags, i);
      assert Pieces(packet, e, mtu)[i] in Pieces(packet, e, mtu);
      FragmentFits(packet, e, mtu, Pieces(packet, e, mtu)[i]);
    }
  }

  lemma SendableOne(p: Piece)
    requires Sendable([p])
    ensures p.offset < 0x4000 && IP_SIZE + |p.data| <= 0xffff
  {
    assert p in [p];
  }

  lemma FragmentMade(packet: Bytes, e: nat, flags: nat, p: Piece, h: Bytes, sum: nat, fragment: Bytes)
    requires e + IP_SIZE <= |packet| && flags < 8 && p.offset < 0x4000 && IP_SIZE + |p.data| <= 0xffff
    requires h == Unsummed(packet[e..e + IP_SIZE], flags, p.offset, |p.data|, p.more) && sum == Sum16(h, 0xffff)
             && sum <= 0xffff
    requires fragment == packet[..e] + Summed(h, sum) + p.data
    ensures fragment == FragmentOf(packet, e, flags, p)
  {
  }

  lemma ProgressStart(packet: Bytes, e: nat, c: seq<Piece>, off: nat, more: bool, u: nat)
    requires e + IP_SIZE <= |packet| && e <= 18 && u > 0 && c == Cut(packet[e + IP_SIZE..], off, more, u)
    ensures Progress(c, [], packet[e + IP_SIZE..], off, more, u) && Sendable([]) && Sent([], packet, e, [])
  {
  }

  lemma ProgressEnd(c: seq<Piece>, done: seq<Piece>, rest: Bytes, off: nat, more: bool, u: nat)
    requires Progress(c, done, rest, off, more, u) && rest == []
    ensures c == done
  {
  }

  /** Every fragment fits the path MTU, or 590 bytes if that is more. */
  lemma FragmentFits(packet: Bytes, e: nat, mtu: nat, p: Piece)
    requires e + IP_SIZE <= |packet| <= e + 0xffff && e <= 18 && mtu <= 0xffff && p in Pieces(packet, e, mtu)
    ensures p.offset < 0x4000 && IP_SIZE + |p.data| <= 0xffff
    ensures |FragmentOf(packet, e, Flags(packet, e), p)| <= if mtu > 590 then mtu else 590
  {
    PiecesSendable(packet, e, mtu);
    CutIsPart(packet[e + IP_SIZE..], Field(packet, e + 6) % 0x2000, Flags(packet, e) % 2 == 1, Units(mtu, e), p);
  }

  /** The packet starts with the same link header and the same IP header, but for what belongs to a
      fragment; all flags but the one for more fragments are the same. */
  ghost predicate Like(f: Bytes, packet: Bytes, e: nat) {
    && e + IP_SIZE <= |f| && e + IP_SIZE <= |packet| && f[..e] == packet[..e]
    && (forall k: nat | k < IP_SIZE && !OwnField(k) :: f[e + k] == packet[e + k])
    && Field(f, e + 6) / 0x4000 == Field(packet, e + 6) / 0x4000
  }

  /** A fragment has the header of the packet, with its own length and a right checksum, and fits the
      path MTU, or 590 bytes if that is more. */
  ghost predicate Good(f: Bytes, packet: Bytes, e: nat, mtu: nat) {
    && Like(f, packet, e) && Correct(f[e..e + IP_SIZE]) && e + Field(f, e + 2) == |f|
    && |f| <= if mtu > 590 then mtu else 590
  }

  /** What is received for a piece. */
  ghost function Wrapped(p: Piece): Piece {
    Piece(p.offset % 0x2000, p.more || p.offset >= 0x2000, p.data)
  }

  ghost predicate WrappedAll(r: seq<Piece>, c: seq<Piece>) {
    |r| == |c| && forall i | 0 <= i < |c| :: r[i] == Wrapped(c[i])
  }

  /** What the receiver reads from the fragments of a packet. */
  lemma FragmentsReceived(packet: Bytes, e: nat, mtu: nat, frags: seq<Bytes>, i: nat)
    requires e + IP_SIZE <= |packet| <= e + 0xffff && e <= 18 && mtu <= 0xffff
    requires Sendable(Pieces(packet, e, mtu)) && Sent(frags, packet, e, Pieces(packet, e, mtu)) && i < |frags|
    ensures e + IP_SIZE <= |frags[i]| && Received(frags[i], e) == Wrapped(Pieces(packet, e, mtu)[i])
    ensures Correct(frags[i][e..e + IP_SIZE]) && e + Field(frags[i], e + 2) == |frags[i]|
    ensures Like(frags[i], packet, e)
  {
    var c := Pieces(packet, e, mtu);
    assert c[i] in c;
    MoreKept(packet[e + IP_SIZE..], Field(packet, e + 6) % 0x2000, Flags(packet, e) % 2 == 1, Units(mtu, e), c[i]);
    FragmentReceived(packet, e, Flags(packet, e), c[i]);
  }

  lemma {:induction false} MoreKept(payload: Bytes, off: nat, more: bool, u: nat, p: Piece)
    requires u > 0 && p in Cut(payload, off, more, u)
    ensures more ==> p.more
    decreases |payload|
  {
    if |payload| > 8 * u && p != Piece(off, true, payload[..8 * u]) {
      MoreKept(payload[8 * u..], off + u, more, u, p);
    }
  }

  /** The payload at x, offsets counted from the start of the datagram. */
  ghost function WholeAt(payload: Bytes, off: nat, x: nat): Option<byte> {
    if 8 * off <= x < 8 * off + |payload| then Some(payload[x - 8 * off]) else None
  }

  /** What is put together from the fragments, in any order and with repetitions, is the payload,
      provided that the offset of the last one fits its field. */
  lemma ReassemblyWorks(payload: Bytes, off: nat, more: bool, u: nat, r: seq<Piece>, q: seq<Piece>, x: nat)
    requires u > 0 && payload != [] && WrappedAll(r, Cut(payload, off, more, u))
    requires (forall p <- q :: p in r) && (forall p <- r :: p in q)
    requires LastOffset(|payload|, off, u) < 0x2000
    ensures Reassembled(q, x) == WholeAt(payload, off, x)
  {
    hide LastOffset, Cut, WellCut;
    var c := Cut(payload, off, more, u);
    CutEnds(payload, off, more, u);
    CutLast(payload, off, more, u);
    forall i | 0 <= i < |c|
      ensures r[i] == c[i]
    {
      OffsetsGrow(c, off, |payload|, more, u, i, |c| - 1);
    }
    assert r == c;
    ReassembleAny(q, c, payload, off, more, u, x);
  }

  /** The offset of the last of the pieces of `length` bytes. */
  function LastOffset(length: nat, off: nat, u: nat): int
    requires u > 0
  {
    off + (length - 1) / (8 * u) * u
  }

  lemma {:induction false} CutLast(payload: Bytes, off: nat, more: bool, u: nat)
    requires u > 0 && payload != []
    ensures var c := Cut(payload, off, more, u);
            c != [] && c[|c| - 1].offset == LastOffset(|payload|, off, u)
    decreases |payload|
  {
    if |payload| <= 8 * u {
      NoStep(|payload|, 8 * u);
    } else {
      CutLast(payload[8 * u..], off + u, more, u);
      OneStep(|payload| - 8 * u, 8 * u, u);
    }
  }

  lemma NoStep(length: nat, m: nat)
    requires 0 < length <= m
    ensures (length - 1) / m == 0
  {
  }

  lemma OneStep(length: nat, m: nat, u: nat)
    requires length > 0 && m > 0
    ensures (length + m - 1) / m * u == (length - 1) / m * u + u
  {
    DivStep(length - 1, m);
  }

  lemma DivStep(a: nat, m: nat)
    requires m > 0
    ensures (a + m) / m == a / m + 1
  {
    assert a + m == m * (a / m) + a % m + m == m * (a / m + 1) + a % m;
    Quotient(a + m, m, a / m + 1, a % m);
  }

  lemma Quotient(x: int, m: int, k: int, r: int)
    requires m > 0 && x == m * k + r && 0 <= r < m
    ensures x / m == k
  {
    var q := x / m;
    assert m * (q - k) == m * q - m * k == r - x % m;
    Small(m, q - k);
  }

  lemma Small(m: int, t: int)
    requires m > 0 && -m < m * t < m
    ensures t == 0
  {
    assert t >= 1 ==> m * t >= m;
    assert t <= -1 ==> m * t <= -m;
  }

  lemma {:induction false} OffsetsGrow(c: seq<Piece>, off: nat, length: nat, more: bool, u: nat, i: nat, j: nat)
    requires WellCut(c, off, length, more, u) && i <= j < |c| && u > 0
    ensures c[i].offset <= c[j].offset && (i < j ==> 8 * c[i].offset + |c[i].data| <= 8 * c[j].offset)
    decreases j - i
  {
    if i < j {
      OffsetsGrow(c, off, length, more, u, i, j - 1);
    }
  }

  /** If it does not fit, the first byte of the last fragment is missing. */
  lemma ReassemblyFails(payload: Bytes, off: nat, more: bool, u: nat, r: seq<Piece>, q: seq<Piece>, x: nat)
    requires u > 0 && payload != [] && WrappedAll(r, Cut(payload, off, more, u)) && forall p <- q :: p in r
    requires off < 0x2000 && |payload| < 0x10000 && x == 8 * LastOffset(|payload|, off, u) >= 0x10000
    ensures Reassembled(q, x) == None && WholeAt(payload, off, x).Some?
  {
    var c := Cut(payload, off, more, u);
    CutEnds(payload, off, more, u);
    CutLast(payload, off, more, u);
    CutIsPart(payload, off, more, u, c[|c| - 1]);
    hide Cut, Covers, PartOf, Wrapped, WellCut, Reassembled;
    PartAt(c[|c| - 1], payload, off);
    forall p <- q
      ensures !Covers(p, x)
    {
      var i :| 0 <= i < |r| && r[i] == p;
      NotCovered(c, payload, off, more, u, i);
    }
    CoveredMeans(q, x);
  }

  lemma PartAt(p: Piece, payload: Bytes, off: nat)
    requires PartOf(p, payload, off) && |p.data| > 0
    ensures WholeAt(payload, off, 8 * p.offset).Some?
  {
  }

  lemma NotCovered(c: seq<Piece>, payload: Bytes, off: nat, more: bool, u: nat, i: nat)
    requires u > 0 && payload != [] && c == Cut(payload, off, more, u) && WellCut(c, off, |payload|, more, u) && i < |c|
    requires off < 0x2000 && |payload| < 0x10000 && c[|c| - 1].offset >= 0x2000
    ensures !Covers(Wrapped(c[i]), 8 * c[|c| - 1].offset)
  {
    hide Cut, WellCut, PartOf;
    CutIsPart(payload, off, more, u, c[i]);
    PartBounds(c[i], payload, off);
    OffsetsGrow(c, off, |payload|, more, u, i, |c| - 1);
    WrappedElsewhere(c[i], off, |payload|, c[|c| - 1].offset, i == |c| - 1);
  }

  lemma PartBounds(p: Piece, payload: Bytes, off: nat)
    requires PartOf(p, payload, off)
    ensures off <= p.offset && 8 * p.offset + |p.data| <= 8 * off + |payload|
  {
  }

  lemma WrappedElsewhere(p: Piece, off: nat, length: nat, last: nat, same: bool)
    requires off < 0x2000 && length < 0x10000 && last >= 0x2000 && |p.data| > 0 && p.offset <= last
    requires off <= p.offset && 8 * p.offset + |p.data| <= 8 * off + length
    requires if same then p.offset == last else 8 * p.offset + |p.data| <= 8 * last
    ensures !Covers(Wrapped(p), 8 * last)
  {
  }

  /** The pieces, put together again in any order and with repetitions, give the payload exactly if
      the offset of the last one fits in 13 bits. */
  lemma ReassemblyExactly(payload: Bytes, off: nat, more: bool, u: nat, r: seq<Piece>, q: seq<Piece>)
    requires u > 0 && WrappedAll(r, Cut(payload, off, more, u)) && off < 0x2000 && |payload| < 0x10000
    requires (forall p <- q :: p in r) && (forall p <- r :: p in q)
    ensures (forall x: nat :: Reassembled(q, x) == WholeAt(payload, off, x)) <==> LastOffset(|payload|, off, u) < 0x2000
  {
    if payload == [] {
      EmptyOrNot(q);
    } else if LastOffset(|payload|, off, u) < 0x2000 {
      forall x: nat {
        ReassemblyWorks(payload, off, more, u, r, q, x);
      }
    } else {
      var x := 8 * LastOffset(|payload|, off, u);
      ReassemblyFails(payload, off, more, u, r, q, x);
      assert Reassembled(q, x) != WholeAt(payload, off, x);
    }
  }

  lemma EmptyOrNot(q: seq<Piece>)
    ensures q == [] || exists p: Piece :: p in q
  {
    if q != [] {
      assert q[0] in q;
    }
  }

  /** Whole packets that can be received. */
  ghost predicate Readable(frags: seq<Bytes>, e: nat) {
    forall f <- frags :: e + IP_SIZE <= |f|
  }

  ghost function ReceivedAll(frags: seq<Bytes>, e: nat): seq<Piece>
    requires Readable(frags, e)
  {
    seq(|frags|, i requires 0 <= i < |frags| => Received(frags[i], e))
  }

  /** The payload of the packet is what the received packets give. */
  ghost predicate Restores(frags: seq<Bytes>, packet: Bytes, e: nat)
    requires e + IP_SIZE <= |packet| && Readable(frags, e)
  {
    forall x: nat ::
        Reassembled(ReceivedAll(frags, e), x) == WholeAt(packet[e + IP_SIZE..], Field(packet, e + 6) % 0x2000, x)
  }

  /** The offset of the last fragment, from the length and the offset field of the packet and the
      MTU, fits its field. */
  predicate LastFits(packet: Bytes, e: nat, mtu: nat)
    requires e + IP_SIZE <= |packet| && e <= 18
  {
    var u := Units(mtu, e);
    Field(packet, e + 6) % 0x2000 + (|packet| - e - IP_SIZE - 1) / (8 * u) * u < 0x2000
  }

  /** The fragments of a packet, received in any order and with repetitions, give its payload
      exactly if the offset of the last one fits. */
  lemma PacketReassembly(packet: Bytes, e: nat, mtu: nat, frags: seq<Bytes>, got: seq<Bytes>)
    requires e <= 18 && e + IP_SIZE <= |packet| <= e + 0xffff && mtu <= 0xffff
    requires Sendable(Pieces(packet, e, mtu)) && Sent(frags, packet, e, Pieces(packet, e, mtu))
    requires (forall f <- got :: f in frags) && (forall f <- frags :: f in got)
    ensures Readable(frags, e) && Readable(got, e) && (Restores(got, packet, e) <==> LastFits(packet, e, mtu))
  {
    var payload, off, more, u := packet[e + IP_SIZE..], Field(packet, e + 6) % 0x2000, Flags(packet, e) % 2 == 1,
                                 Units(mtu, e);
    var c := Pieces(packet, e, mtu);
    AllReceived(packet, e, mtu, frags);
    var r, q := ReceivedAll(frags, e), ReceivedAll(got, e);
    SameReceived(got, frags, e);
    SameReceived(frags, got, e);
    hide Reassembled, WholeAt, Cut, Wrapped, Received, ReceivedAll, Pieces, Sent, Sendable;
    assert WrappedAll(r, Cut(payload, off, more, u)) by {
      PiecesAre(packet, e, mtu);
    }
    ReassemblyExactly(payload, off, more, u, r, q);
  }

  lemma PiecesAre(packet: Bytes, e: nat, mtu: nat)
    requires e + IP_SIZE <= |packet| && e <= 18
    ensures Pieces(packet, e, mtu) ==
            Cut(packet[e + IP_SIZE..], Field(packet, e + 6) % 0x2000, Flags(packet, e) % 2 == 1, Units(mtu, e))
  {
  }

  lemma AllReceived(packet: Bytes, e: nat, mtu: nat, frags: seq<Bytes>)
    requires e <= 18 && e + IP_SIZE <= |packet| <= e + 0xffff && mtu <= 0xffff
    requires Sendable(Pieces(packet, e, mtu)) && Sent(frags, packet, e, Pieces(packet, e, mtu))
    ensures Readable(frags, e) && WrappedAll(ReceivedAll(frags, e), Pieces(packet, e, mtu))
  {
    forall i | 0 <= i < |frags|
      ensures e + IP_SIZE <= |frags[i]| && Received(frags[i], e) == Wrapped(Pieces(packet, e, mtu)[i])
    {
      FragmentsReceived(packet, e, mtu, frags, i);
    }
  }

  lemma SameReceived(a: seq<Bytes>, b: seq<Bytes>, e: nat)
    requires Readable(b, e) && forall f <- a :: f in b
    ensures Readable(a, e) && forall p <- ReceivedAll(a, e) :: p in ReceivedAll(b, e)
  {
    forall p <- ReceivedAll(a, e)
      ensures p in ReceivedAll(b, e)
    {
      var i :| 0 <= i < |a| && p == Received(a[i], e);
      assert a[i] in a && a[i] in b;
      var j :| 0 <= j < |b| && b[j] == a[i];
      assert ReceivedAll(b, e)[j] == p;
    }
  }

  /** It fits if the payload ends within the 65536 bytes that offsets can reach. */
  lemma WithinReach(packet: Bytes, e: nat, mtu: nat)
    requires e <= 18 && e + IP_SIZE < |packet|
             && 8 * (Field(packet, e + 6) % 0x2000) + |packet| - e - IP_SIZE <= 0x10000
    ensures LastFits(packet, e, mtu)
  {
    var u, n := Units(mtu, e), |packet| - e - IP_SIZE - 1;
    Floor(n, 8 * u);
    assert 8 * (n / (8 * u) * u) == 8 * u * (n / (8 * u));
  }

  lemma Floor(n: nat, m: nat)
    requires m > 0
    ensures m * (n / m) <= n
  {
  }

  /** A fragment at the highest offset, with 600 bytes of payload: too much for one packet if the
      path MTU is below 634, and the offset of the next one does not fit. */
  lemma BeyondReach(packet: Bytes, mtu: nat)
    requires |packet| == 634 && mtu < 634 && packet[14] == 0x45 && Field(packet, 16) == 620
             && Field(packet, 20) == 0x1fff
    ensures packet[14] % 16 == 5 && 14 + Field(packet, 16) == |packet| && !LastFits(packet, 14, mtu)
  {
    var u := Units(mtu, 14);
    assert 69 <= u <= 74;
    assert 599 / (8 * u) == 1;
  }
}
