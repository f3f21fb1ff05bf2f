/** Two honest SPTPS peers over two FIFO channels, in any interleaving of application sends,
    forced rekeyings and deliveries. */
module SptpsAgreement {
  import opened Common
  import opened SptpsSpec
  import opened SptpsPeer

  /** One direction: the bytes under way, the records they stand for, and the application
      records handed in at one end and handed up at the other. */
  datatype Channel = Channel(wire: seq<Bytes>, plain: seq<Record>, sent: seq<Record>, got: seq<Record>)

  datatype End = End(c: Config, p: Peer)

  datatype System = System(a: End, b: End, ab: Channel, ba: Channel)

  /** What can happen at an end: the application sends, a rekeying is forced, or the record at
      the head of the incoming channel arrives. */
  datatype Action = Send(r: Record) | Force | Deliver

  function Swap(s: System): System {
    System(s.b, s.a, s.ba, s.ab)
  }

  function One(r: Record): nat {
    if r.kind == SPTPS_HANDSHAKE then 1 else 0
  }

  /** The handshake records among `plain`. */
  function Handshakes(plain: seq<Record>): nat {
    if plain == [] then 0 else One(plain[0]) + Handshakes(plain[1..])
  }

  /** The application records among `rs`. */
  function Apps(rs: seq<Record>): seq<Record> {
    if rs == [] then []
    else (if rs[0].kind < SPTPS_HANDSHAKE then [rs[0]] else []) + Apps(rs[1..])
  }

  /** Handshake records, as handed to the channel by a peer. */
  function HandshakesFrom(c: Config, o: Config, h: nat, k: nat): (rs: seq<Record>)
    ensures |rs| == k
  {
    if k == 0 then [] else HandshakesFrom(c, o, h, k - 1) + [Record(SPTPS_HANDSHAKE, HandshakeData(c, o, h + k - 1))]
  }

  /** Put the bytes of a step on the channel. */
  function Transmit(ch: Channel, wire: seq<Bytes>, plain: seq<Record>): Channel {
    ch.(wire := ch.wire + wire, plain := ch.plain + plain)
  }

  /** End `a` acts.  A refused request changes nothing; None is a rejected record. */
  function Act(s: System, act: Action): Option<System> {
    var (c, o, p) := (s.a.c, s.b.c, s.a.p);
    match act
    case Send(r) =>
      var t := SendRecord(c, p, r);
      if t.Error? then Some(s)
      else Some(s.(a := End(c, t.peer), ab := Transmit(s.ab, t.sent, [r]).(sent := s.ab.sent + [r])))
    case Force =>
      var t := ForceKex(c, p);
      if t.Error? then Some(s)
      else Some(s.(a := End(c, t.peer), ab := Transmit(s.ab, t.sent, HandshakesFrom(c, o, Sent(c, p), |t.sent|))))
    case Deliver =>
      if s.ba.wire == [] then Some(s)
      else if |s.ba.wire[0]| < 2 || s.ba.plain == [] then None
      else
        var t := Receive(c, p, s.ba.wire[0][2..]);
        if t.Error? then None
        else Some(System(End(c, t.peer), s.b,
                         Transmit(s.ab, t.sent, HandshakesFrom(c, o, Sent(c, p), |t.sent|)),
                         Channel(s.ba.wire[1..], s.ba.plain[1..], s.ba.sent, s.ba.got + Apps(t.up))))
  }

  /** A run: each entry says which end acts, and how. */
  function Run(s: System, acts: seq<(bool, Action)>): Option<System> {
    if acts == [] then Some(s)
    else
      match Run(s, acts[..|acts| - 1])
      case None => None
      case Some(t) =>
        var (atA, act) := acts[|acts| - 1];
        if atA then Act(t, act)
        else
          match Act(Swap(t), act)
          case None => None
          case Some(u) => Some(Swap(u))
  }

  /** A record may travel after h handshake records of its sender. */
  ghost predicate RecordOk(c: Config, o: Config, h: nat, r: Record) {
    && Fits(r) && r.kind <= SPTPS_HANDSHAKE
    && (r.kind == SPTPS_HANDSHAKE ==> r.data == HandshakeData(c, o, h))
    && (r.kind < SPTPS_HANDSHAKE ==> h >= 2)
  }

  /** The channel carries the records in order, each under the key of its position and with
      its own sequence number. */
  ghost predicate Carries(c: Config, o: Config, h: nat, seqno: nat, wire: seq<Bytes>, plain: seq<Record>)
    decreases plain
  {
    if plain == [] then wire == []
    else
      && wire != [] && RecordOk(c, o, h, plain[0])
      && wire[0] == WireAt(c, o, h, seqno, plain[0])
      && Carries(c, o, h + One(plain[0]), Plus(seqno, 1), wire[1..], plain[1..])
  }

  /** One direction is in order: what was sent and not yet received is what the channel carries. */
  ghost predicate Flows(s: End, r: End, ch: Channel) {
    && Sent(s.c, s.p) == Recv(r.p) + Handshakes(ch.plain)
    && s.p.outseqno == Plus(r.p.inseqno, |ch.plain|)
    && Carries(s.c, r.c, Recv(r.p), r.p.inseqno, ch.wire, ch.plain)
    && ch.sent == ch.got + Apps(ch.plain)
  }

  ghost predicate Inv(s: System) {
    && Paired(s.a.c, s.b.c)
    && PeerOk(s.a.c, s.b.c, s.a.p) && PeerOk(s.b.c, s.a.c, s.b.p)
    && Flows(s.a, s.b, s.ab) && Flows(s.b, s.a, s.ba)
  }

  lemma {:induction false} HandshakesAppend(plain: seq<Record>, r: Record)
    ensures Handshakes(plain + [r]) == Handshakes(plain) + One(r)
    ensures Apps(plain + [r]) == Apps(plain) + if r.kind < SPTPS_HANDSHAKE then [r] else []
  {
    if plain == [] {
      assert plain + [r] == [r];
    } else {
      assert (plain + [r])[1..] == plain[1..] + [r];
      HandshakesAppend(plain[1..], r);
    }
  }

  /** One more record at the end of the channel. */
  lemma {:induction false} CarriesAppend(c: Config, o: Config, h: nat, seqno: nat, wire: seq<Bytes>,
                                         plain: seq<Record>, w: Bytes, r: Record)
    requires Carries(c, o, h, seqno, wire, plain) && seqno < 0x1_0000_0000
    requires RecordOk(c, o, h + Handshakes(plain), r)
    requires w == WireAt(c, o, h + Handshakes(plain), Plus(seqno, |plain|), r)
    ensures Carries(c, o, h, seqno, wire + [w], plain + [r])
    decreases plain
  {
    hide RecordOk, WireAt;
    if plain == [] {
      assert wire + [w] == [w] && plain + [r] == [r];
      assert Carries(c, o, h + One(r), Plus(seqno, 1), [], []);
    } else {
      assert (plain + [r])[1..] == plain[1..] + [r] && (wire + [w])[1..] == wire[1..] + [w];
      PlusPlus(seqno, 1, |plain| - 1);
      CarriesAppend(c, o, h + One(plain[0]), Plus(seqno, 1), wire[1..], plain[1..], w, r);
    }
  }

  /** Handshake records at the end of the channel. */
  lemma {:induction false} CarriesHandshakes(c: Config, o: Config, h: nat, seqno: nat, wire: seq<Bytes>,
                                             plain: seq<Record>, sent: seq<Bytes>)
    requires Carries(c, o, h, seqno, wire, plain) && seqno < 0x1_0000_0000
    requires EmitsFrom(c, o, h + Handshakes(plain), Plus(seqno, |plain|), sent)
    ensures var plain' := plain + HandshakesFrom(c, o, h + Handshakes(plain), |sent|);
            && Carries(c, o, h, seqno, wire + sent, plain')
            && Handshakes(plain') == Handshakes(plain) + |sent|
            && Apps(plain') == Apps(plain)
    decreases |sent|
  {
    hide HandshakeData, WireAt, Carries;
    var g := h + Handshakes(plain);
    if sent == [] {
      assert wire + sent == wire && plain + HandshakesFrom(c, o, g, 0) == plain;
    } else {
      var k := |sent| - 1;
      var init, w, r := sent[..k], sent[k], Record(SPTPS_HANDSHAKE, HandshakeData(c, o, g + k));
      assert EmitsFrom(c, o, g, Plus(seqno, |plain|), init);
      CarriesHandshakes(c, o, h, seqno, wire, plain, init);
      var plain1 := plain + HandshakesFrom(c, o, g, k);
      PlusPlus(seqno, |plain|, k);
      CarriesAppend(c, o, h, seqno, wire + init, plain1, w, r);
      HandshakesAppend(plain1, r);
      assert wire + init + [w] == wire + sent;
      assert plain1 + [r] == plain + HandshakesFrom(c, o, g, k + 1);
    }
  }

  /** Keys are in use for receiving from the third handshake record on, under the key of the
      last finished exchange. */
  lemma ReceivingKey(c: Config, o: Config, p: Peer)
    requires Paired(c, o) && PeerOk(c, o, p)
    ensures p.instate <==> Recv(p) >= 2
    ensures p.instate ==> p.inkey == OutKeyN(o, c, (Recv(p) - 2) / 3)
  {
    hide SecretsOk, KeyN, InKeyN, OutKeyN;
    if p.instate {
      var n := if p.state == SecondaryKex then p.drawn - 1 else p.drawn - 2;
      KeysAgree(c, o, n);
      assert (Recv(p) - 2) / 3 == n;
    }
  }

  /** The record at the head of a channel is decrypted with the key and the sequence number it
      was encrypted with, and so comes out as it went in. */
  lemma HeadDecodes(s: End, r: End, ch: Channel)
    requires Paired(r.c, s.c) && PeerOk(r.c, s.c, r.p) && Flows(s, r, ch) && ch.wire != []
    ensures ch.plain != [] && RecordOk(s.c, r.c, Recv(r.p), ch.plain[0])
    ensures ch.wire[0] == Wire(r.c.crypto, r.p.instate, r.p.inkey, r.p.inseqno, ch.plain[0])
    ensures |ch.wire[0]| >= 2 && Decode(r.c, r.p, ch.wire[0][2..]) == Some(ch.plain[0])
  {
    hide SecretsOk, CiphersOk, KeyN, InKeyN, OutKeyN, HandshakeData;
    ReceivingKey(r.c, s.c, r.p);
    var x, w := ch.plain[0], ch.wire[0];
    assert w == WireAt(s.c, r.c, Recv(r.p), r.p.inseqno, x);
    assert w[2..] == if r.p.instate then r.c.crypto.seal(r.p.inkey, r.p.inseqno, x) else [x.kind] + x.data;
  }

  lemma {:induction false} AppsNone(rs: seq<Record>)
    requires forall r <- rs :: r.kind == SPTPS_HANDSHAKE
    ensures Apps(rs) == []
  {
    if rs != [] {
      AppsNone(rs[1..]);
    }
  }

  /** Taking the head off a channel. */
  lemma FlowsHead(s: End, r: End, r': End, ch: Channel, got: seq<Record>)
    requires Flows(s, r, ch) && ch.plain != [] && r'.c == r.c
    requires Recv(r'.p) == Recv(r.p) + One(ch.plain[0]) && r'.p.inseqno == Plus(r.p.inseqno, 1)
    requires got == if ch.plain[0].kind < SPTPS_HANDSHAKE then [ch.plain[0]] else []
    ensures Flows(s, r', Channel(ch.wire[1..], ch.plain[1..], ch.sent, ch.got + got))
  {
    hide Sent, Recv, RecordOk, WireAt;
    PlusPlus(r.p.inseqno, 1, |ch.plain| - 1);
    assert ch.got + got + Apps(ch.plain[1..]) == ch.got + (got + Apps(ch.plain[1..]));
  }

  /** Handshake records on their way. */
  lemma FlowsEmitted(s: End, s': End, r: End, ch: Channel, sent: seq<Bytes>)
    requires Flows(s, r, ch) && s'.c == s.c && PeerOk(r.c, s.c, r.p)
    requires Emitted(s.c, r.c, s.p, s'.p, sent)
    ensures Flows(s', r, Transmit(ch, sent, HandshakesFrom(s.c, r.c, Sent(s.c, s.p), |sent|)))
  {
    hide Sent, Recv, EmitsFrom, Carries, Handshakes, Apps, HandshakesFrom, SecretsOk, CiphersOk;
    CarriesHandshakes(s.c, r.c, Recv(r.p), r.p.inseqno, ch.wire, ch.plain, sent);
    PlusPlus(r.p.inseqno, |ch.plain|, |sent|);
  }

  lemma DeliverKeepsInv(s: System)
    requires Inv(s)
    ensures Act(s, Deliver).Some? && Inv(Act(s, Deliver).value)
  {
    hide Carries, CiphersOk, SecretsOk, Paired, Recv, Sent, HandshakeData, WireAt, Wire, ReceiveHandshake, EmitsFrom;
    if s.ba.wire != [] {
      HeadDecodes(s.b, s.a, s.ba);
      var c, o, x := s.a.c, s.b.c, s.ba.plain[0];
      var p := s.a.p.(inseqno := Increment(s.a.p.inseqno));
      NextSeqno(c, o, s.a.p);
      var t := Receive(c, s.a.p, s.ba.wire[0][2..]);
      if x.kind < SPTPS_HANDSHAKE {
        ReceivingKey(c, o, s.a.p);
        assert t == Next(p, [], [x]);
        EmittedNothing(c, o, p);
        assert [x] == [] + [x];
        HandshakesAppend([], x);
      } else {
        HandshakeAccepted(c, o, p);
        AppsNone(t.up);
      }
      FlowsHead(s.b, s.a, End(c, t.peer), s.ba, Apps(t.up));
      FlowsEmitted(End(c, p), End(c, t.peer), s.b, s.ab, t.sent);
    }
  }

  lemma EmittedNothing(c: Config, o: Config, p: Peer)
    requires p.outseqno < 0x1_0000_0000
    ensures Emitted(c, o, p, p, [])
  {
  }

  /** Counting a record changes nothing else about a peer. */
  lemma NextSeqno(c: Config, o: Config, p: Peer)
    requires PeerOk(c, o, p)
    ensures var p' := p.(inseqno := Increment(p.inseqno));
            PeerOk(c, o, p') && Recv(p') == Recv(p) && Sent(c, p') == Sent(c, p) && p'.inseqno == Plus(p.inseqno, 1)
  {
  }

  lemma ForceKeepsInv(s: System)
    requires Inv(s)
    ensures Act(s, Force).Some? && Inv(Act(s, Force).value)
  {
    hide Carries, CiphersOk, SecretsOk, Paired, HandshakeData, WireAt, EmitsFrom;
    var c, o := s.a.c, s.b.c;
    if s.a.p.outstate && s.a.p.state == SecondaryKex {
      ForceKexEmits(c, o, s.a.p);
      var t := ForceKex(c, s.a.p);
      FlowsEmitted(s.a, End(c, t.peer), s.b, s.ab, t.sent);
      assert t.peer.inseqno == s.a.p.inseqno;
    }
  }

  /** An application record leaves under the key of its position. */
  lemma SendStep(c: Config, o: Config, p: Peer, r: Record)
    requires PeerOk(c, o, p) && SendRecord(c, p, r).Next?
    ensures var t := SendRecord(c, p, r);
            && t.peer == p.(outseqno := Plus(p.outseqno, 1)) && PeerOk(c, o, t.peer)
            && r.kind < SPTPS_HANDSHAKE && Fits(r) && RecordOk(c, o, Sent(c, p), r)
            && Sent(c, t.peer) == Sent(c, p) && Recv(t.peer) == Recv(p)
            && t.sent == [WireAt(c, o, Sent(c, p), p.outseqno, r)]
  {
    hide HandshakeData, WireAt, Wire, KexN, KeyN, OutKeyN, InKeyN;
    WireMatches(c, o, p, r, p.outseqno);
  }

  /** One more application record under way. */
  lemma FlowsSend(s: End, s': End, r: End, ch: Channel, x: Record)
    requires Flows(s, r, ch) && s'.c == s.c && PeerOk(r.c, s.c, r.p)
    requires Sent(s'.c, s'.p) == Sent(s.c, s.p) && s'.p.outseqno == Plus(s.p.outseqno, 1)
    requires Fits(x) && RecordOk(s.c, r.c, Sent(s.c, s.p), x) && x.kind < SPTPS_HANDSHAKE
    ensures Flows(s', r, Transmit(ch, [WireAt(s.c, r.c, Sent(s.c, s.p), s.p.outseqno, x)], [x]).(sent := ch.sent + [x]))
  {
    hide Sent, Recv, Carries, RecordOk, WireAt, Handshakes, Apps, SecretsOk, CiphersOk;
    CarriesAppend(s.c, r.c, Recv(r.p), r.p.inseqno, ch.wire, ch.plain,
                  WireAt(s.c, r.c, Sent(s.c, s.p), s.p.outseqno, x), x);
    HandshakesAppend(ch.plain, x);
    PlusPlus(r.p.inseqno, |ch.plain|, 1);
  }

  /** A direction is not affected by what its receiver sends. */
  lemma FlowsSame(s: End, r: End, r': End, ch: Channel)
    requires Flows(s, r, ch) && r'.c == r.c && Recv(r'.p) == Recv(r.p) && r'.p.inseqno == r.p.inseqno
    ensures Flows(s, r', ch)
  {
    hide Sent, Recv, Carries;
  }

  lemma SendKeepsInv(s: System, r: Record)
    requires Inv(s)
    ensures Act(s, Send(r)).Some? && Inv(Act(s, Send(r)).value)
  {
    hide Flows, PeerOk, Paired, RecordOk, HandshakeData, WireAt, SendRecordPriv;
    var c, o, p := s.a.c, s.b.c, s.a.p;
    var t := SendRecord(c, p, r);
    if t.Next? {
      SendStep(c, o, p, r);
      FlowsSend(s.a, End(c, t.peer), s.b, s.ab, r);
      FlowsSame(s.b, s.a, End(c, t.peer), s.ba);
    }
  }

  /** Both ends right after sptps_start: each first KEX record is under way. */
  function Initial(a: Config, b: Config): System {
    var ta, tb := Start(a), Start(b);
    if ta.Error? || tb.Error? then System(End(a, Fresh()), End(b, Fresh()), Channel([], [], [], []),
                                          Channel([], [], [], []))
    else
      System(End(a, ta.peer), End(b, tb.peer),
             Channel(ta.sent, [Record(SPTPS_HANDSHAKE, HandshakeData(a, b, 0))], [], []),
             Channel(tb.sent, [Record(SPTPS_HANDSHAKE, HandshakeData(b, a, 0))], [], []))
  }

  lemma StartOk(c: Config, o: Config)
    requires Paired(c, o)
    ensures var t := Start(c);
            && t.Next? && PeerOk(c, o, t.peer)
            && t.peer.drawn == 1 && t.peer.state == Kex && t.peer.inseqno == 0 && t.peer.outseqno == 1
            && |HandshakeData(c, o, 0)| < 0x1_0000
            && t.sent == [WireAt(c, o, 0, 0, Record(SPTPS_HANDSHAKE, HandshakeData(c, o, 0)))]
  {
    hide KeyN, OutKeyN, InKeyN;
    KexShape(c, o, 0);
    Positions(c, o, 0);
  }

  lemma InitialFlows(s: End, r: End, ch: Channel)
    requires s.p.drawn == r.p.drawn == 1 && s.p.state == r.p.state == Kex && r.p.inseqno == 0 && s.p.outseqno == 1
    requires |HandshakeData(s.c, r.c, 0)| < 0x1_0000
    requires var x := Record(SPTPS_HANDSHAKE, HandshakeData(s.c, r.c, 0));
             ch == Channel([WireAt(s.c, r.c, 0, 0, x)], [x], [], [])
    ensures Flows(s, r, ch)
  {
    hide HandshakeData, WireAt;
    var x := ch.plain[0];
    assert ch.plain[1..] == [] && ch.wire[1..] == [];
    assert Handshakes([x]) == 1 && Apps([x]) == [];
    assert Carries(s.c, r.c, 1, 1, [], []);
  }

  lemma InitialInv(a: Config, b: Config)
    requires Paired(a, b)
    ensures Inv(Initial(a, b))
  {
    hide HandshakeData, WireAt, Start, Flows, PeerOk;
    assert Paired(b, a);
    StartOk(a, b);
    StartOk(b, a);
    var s := Initial(a, b);
    InitialFlows(s.a, s.b, s.ab);
    InitialFlows(s.b, s.a, s.ba);
  }

  lemma SwapInv(s: System)
    requires Inv(s)
    ensures Inv(Swap(s))
  {
    hide Flows, PeerOk;
  }

  lemma ActKeepsInv(s: System, act: Action)
    requires Inv(s)
    ensures Act(s, act).Some? && Inv(Act(s, act).value)
  {
    hide Inv, Act;
    match act
    case Send(r) => SendKeepsInv(s, r);
    case Force => ForceKeepsInv(s);
    case Deliver => DeliverKeepsInv(s);
  }

  /** In every interleaving of sends, forced rekeyings at either or both ends, and deliveries,
      no record is ever rejected, and each direction hands up a prefix of what was handed in. */
  lemma {:induction false} Agreement(a: Config, b: Config, acts: seq<(bool, Action)>)
    requires Paired(a, b)
    ensures var r := Run(Initial(a, b), acts);
            r.Some? && Inv(r.value) && r.value.ab.got <= r.value.ab.sent && r.value.ba.got <= r.value.ba.sent
    decreases |acts|
  {
    hide Act, Initial, PeerOk, Paired, Carries;
    if acts == [] {
      InitialInv(a, b);
    } else {
      Agreement(a, b, acts[..|acts| - 1]);
      var t := Run(Initial(a, b), acts[..|acts| - 1]).value;
      var (atA, act) := acts[|acts| - 1];
      if atA {
        ActKeepsInv(t, act);
      } else {
        SwapInv(t);
        ActKeepsInv(Swap(t), act);
        SwapInv(Act(Swap(t), act).value);
      }
    }
  }

  /** Once everything sent has arrived no handshake is left half-way: both ends have finished
      the same number of exchanges, hold the same keys, and all data has been handed up. */
  lemma QuietMeansFinished(s: System)
    requires Inv(s) && s.ab.wire == [] && s.ba.wire == []
    ensures s.a.p.state == SecondaryKex && s.b.p.state == SecondaryKex && s.a.p.drawn == s.b.p.drawn
    ensures s.a.p.outstate && s.b.p.outstate && s.a.p.instate && s.b.p.instate
    ensures s.a.p.outkey == s.b.p.inkey && s.b.p.outkey == s.a.p.inkey
    ensures s.a.p.outseqno == s.b.p.inseqno && s.b.p.outseqno == s.a.p.inseqno
    ensures s.ab.got == s.ab.sent && s.ba.got == s.ba.sent
  {
    hide KeyN, OutKeyN, InKeyN, HandshakeData, WireAt;
    assert s.ab.plain == [] && s.ba.plain == [];
    assert s.a.c.initiator != s.b.c.initiator;
    assert Sent(s.a.c, s.a.p) == Recv(s.b.p) && Sent(s.b.c, s.b.p) == Recv(s.a.p);
    KeysAgree(s.a.c, s.b.c, s.a.p.drawn - 1);
    KeysAgree(s.b.c, s.a.c, s.a.p.drawn - 1);
  }
}
