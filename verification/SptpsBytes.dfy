/** Two honest SPTPS peers over two byte streams, cut into pieces in any way. */
module SptpsBytes {
  import opened Common
  import opened SptpsSpec
  import opened SptpsPeer
  import opened SptpsAgreement
  import opened SptpsStream

  /** One direction: the bytes under way, and the application records at both ends. */
  datatype Pipe = Pipe(bytes: Bytes, sent: seq<Record>, got: seq<Record>)

  datatype Side = Side(c: Config, s: Stream)

  datatype Line = Line(a: Side, b: Side, ab: Pipe, ba: Pipe)

  /** The application sends, a rekeying is forced, or the next `n` bytes arrive in one piece. */
  datatype Event = Write(r: Record) | Rekey | Arrive(n: nat)

  function Turn(l: Line): Line {
    Line(l.b, l.a, l.ba, l.ab)
  }

  function Concat(wire: seq<Bytes>): Bytes {
    if wire == [] then [] else wire[0] + Concat(wire[1..])
  }

  function Enter(p: Pipe, sent: seq<Bytes>): Pipe {
    p.(bytes := p.bytes + Concat(sent))
  }

  /** Side `a` acts; None is a rejected record. */
  function Happen(l: Line, e: Event): Option<Line> {
    var (c, s) := (l.a.c, l.a.s);
    match e
    case Write(r) =>
      var t := SendRecord(c, s.p, r);
      if t.Error? then Some(l)
      else Some(l.(a := Side(c, s.(p := t.peer)), ab := Enter(l.ab, t.sent).(sent := l.ab.sent + [r])))
    case Rekey =>
      var t := ForceKex(c, s.p);
      if t.Error? then Some(l)
      else Some(l.(a := Side(c, s.(p := t.peer)), ab := Enter(l.ab, t.sent)))
    case Arrive(n) =>
      var k := if n <= |l.ba.bytes| then n else |l.ba.bytes|;
      match Feed(c, s, l.ba.bytes[..k])
      case Broken => None
      case Fed(t, sent, up) =>
        Some(l.(a := Side(c, t), ab := Enter(l.ab, sent), ba := Pipe(l.ba.bytes[k..], l.ba.sent, l.ba.got + Apps(up))))
  }

  function History(l: Line, es: seq<(bool, Event)>): Option<Line> {
    if es == [] then Some(l)
    else
      match History(l, es[..|es| - 1])
      case None => None
      case Some(m) =>
        var (atA, e) := es[|es| - 1];
        if atA then Happen(m, e)
        else
          match Happen(Turn(m), e)
          case None => None
          case Some(n) => Some(Turn(n))
  }

  /** The bytes collected and under way are those of the records under way, and less than a
      whole record has been collected. */
  ghost predicate Half(inbuf: Bytes, pipe: Pipe, ch: Channel) {
    && inbuf + pipe.bytes == Concat(ch.wire)
    && (if ch.wire == [] then inbuf == [] else |inbuf| < |ch.wire[0]|)
    && pipe.sent == ch.sent && pipe.got == ch.got
  }

  ghost predicate Carried(l: Line, s: System) {
    && l.a.c == s.a.c && l.b.c == s.b.c && l.a.s.p == s.a.p && l.b.s.p == s.b.p
    && Half(l.a.s.inbuf, l.ba, s.ba) && Half(l.b.s.inbuf, l.ab, s.ab)
  }

  lemma {:induction false} ConcatConcat(x: seq<Bytes>, y: seq<Bytes>)
    ensures Concat(x + y) == Concat(x) + Concat(y)
  {
    if x == [] {
      assert x + y == y;
    } else {
      assert (x + y)[1..] == x[1..] + y;
      ConcatConcat(x[1..], y);
    }
  }

  /** More records enter the pipe. */
  lemma HalfEnter(inbuf: Bytes, pipe: Pipe, ch: Channel, sent: seq<Bytes>, plain: seq<Record>)
    requires Half(inbuf, pipe, ch) && forall w <- sent :: w != []
    ensures Half(inbuf, Enter(pipe, sent), Transmit(ch, sent, plain))
  {
    ConcatConcat(ch.wire, sent);
    if ch.wire != [] {
      assert (ch.wire + sent)[0] == ch.wire[0];
    } else if sent != [] {
      assert (ch.wire + sent)[0] == sent[0] && sent[0] in sent;
    }
  }

  /** The record at the head of a channel is as long as its length bytes say. */
  lemma HeadSize(s: End, r: End, ch: Channel)
    requires Paired(r.c, s.c) && PeerOk(r.c, s.c, r.p) && Flows(s, r, ch) && ch.wire != []
    ensures var w := ch.wire[0]; |w| >= 2 && |w| == RecordSize(r.p, RecLen(w))
  {
    hide Flows, PeerOk;
    HeadDecodes(s, r, ch);
    WireSize(r.c.crypto, r.p.instate, r.p.inkey, r.p.inseqno, ch.plain[0]);
  }

  lemma WireSize(crypto: Crypto, encrypted: bool, key: Bytes, seqno: nat, x: Record)
    requires crypto.Lawful() && Fits(x)
    ensures var w := Wire(crypto, encrypted, key, seqno, x);
            |w| == |x.data| + (if encrypted then 19 else 3) && RecLen(w) == |x.data|
  {
    var w := Wire(crypto, encrypted, key, seqno, x);
    assert w[..2] == Length(|x.data|);
    assert w[0] == w[..2][0] && w[1] == w[..2][1];
  }

  lemma {:induction false} CarriesNonEmpty(c: Config, o: Config, h: nat, seqno: nat, wire: seq<Bytes>,
                                           plain: seq<Record>, i: nat)
    requires Carries(c, o, h, seqno, wire, plain) && i < |wire|
    ensures wire[i] != []
    decreases plain
  {
    if i == 0 {
      assert |Length(|plain[0].data|)| == 2;
    } else {
      CarriesNonEmpty(c, o, h + One(plain[0]), Plus(seqno, 1), wire[1..], plain[1..], i - 1);
    }
  }

  lemma SentNonEmpty(s: End, r: End, ch: Channel, sent: seq<Bytes>)
    requires Flows(s, r, ch) && |sent| <= |ch.wire| && ch.wire[|ch.wire| - |sent|..] == sent
    ensures forall w <- sent :: w != []
  {
    forall i | 0 <= i < |sent|
      ensures sent[i] != []
    {
      CarriesNonEmpty(s.c, r.c, Recv(r.p), r.p.inseqno, ch.wire, ch.plain, |ch.wire| - |sent| + i);
      assert sent[i] == ch.wire[|ch.wire| - |sent|..][i];
    }
  }

  /** What has been collected, and the next byte, belong to the record at the head. */
  lemma HalfHead(inbuf: Bytes, pipe: Pipe, ch: Channel)
    requires Half(inbuf, pipe, ch) && pipe.bytes != []
    ensures ch.wire != []
    ensures var w := ch.wire[0];
            inbuf == w[..|inbuf|] && inbuf + [pipe.bytes[0]] == w[..|inbuf| + 1]
    ensures var w := ch.wire[0];
            if |inbuf| + 1 < |w| then Half(inbuf + [pipe.bytes[0]], pipe.(bytes := pipe.bytes[1..]), ch)
            else pipe.bytes[1..] == Concat(ch.wire[1..])
  {
    var w, k := ch.wire[0], |inbuf|;
    var all := Concat(ch.wire);
    assert all == w + Concat(ch.wire[1..]);
    assert inbuf == all[..k] == w[..k];
    assert pipe.bytes[0] == all[k] == w[k];
    assert inbuf + [pipe.bytes[0]] + pipe.bytes[1..] == all;
  }

  lemma FeedOneByte(c: Config, s: Stream, b: byte)
    ensures Feed(c, s, [b]) == FeedByte(c, s, b)
  {
    hide FeedByte;
    assert [b][..0] == [];
    assert Feed(c, s, []) == Fed(s, [], []);
    var f := FeedByte(c, s, b);
    if f.Fed? {
      assert [] + f.sent == f.sent && [] + f.up == f.up;
    }
  }

  /** A byte that leaves the record incomplete changes nothing at the level of records; the
      byte that completes it is the arrival of the record. */
  lemma ArriveByte(l: Line, s: System) returns (s': System)
    requires Inv(s) && Carried(l, s) && l.ba.bytes != []
    ensures Happen(l, Arrive(1)).Some?
    ensures Inv(s') && Carried(Happen(l, Arrive(1)).value, s')
  {
    hide Inv, Feed, FeedByte, Receive, Flows, PeerOk, Paired;
    var c, st, b := l.a.c, l.a.s, l.ba.bytes[0];
    assert l.ba.bytes[..1] == [b];
    FeedOneByte(c, st, b);
    HalfHead(st.inbuf, l.ba, s.ba);
    var w := s.ba.wire[0];
    InvHeadSize(s);
    if |st.inbuf| + 1 < |w| {
      s' := s;
      MidRecord(c, st, w, b);
      assert Enter(l.ab, []) == l.ab && l.ba.got + Apps([]) == l.ba.got;
    } else {
      DeliverKeepsInv(s);
      s' := Act(s, Deliver).value;
      assert w[..|w|] == w;
      EndOfRecord(c, st, w, b);
      var t := Receive(c, s.a.p, w[2..]);
      InvSentNonEmpty(s', t.sent);
      HalfEnter(l.b.s.inbuf, l.ab, s.ab, t.sent, HandshakesFrom(c, s.b.c, Sent(c, s.a.p), |t.sent|));
      InvWiresNonEmpty(s');
    }
  }

  lemma InvHeadSize(s: System)
    requires Inv(s) && s.ba.wire != []
    ensures var w := s.ba.wire[0]; |w| >= 2 && |w| == RecordSize(s.a.p, RecLen(w))
  {
    hide Flows, PeerOk;
    HeadSize(s.b, s.a, s.ba);
  }

  lemma InvSentNonEmpty(s: System, sent: seq<Bytes>)
    requires Inv(s) && |sent| <= |s.ab.wire| && s.ab.wire[|s.ab.wire| - |sent|..] == sent
    ensures forall w <- sent :: w != []
  {
    hide Flows, PeerOk;
    SentNonEmpty(s.a, s.b, s.ab, sent);
  }

  lemma InvWiresNonEmpty(s: System)
    requires Inv(s)
    ensures s.ba.wire != [] ==> s.ba.wire[0] != []
  {
    if s.ba.wire != [] {
      InvHeadSize(s);
    }
  }

  lemma MidRecord(c: Config, s: Stream, w: Bytes, b: byte)
    requires |w| >= 2 && |w| == RecordSize(s.p, RecLen(w)) && |s.inbuf| + 1 < |w| && s.inbuf + [b] == w[..|s.inbuf| + 1]
    ensures FeedByte(c, s, b) == Fed(Stream(s.p, s.inbuf + [b]), [], [])
  {
  }

  lemma EndOfRecord(c: Config, s: Stream, w: Bytes, b: byte)
    requires |w| >= 2 && |w| == RecordSize(s.p, RecLen(w)) && s.inbuf + [b] == w
    ensures FeedByte(c, s, b) ==
            match Receive(c, s.p, w[2..])
            case Error => Broken
            case Next(p, sent, up) => Fed(Stream(p, []), sent, up)
  {
  }

  lemma {:induction false} AppsConcat(x: seq<Record>, y: seq<Record>)
    ensures Apps(x + y) == Apps(x) + Apps(y)
  {
    if x == [] {
      assert x + y == y;
    } else {
      assert (x + y)[1..] == x[1..] + y;
      AppsConcat(x[1..], y);
    }
  }

  /** A piece of n + 1 bytes is a piece of n bytes and one more byte. */
  lemma ArriveSplit(l: Line, n: nat)
    requires n < |l.ba.bytes| && Happen(l, Arrive(n)).Some?
    requires Happen(Happen(l, Arrive(n)).value, Arrive(1)).Some?
    ensures Happen(l, Arrive(n + 1)) == Happen(Happen(l, Arrive(n)).value, Arrive(1))
  {
    hide FeedByte, Concat, Apps;
    var c, data := l.a.c, l.ba.bytes[..n + 1];
    assert data[..n] == l.ba.bytes[..n];
    var f := Feed(c, l.a.s, data[..n]);
    var m := Happen(l, Arrive(n)).value;
    assert m.ba.bytes[..1] == [data[n]] && m.ba.bytes[1..] == l.ba.bytes[n + 1..];
    assert Feed(c, l.a.s, data) == Then(f, FeedByte(c, f.s, data[n]));
    FeedOneByte(c, f.s, data[n]);
    var g := FeedByte(c, f.s, data[n]);
    ConcatConcat(f.sent, g.sent);
    AppsConcat(f.up, g.up);
    assert l.ab.bytes + Concat(f.sent) + Concat(g.sent) == l.ab.bytes + (Concat(f.sent) + Concat(g.sent));
    assert l.ba.got + Apps(f.up) + Apps(g.up) == l.ba.got + (Apps(f.up) + Apps(g.up));
  }

  lemma {:induction false} ArriveKeeps(l: Line, s: System, n: nat) returns (s': System)
    requires Inv(s) && Carried(l, s) && n <= |l.ba.bytes|
    ensures Happen(l, Arrive(n)).Some?
    ensures Inv(s') && Carried(Happen(l, Arrive(n)).value, s')
    decreases n
  {
    hide Inv, Carried, Happen;
    if n == 0 {
      s' := s;
      ArriveNothing(l);
    } else {
      var t := ArriveKeeps(l, s, n - 1);
      var m := Happen(l, Arrive(n - 1)).value;
      StillLeft(l, n - 1);
      s' := ArriveByte(m, t);
      ArriveSplit(l, n - 1);
    }
  }

  lemma ArriveNothing(l: Line)
    ensures Happen(l, Arrive(0)) == Some(l)
  {
    assert l.ba.bytes[..0] == [] && l.ba.bytes[0..] == l.ba.bytes;
    assert Enter(l.ab, []) == l.ab && l.ba.got + Apps([]) == l.ba.got;
  }

  lemma StillLeft(l: Line, n: nat)
    requires n < |l.ba.bytes| && Happen(l, Arrive(n)).Some?
    ensures Happen(l, Arrive(n)).value.ba.bytes != []
  {
  }

  lemma WriteKeeps(l: Line, s: System, r: Record) returns (s': System)
    requires Inv(s) && Carried(l, s)
    ensures Happen(l, Write(r)).Some? && Inv(s') && Carried(Happen(l, Write(r)).value, s')
  {
    hide Inv, SendRecordPriv;
    SendKeepsInv(s, r);
    s' := Act(s, Send(r)).value;
    var t := SendRecord(l.a.c, l.a.s.p, r);
    if t.Next? {
      InvSentNonEmpty(s', t.sent);
      HalfEnter(l.b.s.inbuf, l.ab, s.ab, t.sent, [r]);
    }
  }

  lemma RekeyKeeps(l: Line, s: System) returns (s': System)
    requires Inv(s) && Carried(l, s)
    ensures Happen(l, Rekey).Some? && Inv(s') && Carried(Happen(l, Rekey).value, s')
  {
    hide Inv, ForceKex;
    ForceKeepsInv(s);
    s' := Act(s, Force).value;
    var t := ForceKex(l.a.c, l.a.s.p);
    if t.Next? {
      InvSentNonEmpty(s', t.sent);
      HalfEnter(l.b.s.inbuf, l.ab, s.ab, t.sent, HandshakesFrom(l.a.c, l.b.c, Sent(l.a.c, l.a.s.p), |t.sent|));
    }
  }

  lemma HappenKeeps(l: Line, s: System, e: Event) returns (s': System)
    requires Inv(s) && Carried(l, s)
    ensures Happen(l, e).Some? && Inv(s') && Carried(Happen(l, e).value, s')
  {
    match e
    case Write(r) => s' := WriteKeeps(l, s, r);
    case Rekey => s' := RekeyKeeps(l, s);
    case Arrive(n) =>
      var k := if n <= |l.ba.bytes| then n else |l.ba.bytes|;
      s' := ArriveKeeps(l, s, k);
      assert Happen(l, Arrive(n)) == Happen(l, Arrive(k));
  }

  /** Both ends right after sptps_start. */
  function Opened(a: Config, b: Config): Line {
    var s := Initial(a, b);
    Line(Side(a, Stream(s.a.p, [])), Side(b, Stream(s.b.p, [])), Pipe(Concat(s.ab.wire), [], []),
         Pipe(Concat(s.ba.wire), [], []))
  }

  lemma OpenedCarried(a: Config, b: Config)
    requires Paired(a, b)
    ensures Inv(Initial(a, b)) && Carried(Opened(a, b), Initial(a, b))
  {
    InitialInv(a, b);
    hide Inv, Start;
    var s := Initial(a, b);
    InvWiresNonEmpty(s);
    SwapInv(s);
    InvWiresNonEmpty(Swap(s));
  }

  lemma TurnCarried(l: Line, s: System)
    requires Inv(s) && Carried(l, s)
    ensures Inv(Swap(s)) && Carried(Turn(l), Swap(s))
  {
    hide Half;
    SwapInv(s);
  }

  /** Whatever the two applications send, whenever rekeyings are forced, and however the two
      streams are cut into pieces, no record is rejected, and each application gets a prefix of
      the records the other one sent. */
  lemma {:induction false} StreamAgreement(a: Config, b: Config, es: seq<(bool, Event)>) returns (s: System)
    requires Paired(a, b)
    ensures var r := History(Opened(a, b), es);
            && r.Some? && Inv(s) && Carried(r.value, s)
            && r.value.ab.got <= r.value.ab.sent && r.value.ba.got <= r.value.ba.sent
    decreases |es|
  {
    hide Happen, Opened, PeerOk, Paired, Carries;
    if es == [] {
      OpenedCarried(a, b);
      s := Initial(a, b);
    } else {
      var t := StreamAgreement(a, b, es[..|es| - 1]);
      var l := History(Opened(a, b), es[..|es| - 1]).value;
      var (atA, e) := es[|es| - 1];
      if atA {
        s := HappenKeeps(l, t, e);
      } else {
        TurnCarried(l, t);
        var u := HappenKeeps(Turn(l), Swap(t), e);
        TurnCarried(Happen(Turn(l), e).value, u);
        s := Swap(u);
      }
    }
  }
}
