/** What an SPTPS session promises whatever arrives: records may be forged, altered, repeated or left
    out, and the application may send and force rekeyings at any time.

Keys are used only after a signature over both key exchanges has been verified under the peer's key,
and if nobody else can make such signatures, the peer had the same two key exchanges before it. */
module SptpsAuth {
  import opened Common
  import opened SptpsSpec

  /** What can happen to a session: the rest of a record arrives, the application sends a record, or
      it forces a rekeying. */
  datatype Event = Incoming(body: Bytes) | Application(r: Record) | Rekey

  function Do(c: Config, p: Peer, ev: Event): Step {
    match ev
    case Incoming(body) => Receive(c, p, body)
    case Application(r) => SendRecord(c, p, r)
    case Rekey => ForceKex(c, p)
  }

  /** The handshake record an event brings. */
  function Heard(c: Config, p: Peer, ev: Event): seq<Bytes> {
    if ev.Incoming? && Decode(c, p, ev.body).Some? && Decode(c, p, ev.body).value.kind == SPTPS_HANDSHAKE
    then [Decode(c, p, ev.body).value.data]
    else []
  }

  /** The characters of a string as bytes. */
  function Ascii(s: string): Bytes {
    seq(|s|, i requires 0 <= i < |s| => if s[i] < 128 as char then s[i] as int as byte else 0)
  }

  /** The key exchange record of draw d: a version byte, a nonce and a public key. */
  function Mine(c: Config, d: nat): Bytes {
    [0] + c.tape(d).nonce + c.crypto.ecdhPublic(c.tape(d).secret)
  }

  /** What is signed: a byte for the role of the signer, its own exchange, that of the other end, and
      the label of the session. */
  function Statement(initiator: bool, own: Bytes, other: Bytes, label': Bytes): Bytes {
    [if initiator then 1 else 0] + own + other + label'
  }

  /** The statements a session signs in handling an event. */
  function Signs(c: Config, p: Peer, ev: Event): set<Bytes> {
    if Heard(c, p, ev) == [] then {}
    else
      var data := Heard(c, p, ev)[0];
      match p.state
      case Kex => if c.initiator && p.mykex.Some? then {Statement(true, p.mykex.value, data, c.tag)} else {}
      case SecondaryKex => if c.initiator then {Statement(true, Mine(c, p.drawn), data, c.tag)} else {}
      case Sig =>
        if !c.initiator && p.mykex.Some? && p.hiskex.Some?
        then {Statement(false, p.mykex.value, p.hiskex.value, c.tag)}
        else {}
      case Ack => {}
  }

  /** A session so far: its state, the handshake records it has received, and what it has signed. */
  datatype Past = Past(p: Peer, got: seq<Bytes>, signed: set<Bytes>)

  /** The session after these events, unless it has failed. */
  function After(c: Config, evs: seq<Event>): Option<Past> {
    if evs == [] then
      var s := Start(c);
      if s.Error? then None else Some(Past(s.peer, [], {}))
    else
      var v := After(c, evs[..|evs| - 1]);
      if v.None? then None else Then(c, v.value, evs[|evs| - 1])
  }

  function Then(c: Config, v: Past, ev: Event): Option<Past> {
    var s := Do(c, v.p, ev);
    if s.Error? then None
    else Some(Past(s.peer, v.got + Heard(c, v.p, ev), v.signed + Signs(c, v.p, ev)))
  }

  /** The key material of two exchanges: the shared secret, expanded with both nonces, that of the
      initiator first. */
  function Material(c: Config, d: nat, his: Bytes): Bytes
    requires |his| == 65
  {
    var mine, other := c.tape(d).nonce, his[1..33];
    var nonces := if c.initiator then mine + other else other + mine;
    c.crypto.prf(c.crypto.ecdhShared(c.tape(d).secret, his[33..]), Ascii("key expansion") + nonces + c.tag)
  }

  /** `k` is the key material of our draw d and the exchange received as record h, and record j is a
      signature by the peer over both. */
  ghost predicate Exchange(c: Config, got: seq<Bytes>, k: Bytes, h: nat, j: nat, d: nat) {
    && h < j < |got| && |got[h]| == 65 && got[h][0] == 0 && |got[j]| == 64
    && c.crypto.verify(c.hiskey, Statement(!c.initiator, got[h], Mine(c, d), c.tag), got[j])
    && |k| == 128 && k == Material(c, d, got[h])
  }

  ghost predicate Authentic(c: Config, got: seq<Bytes>, k: Bytes) {
    exists h: nat, j: nat, d: nat :: Exchange(c, got, k, h, j, d)
  }

  /** The half of the key material this end sends under, and the half it receives under. */
  function OutHalf(c: Config, k: Bytes): Bytes
    requires |k| == 128
  {
    if c.initiator then k[64..] else k[..64]
  }

  function InHalf(c: Config, k: Bytes): Bytes
    requires |k| == 128
  {
    if c.initiator then k[..64] else k[64..]
  }

  ghost predicate AuthenticOut(c: Config, got: seq<Bytes>, key: Bytes) {
    exists k: Bytes :: |k| == 128 && Authentic(c, got, k) && key == OutHalf(c, k)
  }

  ghost predicate AuthenticIn(c: Config, got: seq<Bytes>, key: Bytes) {
    exists k: Bytes :: |k| == 128 && Authentic(c, got, k) && key == InHalf(c, k)
  }

  /** The exchanges under way are our last draw and a record that was received. */
  ghost predicate Pending(c: Config, v: Past) {
    && (v.p.mykex.Some? ==> v.p.drawn > 0 && v.p.mykex.value == Mine(c, v.p.drawn - 1))
    && (v.p.ecdh.Some? ==> v.p.drawn > 0 && v.p.ecdh.value == c.tape(v.p.drawn - 1).secret)
    && (v.p.hiskex.Some? ==> v.p.hiskex.value in v.got && |v.p.hiskex.value| == 65 && v.p.hiskex.value[0] == 0)
  }

  /** Every key in use, or about to be used, is authentic. */
  ghost predicate Keyed(c: Config, v: Past) {
    && (v.p.key.Some? ==> Authentic(c, v.got, v.p.key.value))
    && (v.p.outstate ==> AuthenticOut(c, v.got, v.p.outkey))
    && (v.p.instate ==> v.p.outstate && AuthenticIn(c, v.got, v.p.inkey))
    && (v.p.state == Ack ==> v.p.outstate)
  }

  lemma MoreHeard(c: Config, got: seq<Bytes>, more: seq<Bytes>, k: Bytes)
    requires Authentic(c, got, k)
    ensures Authentic(c, got + more, k)
  {
    var h: nat, j: nat, d: nat :| Exchange(c, got, k, h, j, d);
    assert Exchange(c, got + more, k, h, j, d);
  }

  lemma StillKeyed(c: Config, v: Past, more: seq<Bytes>)
    requires Keyed(c, v)
    ensures Keyed(c, v.(got := v.got + more))
  {
    hide Exchange, Authentic;
    forall k: Bytes | Authentic(c, v.got, k)
      ensures Authentic(c, v.got + more, k)
    {
      MoreHeard(c, v.got, more, k);
    }
  }

  lemma ExpansionIsText()
    ensures EXPANSION == Ascii("key expansion")
  {
  }

  /** The message checked and the key derived are those of the two pending exchanges. */
  lemma MaterialIs(c: Config, p: Peer)
    requires p.mykex.Some? && p.ecdh.Some? && p.hiskex.Some? && p.drawn > 0
    requires p.mykex.value == Mine(c, p.drawn - 1) && p.ecdh.value == c.tape(p.drawn - 1).secret
    requires |p.mykex.value| == KEX_SIZE && |p.hiskex.value| == KEX_SIZE && |c.tape(p.drawn - 1).nonce| == 32
    ensures KeyMaterial(c, c.crypto.ecdhShared(p.ecdh.value, PublicKey(p.hiskex.value)), p.mykex.value, p.hiskex.value)
            == Material(c, p.drawn - 1, p.hiskex.value)
  {
    ExpansionIsText();
    var mine, his := Nonce(p.mykex.value), Nonce(p.hiskex.value);
    assert mine == c.tape(p.drawn - 1).nonce;
    var e := EXPANSION;
    assert e + mine + his == e + (mine + his) && e + his + mine == e + (his + mine);
  }

  /** Nonces are 32 bytes long. */
  ghost predicate Draws(c: Config) {
    forall n :: |c.tape(n).nonce| == 32
  }

  /** A signature record is accepted only if it verifies, and then the keys are those of the two
      exchanges it is about. */
  lemma SigAccepted(c: Config, v: Past, data: Bytes)
    requires Draws(c) && Pending(c, v) && ReceiveSig(c, v.p, data).Next?
    ensures var p, d := v.p, v.p.drawn - 1;
            && p.hiskex.Some? && |p.hiskex.value| == 65 && |data| == 64 && d >= 0
            && c.crypto.verify(c.hiskey, Statement(!c.initiator, p.hiskex.value, Mine(c, d), c.tag), data)
            && var k, s := Material(c, d, p.hiskex.value), ReceiveSig(c, p, data);
               && |k| == 128
               && s.peer == p.(ecdh := None, mykex := None, hiskex := None, key := Some(k), outkey := OutHalf(c, k),
                               outseqno := s.peer.outseqno)
  {
    hide KeyMaterial, Material, Wire;
    MaterialIs(c, v.p);
  }

  lemma KexAccepted(c: Config, v: Past, data: Bytes)
    requires Pending(c, v) && Keyed(c, v) && ReceiveKex(c, v.p, data).Next?
    ensures var s := ReceiveKex(c, v.p, data);
            && |data| == 65 && data[0] == 0 && v.p.hiskex.None?
            && s.peer == v.p.(hiskex := Some(data), outseqno := s.peer.outseqno)
  {
    hide Wire;
  }

  /** What a handshake record does to a session that is all right. */
  lemma HandshakeKeeps(c: Config, v: Past, data: Bytes, signed: set<Bytes>)
    requires Draws(c) && Pending(c, v) && Keyed(c, v) && ReceiveHandshake(c, v.p, data).Next?
    ensures var v' := Past(ReceiveHandshake(c, v.p, data).peer, v.got + [data], signed);
            Pending(c, v') && Keyed(c, v')
  {
    hide ReceiveSig, ReceiveKex, Material, Exchange, Wire;
    StillKeyed(c, v, [data]);
    match v.p.state {
      case Sig =>
        SigAccepted(c, v, data);
        SigIsLast(c, v, data);
      case Kex =>
        KexAccepted(c, v, data);
      case SecondaryKex =>
        KexAccepted(c, v.(p := SendKex(c, v.p).peer), data);
      case Ack =>
        AuthenticSize(c, v.got + [data], v.p.key.value);
    }
  }

  lemma AuthenticSize(c: Config, got: seq<Bytes>, k: Bytes)
    requires Authentic(c, got, k)
    ensures |k| == 128
  {
  }

  /** The record just accepted is the signature of the exchange. */
  lemma SigIsLast(c: Config, v: Past, data: Bytes)
    requires Draws(c) && Pending(c, v) && ReceiveSig(c, v.p, data).Next?
    ensures v.p.drawn > 0 && v.p.hiskex.Some? && |v.p.hiskex.value| == 65
    ensures Authentic(c, v.got + [data], Material(c, v.p.drawn - 1, v.p.hiskex.value))
  {
    hide ReceiveSig, Material;
    SigAccepted(c, v, data);
    var h: nat :| h < |v.got| && v.got[h] == v.p.hiskex.value;
    var got := v.got + [data];
    assert got[h] == v.p.hiskex.value && got[|v.got|] == data;
    assert Exchange(c, got, Material(c, v.p.drawn - 1, v.p.hiskex.value), h, |v.got|, v.p.drawn - 1);
  }

  /** Whatever happens, the exchanges and keys of a session stay in order. */
  lemma StepKeeps(c: Config, v: Past, ev: Event)
    requires Draws(c) && Pending(c, v) && Keyed(c, v) && Then(c, v, ev).Some?
    ensures Pending(c, Then(c, v, ev).value) && Keyed(c, Then(c, v, ev).value)
  {
    hide ReceiveHandshake, Authentic, AuthenticIn, AuthenticOut, Wire;
    if Heard(c, v.p, ev) == [] {
      assert v.got + [] == v.got;
    } else {
      var counted := v.(p := v.p.(inseqno := Increment(v.p.inseqno)));
      HandshakeKeeps(c, counted, Heard(c, v.p, ev)[0], v.signed + Signs(c, v.p, ev));
    }
  }

  /** In every run, honest or not, a session sends under a key, or takes records under one, only if the
      key comes from one of its own exchanges and one it received, and a record received after that
      verified as the peer's signature over both. */
  lemma {:induction false} KeysAreAuthentic(c: Config, evs: seq<Event>)
    requires Draws(c) && After(c, evs).Some?
    ensures Pending(c, After(c, evs).value) && Keyed(c, After(c, evs).value)
    decreases |evs|
  {
    hide Then, Pending, Keyed;
    if evs == [] {
      Begins(c);
    } else {
      var before := evs[..|evs| - 1];
      KeysAreAuthentic(c, before);
      StepKeeps(c, After(c, before).value, evs[|evs| - 1]);
    }
  }

  lemma Begins(c: Config)
    requires Start(c).Next?
    ensures Pending(c, Past(Start(c).peer, [], {})) && Keyed(c, Past(Start(c).peer, [], {}))
  {
  }

  /** New keys are set by nothing but a record that verifies, over the exchanges then pending. */
  lemma NewKeysAreSigned(c: Config, v: Past, ev: Event)
    requires Draws(c) && Pending(c, v) && Then(c, v, ev).Some?
    requires var p, p' := v.p, Then(c, v, ev).value.p;
             (p'.outstate && !p.outstate) || p'.outkey != p.outkey || (p'.key.Some? && p'.key != p.key)
    ensures v.p.state == Sig && v.p.hiskex.Some? && v.p.drawn > 0 && |Heard(c, v.p, ev)| == 1
    ensures c.crypto.verify(c.hiskey, Statement(!c.initiator, v.p.hiskex.value, Mine(c, v.p.drawn - 1), c.tag),
                            Heard(c, v.p, ev)[0])
  {
    hide ReceiveSig, Wire, Material;
    if v.p.state == Sig && Heard(c, v.p, ev) != [] {
      SigAccepted(c, v.(p := v.p.(inseqno := Increment(v.p.inseqno))), Heard(c, v.p, ev)[0]);
    }
  }

  /** Incoming data is taken under another key only after the first signature, or when an empty record
      acknowledges a later one. */
  lemma NewInKeyIsAcknowledged(c: Config, v: Past, ev: Event)
    requires Draws(c) && Pending(c, v) && Then(c, v, ev).Some?
    requires var p, p' := v.p, Then(c, v, ev).value.p; p'.instate != p.instate || p'.inkey != p.inkey
    ensures |Heard(c, v.p, ev)| == 1
    ensures (v.p.state == Ack && Heard(c, v.p, ev)[0] == []) || (v.p.state == Sig && !v.p.outstate)
  {
    hide ReceiveSig, Wire, Material;
    if v.p.state == Sig && Heard(c, v.p, ev) != [] {
      SigAccepted(c, v.(p := v.p.(inseqno := Increment(v.p.inseqno))), Heard(c, v.p, ev)[0]);
    }
  }

  /** The records that may go out in handling an event: what the application sends once there are keys,
      our next exchange, a signature of what is signed, and an acknowledgement once there are keys. */
  ghost predicate MayCarry(c: Config, p: Peer, ev: Event, r: Record) {
    || (ev.Application? && r == ev.r && p.outstate && r.kind < 128)
    || (r == Record(128, Mine(c, p.drawn)) && p.mykex.None?)
    || (exists m <- Signs(c, p, ev) :: r == Record(128, c.crypto.sign(c.mykey, m)))
    || (r == Record(128, []) && p.state == Sig && p.outstate)
  }

  /** A record as bytes: two bytes of length, then the record in the clear, or sealed. */
  ghost predicate Carries(c: Config, p: Peer, k: nat, r: Record, b: Bytes) {
    && |r.data| < 0x1_0000
    && b == [(|r.data| / 256) as byte, (|r.data| % 256) as byte]
            + if p.outstate then c.crypto.seal(p.outkey, (p.outseqno + k) % 0x1_0000_0000, r) else [r.kind] + r.data
  }

  ghost predicate SendsWell(c: Config, p: Peer, ev: Event, sent: seq<Bytes>) {
    forall k | 0 <= k < |sent| :: exists r :: MayCarry(c, p, ev, r) && Carries(c, p, k, r, sent[k])
  }

  lemma PrivCarries(c: Config, p: Peer, k: nat, r: Record)
    requires Fits(r) && p.outseqno < 0x1_0000_0000
    ensures Carries(c, p, k, r, Wire(c.crypto, p.outstate, p.outkey, (p.outseqno + k) % 0x1_0000_0000, r))
  {
  }

  /** Nothing else is ever sent: until there are keys only exchanges and signatures go out in the clear,
      and then everything is sealed under the key in use and a number of its own. */
  lemma SendsOnly(c: Config, v: Past, ev: Event)
    requires Then(c, v, ev).Some? && v.p.outseqno < 0x1_0000_0000
    ensures var s := Do(c, v.p, ev);
            SendsWell(c, v.p, ev, s.sent) && s.peer.outseqno == (v.p.outseqno + |s.sent|) % 0x1_0000_0000
  {
    hide Wire, MayCarry, Carries;
    var p, s := v.p, Do(c, v.p, ev);
    if Heard(c, p, ev) == [] {
      if ev.Application? {
        Carried(c, p, ev, 0, ev.r);
      } else if ev.Rekey? {
        Carried(c, p, ev, 0, Record(128, Mine(c, p.drawn)));
      }
    } else {
      HandshakeSends(c, p, ev, Heard(c, p, ev)[0]);
    }
  }

  lemma Carried(c: Config, p: Peer, ev: Event, k: nat, r: Record)
    requires Fits(r) && p.outseqno < 0x1_0000_0000
    ensures Carries(c, p, k, r, Wire(c.crypto, p.outstate, p.outkey, (p.outseqno + k) % 0x1_0000_0000, r))
    ensures ev.Application? && r == ev.r && p.outstate && r.kind < 128 ==> MayCarry(c, p, ev, r)
    ensures r == Record(128, Mine(c, p.drawn)) && p.mykex.None? ==> MayCarry(c, p, ev, r)
    ensures r == Record(128, []) && p.state == Sig && p.outstate ==> MayCarry(c, p, ev, r)
  {
    PrivCarries(c, p, k, r);
  }

  lemma SignatureCarried(c: Config, p: Peer, ev: Event, m: Bytes)
    requires m in Signs(c, p, ev)
    ensures MayCarry(c, p, ev, Record(128, c.crypto.sign(c.mykey, m)))
  {
  }

  lemma HandshakeSends(c: Config, p: Peer, ev: Event, data: Bytes)
    requires ev.Incoming? && Heard(c, p, ev) == [data] && p.outseqno < 0x1_0000_0000
    requires ReceiveHandshake(c, p.(inseqno := Increment(p.inseqno)), data).Next?
    ensures var s := ReceiveHandshake(c, p.(inseqno := Increment(p.inseqno)), data);
            SendsWell(c, p, ev, s.sent) && s.peer.outseqno == (p.outseqno + |s.sent|) % 0x1_0000_0000
  {
    hide ReceiveHandshake, SendsWell;
    match p.state {
      case Kex =>
        KexSends(c, p, ev, data);
      case SecondaryKex =>
        SecondarySends(c, p, ev, data);
      case Sig =>
        SigSends(c, p, ev, data);
      case Ack =>
        AckSends(c, p, ev, data);
    }
  }

  lemma KexSends(c: Config, p: Peer, ev: Event, data: Bytes)
    requires p.state == Kex
    requires ev.Incoming? && Heard(c, p, ev) == [data] && p.outseqno < 0x1_0000_0000
    requires ReceiveHandshake(c, p.(inseqno := Increment(p.inseqno)), data).Next?
    ensures var s := ReceiveHandshake(c, p.(inseqno := Increment(p.inseqno)), data);
            SendsWell(c, p, ev, s.sent) && s.peer.outseqno == (p.outseqno + |s.sent|) % 0x1_0000_0000
  {
    hide Wire, MayCarry, Carries, Heard, SigMessage, Statement;
    if c.initiator {
      Signed(c, p, ev, data, 0, p.mykex.value, data);
    }
  }

  lemma SecondarySends(c: Config, p: Peer, ev: Event, data: Bytes)
    requires p.state == SecondaryKex
    requires ev.Incoming? && Heard(c, p, ev) == [data] && p.outseqno < 0x1_0000_0000
    requires ReceiveHandshake(c, p.(inseqno := Increment(p.inseqno)), data).Next?
    ensures var s := ReceiveHandshake(c, p.(inseqno := Increment(p.inseqno)), data);
            SendsWell(c, p, ev, s.sent) && s.peer.outseqno == (p.outseqno + |s.sent|) % 0x1_0000_0000
  {
    hide Wire, MayCarry, Carries, Heard, SigMessage, Statement;
    Carried(c, p, ev, 0, Record(128, Mine(c, p.drawn)));
    if c.initiator {
      Signed(c, p, ev, data, 1, Mine(c, p.drawn), data);
    }
  }

  lemma SigSends(c: Config, p: Peer, ev: Event, data: Bytes)
    requires p.state == Sig
    requires ev.Incoming? && Heard(c, p, ev) == [data] && p.outseqno < 0x1_0000_0000
    requires ReceiveHandshake(c, p.(inseqno := Increment(p.inseqno)), data).Next?
    ensures var s := ReceiveHandshake(c, p.(inseqno := Increment(p.inseqno)), data);
            SendsWell(c, p, ev, s.sent) && s.peer.outseqno == (p.outseqno + |s.sent|) % 0x1_0000_0000
  {
    hide Wire, MayCarry, Carries, Heard, ReceiveSig;
    var q := p.(inseqno := Increment(p.inseqno));
    SigSent(c, q, data);
    if !c.initiator {
      Signed(c, p, ev, data, 0, p.mykex.value, p.hiskex.value);
    }
    Carried(c, p, ev, if c.initiator then 0 else 1, Record(128, []));
  }

  /** receive_sig sends our own signature, if it is our turn, and then an acknowledgement. */
  lemma SigSent(c: Config, p: Peer, data: Bytes)
    requires ReceiveSig(c, p, data).Next? && p.outseqno < 0x1_0000_0000
    ensures p.mykex.Some? && p.hiskex.Some?
    ensures var s := ReceiveSig(c, p, data);
            var sig := Record(128,
                              c.crypto.sign(c.mykey, SigMessage(c.initiator, p.mykex.value, p.hiskex.value, c.tag)));
            var turn := if c.initiator then 0 else 1;
            && (!c.initiator ==> Fits(sig)) && s.peer.outstate == p.outstate
            && s.sent == (if c.initiator then [] else [Wire(c.crypto, p.outstate, p.outkey, p.outseqno, sig)])
                         + (if !p.outstate then []
                            else [Wire(c.crypto, true, p.outkey, (p.outseqno + turn) % 0x1_0000_0000, Record(128, []))])
            && s.peer.outseqno == (p.outseqno + |s.sent|) % 0x1_0000_0000
  {
    hide Wire, KeyMaterial, Key0, Key1, SigMessage;
  }

  lemma AckSends(c: Config, p: Peer, ev: Event, data: Bytes)
    requires p.state == Ack
    requires ev.Incoming? && Heard(c, p, ev) == [data] && p.outseqno < 0x1_0000_0000
    requires ReceiveHandshake(c, p.(inseqno := Increment(p.inseqno)), data).Next?
    ensures var s := ReceiveHandshake(c, p.(inseqno := Increment(p.inseqno)), data);
            SendsWell(c, p, ev, s.sent) && s.peer.outseqno == (p.outseqno + |s.sent|) % 0x1_0000_0000
  {
  }

  lemma Signed(c: Config, p: Peer, ev: Event, data: Bytes, k: nat, own: Bytes, other: Bytes)
    requires Heard(c, p, ev) == [data] && p.outseqno < 0x1_0000_0000
    requires Statement(c.initiator, own, other, c.tag) in Signs(c, p, ev)
    ensures var sig := c.crypto.sign(c.mykey, SigMessage(c.initiator, own, other, c.tag));
            var r := Record(128, sig);
            && MayCarry(c, p, ev, r)
            && (|sig| < 0x1_0000 ==>
                  Carries(c, p, k, r, Wire(c.crypto, p.outstate, p.outkey, (p.outseqno + k) % 0x1_0000_0000, r)))
  {
    SignatureCarried(c, p, ev, Statement(c.initiator, own, other, c.tag));
    var r := Record(128, c.crypto.sign(c.mykey, SigMessage(c.initiator, own, other, c.tag)));
    if Fits(r) {
      PrivCarries(c, p, k, r);
    }
  }

  /** What is handed to the application arrived as one record, opened under the key and the number then
      due; besides, it is told when an exchange is complete, and then there are keys. */
  lemma HandsUp(c: Config, v: Past, ev: Event, r: Record)
    requires Then(c, v, ev).Some? && r in Do(c, v.p, ev).up
    ensures ev.Incoming? && Do(c, v.p, ev).up == [r]
    ensures if r.kind < 128 then v.p.instate && c.crypto.open(v.p.inkey, v.p.inseqno, ev.body) == Some(r)
            else r == Record(128, []) && Then(c, v, ev).value.p.instate
  {
    hide Wire, KeyMaterial;
  }

  /** The statement is about one of our exchanges and one that was received. */
  ghost predicate Stated(c: Config, v: Past, m: Bytes, n: nat, i: nat) {
    n < v.p.drawn && i < |v.got| && |v.got[i]| == 65 && m == Statement(c.initiator, Mine(c, n), v.got[i], c.tag)
  }

  ghost predicate SignedWell(c: Config, v: Past) {
    forall m <- v.signed :: exists n: nat, i: nat :: Stated(c, v, m, n, i)
  }

  lemma StillStated(c: Config, v: Past, v': Past, m: Bytes, n: nat, i: nat)
    requires Stated(c, v, m, n, i) && v.got <= v'.got && v.p.drawn <= v'.p.drawn
    ensures Stated(c, v', m, n, i)
  {
  }

  lemma DrawnGrows(c: Config, v: Past, ev: Event)
    requires Then(c, v, ev).Some?
    ensures v.p.drawn <= Then(c, v, ev).value.p.drawn && v.got <= Then(c, v, ev).value.got
  {
    hide Wire, KeyMaterial, ReceiveHandshake, Signs;
    if Heard(c, v.p, ev) != [] {
      DrawnOnce(c, v.p.(inseqno := Increment(v.p.inseqno)), Heard(c, v.p, ev)[0]);
    }
  }

  lemma DrawnOnce(c: Config, p: Peer, data: Bytes)
    requires ReceiveHandshake(c, p, data).Next?
    ensures ReceiveHandshake(c, p, data).peer.drawn == p.drawn + if p.state == SecondaryKex then 1 else 0
  {
    hide Wire, KeyMaterial, SigMessage, KexOf;
  }

  lemma SignsWell(c: Config, v: Past, ev: Event, m: Bytes)
    requires Pending(c, v) && Then(c, v, ev).Some? && m in Signs(c, v.p, ev)
    ensures exists n: nat, i: nat :: Stated(c, Then(c, v, ev).value, m, n, i)
  {
    hide Wire, KeyMaterial, Statement, Mine;
    DrawnGrows(c, v, ev);
    var v', data := Then(c, v, ev).value, Heard(c, v.p, ev)[0];
    assert v'.got[|v.got|] == data;
    match v.p.state {
      case Kex =>
        assert Stated(c, v', m, v.p.drawn - 1, |v.got|);
      case SecondaryKex =>
        assert Stated(c, v', m, v.p.drawn, |v.got|);
      case Sig =>
        var i: nat :| i < |v.got| && v.got[i] == v.p.hiskex.value;
        assert v'.got[i] == v.got[i];
        assert Stated(c, v', m, v.p.drawn - 1, i);
      case Ack =>
    }
  }

  /** Whatever happens, a session signs only statements about its own exchanges. */
  lemma {:induction false} SignaturesAreOwn(c: Config, evs: seq<Event>)
    requires Draws(c) && After(c, evs).Some?
    ensures SignedWell(c, After(c, evs).value)
    decreases |evs|
  {
    hide Then, Pending, Keyed, Stated;
    if evs != [] {
      var before, ev := evs[..|evs| - 1], evs[|evs| - 1];
      SignaturesAreOwn(c, before);
      KeysAreAuthentic(c, before);
      var v := After(c, before).value;
      StepSigned(c, v, ev);
    }
  }

  lemma StepSigned(c: Config, v: Past, ev: Event)
    requires Pending(c, v) && SignedWell(c, v) && Then(c, v, ev).Some?
    ensures SignedWell(c, Then(c, v, ev).value)
  {
    hide Do, Heard, Signs, Stated, Pending;
    var v' := Then(c, v, ev).value;
    DrawnGrows(c, v, ev);
    forall m <- v'.signed
      ensures exists n: nat, i: nat :: Stated(c, v', m, n, i)
    {
      if m in v.signed {
        var n: nat, i: nat :| Stated(c, v, m, n, i);
        StillStated(c, v, v', m, n, i);
      } else {
        SignsWell(c, v, ev, m);
      }
    }
  }

  /** No signature that was received is forged: what it verifies, the other end has signed. */
  ghost predicate Unforged(c: Config, got: seq<Bytes>, signed: set<Bytes>) {
    forall own: Bytes, other: Bytes, sig: Bytes |
      && sig in got && |own| == 65 && |other| == 65
      && c.crypto.verify(c.hiskey, Statement(!c.initiator, own, other, c.tag), sig) ::
      Statement(!c.initiator, own, other, c.tag) in signed
  }

  /** The two ends of a session, as far as their configurations go. */
  ghost predicate Ends(c: Config, o: Config) {
    && c.crypto == o.crypto && c.crypto.Lawful() && c.tag == o.tag && c.initiator != o.initiator
    && Draws(c) && Draws(o)
  }

  /** Both ends have both exchanges, and derive the same keys from them. */
  ghost predicate Agreed(c: Config, v: Past, o: Config, w: Past, k: Bytes, d: nat, n: nat) {
    && |Mine(c, d)| == 65 && |Mine(o, n)| == 65
    && Mine(o, n) in v.got && Mine(c, d) in w.got && n < w.p.drawn
    && k == Material(c, d, Mine(o, n)) == Material(o, n, Mine(c, d))
  }

  lemma SameStatement(b: bool, x: Bytes, y: Bytes, x': Bytes, y': Bytes, t: Bytes)
    requires |x| == |x'| == 65 && |y| == |y'| == 65 && Statement(b, x, y, t) == Statement(b, x', y', t)
    ensures x == x' && y == y'
  {
    var m := Statement(b, x, y, t);
    assert m[1..66] == x && m[66..131] == y && m[1..66] == x' && m[66..131] == y';
  }

  lemma MaterialAgrees(c: Config, o: Config, d: nat, n: nat)
    requires Ends(c, o)
    ensures |Mine(c, d)| == 65 && |Mine(o, n)| == 65
    ensures Material(c, d, Mine(o, n)) == Material(o, n, Mine(c, d))
  {
    var x, y := Mine(c, d), Mine(o, n);
    assert x[1..33] == c.tape(d).nonce && y[1..33] == o.tape(n).nonce;
    assert x[33..] == c.crypto.ecdhPublic(c.tape(d).secret) && y[33..] == c.crypto.ecdhPublic(o.tape(n).secret);
  }

  /** Whoever is in between, and whatever it does short of forging a signature of the other end: the
      keys this end has accepted are those of an exchange the other end sent, which had received ours
      when it signed, and which derives the same keys. */
  lemma PeerAgrees(c: Config, evs: seq<Event>, o: Config, evs': seq<Event>, k: Bytes)
    requires Ends(c, o) && After(c, evs).Some? && After(o, evs').Some?
    requires Unforged(c, After(c, evs).value.got, After(o, evs').value.signed)
    requires Authentic(c, After(c, evs).value.got, k)
    ensures exists d: nat, n: nat :: Agreed(c, After(c, evs).value, o, After(o, evs').value, k, d, n)
  {
    hide After, Exchange, Stated, Agreed, Ends, Unforged;
    var v, w := After(c, evs).value, After(o, evs').value;
    var h: nat, j: nat, d: nat :| Exchange(c, v.got, k, h, j, d);
    assert Draws(o) by {
      EndsDraw(c, o);
    }
    SignaturesAreOwn(o, evs');
    var m := SignedByPeer(c, v, o, w, k, h, j, d);
    var n: nat, i: nat :| Stated(o, w, m, n, i);
    BothHave(c, v, o, w, k, h, j, d, m, n, i);
  }

  lemma EndsDraw(c: Config, o: Config)
    requires Ends(c, o)
    ensures Draws(o)
  {
  }

  lemma SignedByPeer(c: Config, v: Past, o: Config, w: Past, k: Bytes, h: nat, j: nat, d: nat) returns (m: Bytes)
    requires Ends(c, o) && Exchange(c, v.got, k, h, j, d) && Unforged(c, v.got, w.signed)
    ensures m in w.signed && m == Statement(!c.initiator, v.got[h], Mine(c, d), c.tag)
  {
    MaterialAgrees(c, o, d, 0);
    hide Statement, Material, Mine, Ends;
    m := Statement(!c.initiator, v.got[h], Mine(c, d), c.tag);
    assert v.got[j] in v.got;
  }

  lemma BothHave(c: Config, v: Past, o: Config, w: Past, k: Bytes, h: nat, j: nat, d: nat, m: Bytes, n: nat, i: nat)
    requires Ends(c, o) && Exchange(c, v.got, k, h, j, d) && Stated(o, w, m, n, i)
    requires m == Statement(!c.initiator, v.got[h], Mine(c, d), c.tag)
    ensures Agreed(c, v, o, w, k, d, n)
  {
    MaterialAgrees(c, o, d, n);
    assert o.initiator == !c.initiator && o.tag == c.tag;
    hide Statement, Material, Mine, Ends;
    SameStatement(o.initiator, v.got[h], Mine(c, d), Mine(o, n), w.got[i], c.tag);
  }

  /** So once this end sends sealed records, it does so under the key under which the other end opens
      them, if it completes the exchange. */
  lemma KeysAgree(c: Config, evs: seq<Event>, o: Config, evs': seq<Event>)
    requires Ends(c, o) && After(c, evs).Some? && After(o, evs').Some?
    requires Unforged(c, After(c, evs).value.got, After(o, evs').value.signed)
    ensures var v, w := After(c, evs).value, After(o, evs').value;
            v.p.outstate ==>
              exists k: Bytes, d: nat, n: nat ::
                Agreed(c, v, o, w, k, d, n) && |k| == 128 && v.p.outkey == OutHalf(c, k) == InHalf(o, k)
  {
    hide After, Agreed, Unforged;
    KeysAreAuthentic(c, evs);
    var v, w := After(c, evs).value, After(o, evs').value;
    if v.p.outstate {
      var k: Bytes :| |k| == 128 && Authentic(c, v.got, k) && v.p.outkey == OutHalf(c, k);
      PeerAgrees(c, evs, o, evs', k);
      var d: nat, n: nat :| Agreed(c, v, o, w, k, d, n);
    }
  }
}
