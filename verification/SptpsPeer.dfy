/** What an honest SPTPS peer holds and sends, as a function of how far its handshakes have got.

Each handshake record a peer sends has a position h: 0 is its first KEX, 1 its first SIG, and
from then on every rekeying adds a KEX, a SIG and an ACK.  A peer's state tells how many
handshake records it has sent and received; the position tells which record it is and under
which key it travels.
*/
module SptpsPeer {
  import opened Common
  import opened SptpsSpec

  /** Two configurations that belong together. */
  ghost predicate Paired(c: Config, o: Config) {
    && c.crypto == o.crypto && c.crypto.Lawful() && c.tag == o.tag && c.initiator != o.initiator
    && c.hiskey == c.crypto.verifyKey(o.mykey) && o.hiskey == c.crypto.verifyKey(c.mykey)
    && (forall n :: |c.tape(n).nonce| == 32 && |o.tape(n).nonce| == 32)
  }

  /** The n-th KEX record of a peer. */
  function KexN(c: Config, n: nat): Bytes {
    KexOf(c.crypto, c.tape(n))
  }

  /** The n-th key material of two peers. */
  function KeyN(c: Config, o: Config, n: nat): Bytes {
    var i, r := if c.initiator then c else o, if c.initiator then o else c;
    c.crypto.prf(c.crypto.ecdhShared(i.tape(n).secret, c.crypto.ecdhPublic(r.tape(n).secret)),
                 EXPANSION + i.tape(n).nonce + r.tape(n).nonce + c.tag)
  }

  /** The key this peer sends under once it has sent the n-th ACK. */
  function OutKeyN(c: Config, o: Config, n: nat): Bytes {
    var k := KeyN(c, o, n);
    if |k| != 2 * KEY_SIZE then [] else if c.initiator then Key1(k) else Key0(k)
  }

  /** The key this peer receives under once it has received the n-th ACK. */
  function InKeyN(c: Config, o: Config, n: nat): Bytes {
    var k := KeyN(c, o, n);
    if |k| != 2 * KEY_SIZE then [] else if c.initiator then Key0(k) else Key1(k)
  }

  /** Both ends agree on the keys of each direction. */
  lemma KeysAgree(c: Config, o: Config, n: nat)
    requires Paired(c, o)
    ensures KeyN(c, o, n) == KeyN(o, c, n)
    ensures InKeyN(c, o, n) == OutKeyN(o, c, n)
  {
  }

  /** The position at which the n-th handshake begins. */
  function Base(n: nat): nat {
    if n == 0 then 0 else 3 * n - 1
  }

  /** The handshake the peer is in, or finished last. */
  function Current(p: Peer): nat {
    if p.drawn == 0 then 0 else p.drawn - 1
  }

  /** How many handshake records the peer has received. */
  function Recv(p: Peer): nat {
    match p.state
    case Kex => Base(Current(p))
    case Sig => Base(Current(p)) + 1
    case Ack => Base(Current(p)) + 2
    case SecondaryKex => Base(p.drawn)
  }

  /** How many handshake records the peer has sent. */
  function Sent(c: Config, p: Peer): nat {
    match p.state
    case Kex => Base(Current(p)) + 1
    case Sig => Base(Current(p)) + if c.initiator then 2 else 1
    case Ack => Base(Current(p)) + 3
    case SecondaryKex => Base(p.drawn)
  }

  /** The handshake record at position h. */
  function HandshakeData(c: Config, o: Config, h: nat): Bytes {
    var n := if h < 2 then 0 else (h + 1) / 3;
    if h == Base(n) then KexN(c, n)
    else if h == Base(n) + 1 then c.crypto.sign(c.mykey, SigMessage(c.initiator, KexN(c, n), KexN(o, n), c.tag))
    else []
  }

  /** The bytes of a record sent after h handshake records: plain before the first two, then
      under the key of the last finished exchange. */
  function WireAt(c: Config, o: Config, h: nat, seqno: nat, r: Record): Bytes
    requires Fits(r)
  {
    Wire(c.crypto, h >= 2, if h >= 2 then OutKeyN(c, o, (h - 2) / 3) else [], seqno, r)
  }

  function Plus(n: nat, k: nat): nat {
    (n + k) % 0x1_0000_0000
  }

  /** The secrets an honest peer keeps in each state. */
  ghost predicate SecretsOk(c: Config, o: Config, p: Peer) {
    && p.drawn >= 1
    && var n := p.drawn - 1;
       && (if p.state == Kex || p.state == Sig
           then p.mykex == Some(KexN(c, n)) && p.ecdh == Some(c.tape(n).secret)
           else p.mykex == None)
       && p.hiskex == (if p.state == Sig then Some(KexN(o, n)) else None)
       && p.key == (if p.state == Ack then Some(KeyN(c, o, n)) else None)
  }

  /** The keys an honest peer uses in each state. */
  ghost predicate CiphersOk(c: Config, o: Config, p: Peer) {
    && p.drawn >= 1
    && var n := p.drawn - 1;
       && p.outstate == p.instate == (n >= 1 || p.state == SecondaryKex)
       && (p.state == Ack ==> n >= 1)
       && (p.outstate ==> p.outkey == OutKeyN(c, o, if p.state == Ack || p.state == SecondaryKex then n else n - 1))
       && (p.instate ==> p.inkey == InKeyN(c, o, if p.state == SecondaryKex then n else n - 1))
  }

  ghost predicate PeerOk(c: Config, o: Config, p: Peer) {
    && SecretsOk(c, o, p) && CiphersOk(c, o, p)
    && p.outseqno < 0x1_0000_0000 && p.inseqno < 0x1_0000_0000
  }

  /** The bytes of the handshake records from position h on. */
  ghost predicate EmitsFrom(c: Config, o: Config, h: nat, seqno: nat, sent: seq<Bytes>) {
    forall i | 0 <= i < |sent| ::
      && |HandshakeData(c, o, h + i)| < 0x1_0000
      && sent[i] == WireAt(c, o, h + i, Plus(seqno, i), Record(SPTPS_HANDSHAKE, HandshakeData(c, o, h + i)))
  }

  /** The peer moved from `p` to `p'` and sent exactly the handshake records in between. */
  ghost predicate Emitted(c: Config, o: Config, p: Peer, p': Peer, sent: seq<Bytes>) {
    && Sent(c, p') == Sent(c, p) + |sent|
    && p'.outseqno == Plus(p.outseqno, |sent|)
    && p'.inseqno == p.inseqno
    && EmitsFrom(c, o, Sent(c, p), p.outseqno, sent)
  }

  /** The step is accepted and leaves an honest peer that has received one more record. */
  ghost predicate Accepted(c: Config, o: Config, p: Peer, s: Step) {
    && s.Next?
    && PeerOk(c, o, s.peer)
    && Recv(s.peer) == Recv(p) + 1
    && Emitted(c, o, p, s.peer, s.sent)
    && (forall r <- s.up :: r == Record(SPTPS_HANDSHAKE, []))
  }

  lemma KexShape(c: Config, o: Config, n: nat)
    requires Paired(c, o)
    ensures |KexN(c, n)| == KEX_SIZE && KexN(c, n)[0] == SPTPS_VERSION
    ensures Nonce(KexN(c, n)) == c.tape(n).nonce
    ensures PublicKey(KexN(c, n)) == c.crypto.ecdhPublic(c.tape(n).secret)
  {
  }

  /** What is at the positions of the n-th handshake. */
  lemma Positions(c: Config, o: Config, n: nat)
    ensures HandshakeData(c, o, Base(n)) == KexN(c, n)
    ensures HandshakeData(c, o, Base(n) + 1) ==
            c.crypto.sign(c.mykey, SigMessage(c.initiator, KexN(c, n), KexN(o, n), c.tag))
    ensures n >= 1 ==> HandshakeData(c, o, Base(n) + 2) == []
  {
  }

  /** Outside the initiator's first SIG state, what is sent next is encrypted as its position says. */
  lemma WireMatches(c: Config, o: Config, p: Peer, r: Record, seqno: nat)
    requires CiphersOk(c, o, p) && Fits(r)
    requires !(c.initiator && p.state == Sig && !p.outstate)
    ensures Wire(c.crypto, p.outstate, p.outkey, seqno, r) == WireAt(c, o, Sent(c, p), seqno, r)
  {
  }

  lemma ForceKexEmits(c: Config, o: Config, p: Peer)
    requires Paired(c, o) && PeerOk(c, o, p) && p.state == SecondaryKex
    ensures var s := ForceKex(c, p);
            && s.Next? && s.up == [] && s.peer.drawn == p.drawn + 1
            && PeerOk(c, o, s.peer) && Recv(s.peer) == Recv(p) && Emitted(c, o, p, s.peer, s.sent)
  {
    hide KexOf, KeyN, OutKeyN, InKeyN, HandshakeData, WireAt, Wire, SigMessage;
    KexShape(c, o, p.drawn);
    Positions(c, o, p.drawn);
    WireMatches(c, o, p, Record(SPTPS_HANDSHAKE, KexN(c, p.drawn)), p.outseqno);
  }

  /** The peer's KEX is accepted by a peer that has sent its own. */
  lemma AcceptKex(c: Config, o: Config, p: Peer)
    requires Paired(c, o) && PeerOk(c, o, p) && p.state == Kex
    ensures Accepted(c, o, p, ReceiveHandshake(c, p, HandshakeData(o, c, Recv(p))))
  {
    hide KexN, KeyN, OutKeyN, InKeyN, HandshakeData, WireAt, Wire, SigMessage;
    var n := p.drawn - 1;
    KexShape(o, c, n);
    Positions(o, c, n);
    Positions(c, o, n);
    if c.initiator {
      var sig := HandshakeData(c, o, Base(n) + 1);
      WireMatches(c, o, p, Record(SPTPS_HANDSHAKE, sig), p.outseqno);
    }
  }

  /** Answering a KEX out of the blue is forcing our own first. */
  lemma SecondaryIsForced(c: Config, p: Peer, data: Bytes)
    requires p.state == SecondaryKex && p.outstate && ForceKex(c, p).Next?
    ensures var f := ForceKex(c, p);
            var s := ReceiveHandshake(c, f.peer, data);
            ReceiveHandshake(c, p, data) == if s.Error? then Error else Next(s.peer, f.sent + s.sent, s.up)
  {
    hide Wire, KexOf, SigMessage;
    var f := ForceKex(c, p);
    var k := SendKex(c, p);
    assert k.Next? && k.sent == f.sent && k.peer.(state := Kex) == f.peer;
    assert ReceiveKex(c, k.peer, data).Error? <==> ReceiveKex(c, f.peer, data).Error?;
  }

  lemma EmitsConcat(c: Config, o: Config, h: nat, seqno: nat, sent1: seq<Bytes>, sent2: seq<Bytes>)
    requires EmitsFrom(c, o, h, seqno, sent1) && EmitsFrom(c, o, h + |sent1|, Plus(seqno, |sent1|), sent2)
    ensures EmitsFrom(c, o, h, seqno, sent1 + sent2)
  {
    hide HandshakeData, WireAt;
    var sent := sent1 + sent2;
    forall i | 0 <= i < |sent|
      ensures |HandshakeData(c, o, h + i)| < 0x1_0000
      ensures sent[i] == WireAt(c, o, h + i, Plus(seqno, i), Record(SPTPS_HANDSHAKE, HandshakeData(c, o, h + i)))
    {
      if i < |sent1| {
        assert sent[i] == sent1[i];
      } else {
        var j := i - |sent1|;
        PlusPlus(seqno, |sent1|, j);
        assert sent[i] == sent2[j] && h + |sent1| + j == h + i;
      }
    }
  }

  lemma EmittedCompose(c: Config, o: Config, p: Peer, p1: Peer, p2: Peer, sent1: seq<Bytes>, sent2: seq<Bytes>)
    requires Emitted(c, o, p, p1, sent1) && Emitted(c, o, p1, p2, sent2)
    ensures Emitted(c, o, p, p2, sent1 + sent2)
  {
    hide EmitsFrom, Sent;
    EmitsConcat(c, o, Sent(c, p), p.outseqno, sent1, sent2);
    PlusPlus(p.outseqno, |sent1|, |sent2|);
  }

  lemma PlusPlus(n: nat, j: nat, k: nat)
    ensures Plus(Plus(n, j), k) == Plus(n, j + k)
  {
  }

  lemma AcceptSecondary(c: Config, o: Config, p: Peer)
    requires Paired(c, o) && PeerOk(c, o, p) && p.state == SecondaryKex
    ensures Accepted(c, o, p, ReceiveHandshake(c, p, HandshakeData(o, c, Recv(p))))
  {
    hide ForceKex, ReceiveHandshake, HandshakeData, WireAt, SecretsOk, Emitted;
    ForceKexEmits(c, o, p);
    var f := ForceKex(c, p);
    AcceptKex(c, o, f.peer);
    SecondaryIsForced(c, p, HandshakeData(o, c, Recv(p)));
    var s := ReceiveHandshake(c, f.peer, HandshakeData(o, c, Recv(p)));
    EmittedCompose(c, o, p, f.peer, s.peer, f.sent, s.sent);
  }

  /** An ACK is accepted by a peer that waits for it. */
  lemma AcceptAck(c: Config, o: Config, p: Peer)
    requires Paired(c, o) && PeerOk(c, o, p) && p.state == Ack
    ensures Accepted(c, o, p, ReceiveHandshake(c, p, HandshakeData(o, c, Recv(p))))
  {
    hide KexN, HandshakeData, WireAt;
    var n := p.drawn - 1;
    Positions(o, c, n);
    KeysAgree(c, o, n);
  }

  /** The signature covers what both ends hold, so it verifies, and both ends derive the same keys. */
  lemma SigChecks(c: Config, o: Config, p: Peer)
    requires Paired(c, o) && SecretsOk(c, o, p) && p.state == Sig
    ensures var n := p.drawn - 1;
            var sig := HandshakeData(o, c, Recv(p));
            && |sig| == SIG_SIZE && |KexN(c, n)| == |KexN(o, n)| == KEX_SIZE
            && c.crypto.verify(c.hiskey, SigMessage(!c.initiator, KexN(o, n), KexN(c, n), c.tag), sig)
            && KeyMaterial(c, c.crypto.ecdhShared(c.tape(n).secret, PublicKey(KexN(o, n))), KexN(c, n), KexN(o, n)) ==
               KeyN(c, o, n)
            && |KeyN(c, o, n)| == 2 * KEY_SIZE
  {
    hide KexN, HandshakeData, SigMessage;
    var n := p.drawn - 1;
    KexShape(c, o, n);
    KexShape(o, c, n);
    Positions(o, c, n);
  }

  /** What receive_sig does for an honest peer. */
  lemma SigStep(c: Config, o: Config, p: Peer)
    requires Paired(c, o) && SecretsOk(c, o, p) && p.state == Sig
    ensures var n := p.drawn - 1;
            var p1 := p.(ecdh := None, key := Some(KeyN(c, o, n)));
            var s1 := if c.initiator then Next(p1, [], []) else SendSig(c, p1);
            && s1.Next?
            && var p2 := s1.peer.(mykex := None, hiskex := None);
               var s2 := if p2.outstate then SendHandshake(c, p2, []) else Next(p2, [], []);
               ReceiveSig(c, p, HandshakeData(o, c, Recv(p))) ==
                 Next(s2.peer.(outkey := OutKeyN(c, o, n)), s1.sent + s2.sent, [])
  {
    hide KexN, HandshakeData, SigMessage, KeyN, KeyMaterial, Wire;
    SigChecks(c, o, p);
    var n := p.drawn - 1;
    if !c.initiator {
      Positions(c, o, n);
      assert |c.crypto.sign(c.mykey, SigMessage(c.initiator, KexN(c, n), KexN(o, n), c.tag))| == SIG_SIZE;
    }
  }

  /** While waiting for a signature everything still goes out under the previous key. */
  lemma SigWire(c: Config, o: Config, p: Peer, h: nat, seqno: nat, r: Record)
    requires CiphersOk(c, o, p) && p.state == Sig && Fits(r)
    requires h == Base(p.drawn - 1) + 1 || (h == Base(p.drawn - 1) + 2 && p.outstate)
    ensures Wire(c.crypto, p.outstate, p.outkey, seqno, r) == WireAt(c, o, h, seqno, r)
  {
    hide OutKeyN;
  }

  /** receive_sig sends the signature, if it is the responder's turn, and then an acknowledgement if
      there are keys already. */
  lemma SigRecords(c: Config, o: Config, p: Peer)
    requires Paired(c, o) && PeerOk(c, o, p) && p.state == Sig
    ensures var s, n := ReceiveSig(c, p, HandshakeData(o, c, Recv(p))), p.drawn - 1;
            var sig := HandshakeData(c, o, Base(n) + 1);
            var turn := if c.initiator then 0 else 1;
            && s.Next? && |sig| == SIG_SIZE
            && s.sent == (if turn == 0 then []
                          else [WireAt(c, o, Base(n) + 1, p.outseqno, Record(SPTPS_HANDSHAKE, sig))])
                         + (if !p.outstate then []
                            else [WireAt(c, o, Base(n) + 2, Plus(p.outseqno, turn), Record(SPTPS_HANDSHAKE, []))])
            && s.peer == p.(ecdh := None, mykex := None, hiskex := None, key := Some(KeyN(c, o, n)),
                            outkey := OutKeyN(c, o, n), outseqno := Plus(p.outseqno, |s.sent|))
  {
    hide KexN, HandshakeData, SigMessage, KeyN, OutKeyN, WireAt, Wire, ReceiveSig;
    var n := p.drawn - 1;
    SigStep(c, o, p);
    Positions(c, o, n);
    var sig := Record(SPTPS_HANDSHAKE, HandshakeData(c, o, Base(n) + 1));
    assert |sig.data| == SIG_SIZE;
    if !c.initiator {
      SigWire(c, o, p, Base(n) + 1, p.outseqno, sig);
    }
    if p.outstate {
      SigWire(c, o, p, Base(n) + 2, Plus(p.outseqno, if c.initiator then 0 else 1), Record(SPTPS_HANDSHAKE, []));
    }
  }

  /** The records receive_sig sends are the ones at the peer's next positions. */
  lemma SigEmits(c: Config, o: Config, p: Peer)
    requires Paired(c, o) && PeerOk(c, o, p) && p.state == Sig
    ensures var s := ReceiveSig(c, p, HandshakeData(o, c, Recv(p)));
            && s.Next?
            && |s.sent| == (if c.initiator then 0 else 1) + (if p.outstate then 1 else 0)
            && EmitsFrom(c, o, Sent(c, p), p.outseqno, s.sent)
            && s.peer == p.(ecdh := None, mykex := None, hiskex := None, key := Some(KeyN(c, o, p.drawn - 1)),
                            outkey := OutKeyN(c, o, p.drawn - 1), outseqno := Plus(p.outseqno, |s.sent|))
  {
    hide KexN, HandshakeData, SigMessage, KeyN, OutKeyN, WireAt, Wire, ReceiveSig;
    SigRecords(c, o, p);
    Positions(c, o, p.drawn - 1);
    var s := ReceiveSig(c, p, HandshakeData(o, c, Recv(p)));
    forall i | 0 <= i < |s.sent|
      ensures |HandshakeData(c, o, Sent(c, p) + i)| < 0x1_0000
      ensures s.sent[i] == WireAt(c, o, Sent(c, p) + i, Plus(p.outseqno, i),
                                  Record(SPTPS_HANDSHAKE, HandshakeData(c, o, Sent(c, p) + i)))
    {
      assert i == 0 || (i == 1 && !c.initiator && p.outstate);
    }
  }

  /** The peer's signature is accepted; with keys already in use the peer then waits for an ACK,
      otherwise the first handshake is over. */
  lemma AcceptSig(c: Config, o: Config, p: Peer)
    requires Paired(c, o) && PeerOk(c, o, p) && p.state == Sig
    ensures Accepted(c, o, p, ReceiveHandshake(c, p, HandshakeData(o, c, Recv(p))))
  {
    hide KexN, HandshakeData, SigMessage, KeyN, WireAt, Wire, ReceiveSig, Plus, Key0, Key1, EmitsFrom;
    SigEmits(c, o, p);
    KeyLength(c, o, p.drawn - 1);
    PlusBound(p.outseqno, |ReceiveSig(c, p, HandshakeData(o, c, Recv(p))).sent|);
    var s := ReceiveHandshake(c, p, HandshakeData(o, c, Recv(p)));
    assert SecretsOk(c, o, s.peer) && CiphersOk(c, o, s.peer);
  }

  lemma KeyLength(c: Config, o: Config, n: nat)
    requires Paired(c, o)
    ensures |KeyN(c, o, n)| == 2 * KEY_SIZE
  {
  }

  lemma PlusBound(n: nat, k: nat)
    ensures Plus(n, k) < 0x1_0000_0000
  {
  }

  /** No handshake record arrives in a state that rejects it. */
  lemma HandshakeAccepted(c: Config, o: Config, p: Peer)
    requires Paired(c, o) && PeerOk(c, o, p)
    ensures Accepted(c, o, p, ReceiveHandshake(c, p, HandshakeData(o, c, Recv(p))))
  {
    hide *;
    match p.state
    case Kex => AcceptKex(c, o, p);
    case SecondaryKex => AcceptSecondary(c, o, p);
    case Sig => AcceptSig(c, o, p);
    case Ack => AcceptAck(c, o, p);
  }
}
