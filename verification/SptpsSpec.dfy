/** SPTPS, the session protocol of src/sptps.c, as functions on the session state.

The primitives are parameters: any functions that obey the laws in `Lawful`.
Random draws come from a tape, so the n-th key exchange of a peer is a function of n.
*/
module SptpsSpec {

  import opened Common

  const SPTPS_VERSION: byte := 0
  const SPTPS_HANDSHAKE: byte := 128
  const KEX_SIZE := 65
  const SIG_SIZE := 64
  const KEY_SIZE := 64

  /** A record: its type and its payload. */
  datatype Record = Record(kind: byte, data: Bytes)

  /** A fresh nonce and ECDH secret. */
  datatype Draw = Draw(nonce: Bytes, secret: Bytes)

  datatype Crypto = Crypto(
    ecdhPublic: Bytes -> Bytes,
    ecdhShared: (Bytes, Bytes) -> Bytes,
    verifyKey: Bytes -> Bytes,
    sign: (Bytes, Bytes) -> Bytes,
    verify: (Bytes, Bytes, Bytes) -> bool,
    prf: (Bytes, Bytes) -> Bytes,
    seal: (Bytes, nat, Record) -> Bytes,
    open: (Bytes, nat, Bytes) -> Option<Record>)
  {
    /** ECDH commutes, signatures verify, and decryption undoes encryption under the same key
        and sequence number. */
    ghost predicate Lawful() {
      && (forall a, b :: ecdhShared(a, ecdhPublic(b)) == ecdhShared(b, ecdhPublic(a)))
      && (forall a :: |ecdhPublic(a)| == 32)
      && (forall k, m :: verify(verifyKey(k), m, sign(k, m)) && |sign(k, m)| == SIG_SIZE)
      && (forall s, m :: |prf(s, m)| == 2 * KEY_SIZE)
      && (forall k, n, r :: open(k, n, seal(k, n, r)) == Some(r) && |seal(k, n, r)| == |r.data| + 17)
    }
  }

  /** What does not change during a session. */
  datatype Config = Config(crypto: Crypto, tape: nat -> Draw, mykey: Bytes, hiskey: Bytes, tag: Bytes, initiator: bool)

  datatype State = Kex | SecondaryKex | Sig | Ack

  /** The session state; `drawn` counts the key exchanges taken from the tape. */
  datatype Peer = Peer(
    state: State, instate: bool, outstate: bool, inkey: Bytes, outkey: Bytes, inseqno: nat, outseqno: nat,
    ecdh: Option<Bytes>, mykex: Option<Bytes>, hiskex: Option<Bytes>, key: Option<Bytes>, drawn: nat)

  /** An error, or the new state, the bytes sent record by record, and the records handed up. */
  datatype Step = Error | Next(peer: Peer, sent: seq<Bytes>, up: seq<Record>)

  /** Sequence numbers are 32 bits wide. */
  function Increment(n: nat): nat {
    (n + 1) % 0x1_0000_0000
  }

  /** The two length bytes, most significant first. */
  function Length(n: nat): Bytes
    requires n < 0x1_0000
  {
    [(n / 256) as byte, (n % 256) as byte]
  }

  /** Records carry at most 65535 bytes. */
  predicate Fits(r: Record) {
    |r.data| < 0x1_0000
  }

  /** The bytes of a record: length, then type and payload, encrypted once keys are in use. */
  function Wire(crypto: Crypto, encrypted: bool, key: Bytes, seqno: nat, r: Record): Bytes
    requires Fits(r)
  {
    Length(|r.data|) + if encrypted then crypto.seal(key, seqno, r) else [r.kind] + r.data
  }

  /** send_record_priv */
  function SendRecordPriv(c: Config, p: Peer, r: Record): (s: Step)
    ensures s.Next? ==> s.up == []
  {
    if !Fits(r) then Error
    else Next(p.(outseqno := Increment(p.outseqno)), [Wire(c.crypto, p.outstate, p.outkey, p.outseqno, r)], [])
  }

  /** sptps_send_record: application records need finished keys and a type below 128. */
  function SendRecord(c: Config, p: Peer, r: Record): Step {
    if !p.outstate || r.kind >= SPTPS_HANDSHAKE then Error else SendRecordPriv(c, p, r)
  }

  function SendHandshake(c: Config, p: Peer, data: Bytes): Step {
    SendRecordPriv(c, p, Record(SPTPS_HANDSHAKE, data))
  }

  /** The KEX record of a draw: version, nonce, public key. */
  function KexOf(crypto: Crypto, d: Draw): Bytes {
    [SPTPS_VERSION] + d.nonce + crypto.ecdhPublic(d.secret)
  }

  /** send_kex */
  function SendKex(c: Config, p: Peer): (s: Step)
    ensures s.Next? ==> s.up == []
  {
    if p.mykex.Some? then Error
    else
      var d := c.tape(p.drawn);
      var kex := KexOf(c.crypto, d);
      SendHandshake(c, p.(mykex := Some(kex), ecdh := Some(d.secret), drawn := p.drawn + 1), kex)
  }

  /** What a SIG record signs: who signs, both KEX records, the label. */
  function SigMessage(initiator: bool, kex0: Bytes, kex1: Bytes, tag: Bytes): Bytes {
    [if initiator then 1 else 0] + kex0 + kex1 + tag
  }

  /** send_sig */
  function SendSig(c: Config, p: Peer): (s: Step)
    ensures s.Next? ==> s.up == []
  {
    if p.mykex.None? || p.hiskex.None? then Error
    else SendHandshake(c, p, c.crypto.sign(c.mykey, SigMessage(c.initiator, p.mykex.value, p.hiskex.value, c.tag)))
  }

  function Nonce(kex: Bytes): Bytes
    requires |kex| == KEX_SIZE
  {
    kex[1..33]
  }

  function PublicKey(kex: Bytes): Bytes
    requires |kex| == KEX_SIZE
  {
    kex[33..]
  }

  const EXPANSION: Bytes := [107, 101, 121, 32, 101, 120, 112, 97, 110, 115, 105, 111, 110]

  /** generate_key_material: the PRF of the shared secret over both nonces, the initiator's first. */
  function KeyMaterial(c: Config, shared: Bytes, mykex: Bytes, hiskex: Bytes): Bytes
    requires |mykex| == KEX_SIZE && |hiskex| == KEX_SIZE
  {
    var first, second := if c.initiator then mykex else hiskex, if c.initiator then hiskex else mykex;
    c.crypto.prf(shared, EXPANSION + Nonce(first) + Nonce(second) + c.tag)
  }

  function Key0(key: Bytes): Bytes
    requires |key| == 2 * KEY_SIZE
  {
    key[..KEY_SIZE]
  }

  function Key1(key: Bytes): Bytes
    requires |key| == 2 * KEY_SIZE
  {
    key[KEY_SIZE..]
  }

  /** receive_ack: an empty record; what comes in is now under the new key. */
  function ReceiveAck(c: Config, p: Peer, data: Bytes): (s: Step)
    ensures s.Next? ==> s.up == []
  {
    if data != [] || p.key.None? || |p.key.value| != 2 * KEY_SIZE then Error
    else
      var k := p.key.value;
      Next(p.(inkey := if c.initiator then Key0(k) else Key1(k), key := None, instate := true), [], [])
  }

  /** receive_kex: keep the peer's KEX record; the initiator answers with its signature. */
  function ReceiveKex(c: Config, p: Peer, data: Bytes): (s: Step)
    ensures s.Next? ==> s.up == []
  {
    if |data| != KEX_SIZE || data[0] != SPTPS_VERSION || p.hiskex.Some? then Error
    else
      var p1 := p.(hiskex := Some(data));
      if c.initiator then SendSig(c, p1) else Next(p1, [], [])
  }

  /** receive_sig: check the signature, derive the keys, switch to them for sending. */
  function ReceiveSig(c: Config, p: Peer, data: Bytes): (s: Step)
    ensures s.Next? ==> s.up == []
  {
    if |data| != SIG_SIZE || p.mykex.None? || p.hiskex.None? || p.ecdh.None?
       || |p.mykex.value| != KEX_SIZE || |p.hiskex.value| != KEX_SIZE then Error
    else if !c.crypto.verify(c.hiskey, SigMessage(!c.initiator, p.hiskex.value, p.mykex.value, c.tag), data) then Error
    else
      var k := KeyMaterial(c, c.crypto.ecdhShared(p.ecdh.value, PublicKey(p.hiskex.value)), p.mykex.value,
                           p.hiskex.value);
      if |k| != 2 * KEY_SIZE then Error else SwitchKeys(c, p.(ecdh := None, key := Some(k)), k)
  }

  /** The second half of receive_sig: the responder sends its signature, an ACK goes out under
      the old key if there is one, then the new key is used for sending. */
  function SwitchKeys(c: Config, p: Peer, k: Bytes): Step
    requires |k| == 2 * KEY_SIZE
  {
    var s1 := if c.initiator then Next(p, [], []) else SendSig(c, p);
    if s1.Error? then Error
    else
      var p2 := s1.peer.(mykex := None, hiskex := None);
      var s2 := if p2.outstate then SendHandshake(c, p2, []) else Next(p2, [], []);
      if s2.Error? then Error
      else Next(s2.peer.(outkey := if c.initiator then Key1(k) else Key0(k)), s1.sent + s2.sent, [])
  }

  /** sptps_force_kex */
  function ForceKex(c: Config, p: Peer): Step {
    if !p.outstate || p.state != SecondaryKex then Error else SendKex(c, p.(state := Kex))
  }

  /** receive_handshake */
  function ReceiveHandshake(c: Config, p: Peer, data: Bytes): Step {
    match p.state
    case SecondaryKex =>
      var s1 := SendKex(c, p);
      if s1.Error? then Error
      else
        var s2 := ReceiveKex(c, s1.peer, data);
        if s2.Error? then Error else Next(s2.peer.(state := Sig), s1.sent + s2.sent, [])
    case Kex =>
      var s := ReceiveKex(c, p, data);
      if s.Error? then Error else Next(s.peer.(state := Sig), s.sent, [])
    case Sig =>
      var s := ReceiveSig(c, p, data);
      if s.Error? then Error
      else if s.peer.outstate then Next(s.peer.(state := Ack), s.sent, [])
      else
        var a := ReceiveAck(c, s.peer.(outstate := true), []);
        if a.Error? then Error
        else Next(a.peer.(state := SecondaryKex), s.sent, [Record(SPTPS_HANDSHAKE, [])])
    case Ack =>
      var s := ReceiveAck(c, p, data);
      if s.Error? then Error
      else Next(s.peer.(state := SecondaryKex), [], [Record(SPTPS_HANDSHAKE, [])])
  }

  /** A complete decoded record: application records go up, handshake records are handled. */
  function HandleRecord(c: Config, p: Peer, r: Record): Step {
    if r.kind < SPTPS_HANDSHAKE then
      if !p.instate then Error else Next(p, [], [r])
    else if r.kind == SPTPS_HANDSHAKE then ReceiveHandshake(c, p, r.data)
    else Error
  }

  /** The rest of a record after its length bytes, decrypted once keys are in use. */
  function Decode(c: Config, p: Peer, body: Bytes): Option<Record> {
    if p.instate then c.crypto.open(p.inkey, p.inseqno, body)
    else if body == [] then None
    else Some(Record(body[0], body[1..]))
  }

  /** A complete record arrives. */
  function Receive(c: Config, p: Peer, body: Bytes): Step {
    match Decode(c, p, body)
    case None => Error
    case Some(r) => HandleRecord(c, p.(inseqno := Increment(p.inseqno)), r)
  }

  /** sptps_start: nothing known yet; the first KEX goes out. */
  function Fresh(): Peer {
    Peer(Kex, false, false, [], [], 0, 0, None, None, None, None, 0)
  }

  function Start(c: Config): Step {
    SendKex(c, Fresh())
  }
}
