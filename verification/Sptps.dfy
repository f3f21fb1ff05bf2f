/** The session object of src/sptps.c: its methods update the session field by field.

Every method is proved against the function of the same name in SptpsSpec, or, for incoming
data, against SptpsStream.Feed.  A method that fails returns false and says nothing about the
state it leaves: the caller closes the connection.
*/
module Sptps {
  import opened Common
  import opened SptpsSpec
  import opened SptpsStream

  class Sptps {
    const c: Config

    var state: State
    var instate: bool
    var outstate: bool
    var inkey: Bytes
    var outkey: Bytes
    var inseqno: nat
    var outseqno: nat
    var ecdh: Option<Bytes>
    var mykex: Option<Bytes>
    var hiskex: Option<Bytes>
    var key: Option<Bytes>
    var drawn: nat
    /** The bytes of the record being received. */
    var inbuf: Bytes

    /** Everything handed to send_data, and everything handed to receive_record. */
    var wire: seq<Bytes>
    var up: seq<Record>

    function Session(): Peer
      reads this
    {
      Peer(state, instate, outstate, inkey, outkey, inseqno, outseqno, ecdh, mykex, hiskex, key, drawn)
    }

    /** The method did what the specification says. */
    twostate predicate Did(s: Step)
      reads this
    {
      s.Next? && Session() == s.peer && wire == old(wire) + s.sent && up == old(up) + s.up && inbuf == old(inbuf)
    }

    /** The session before sptps_start sends its first record. */
    constructor (config: Config)
      ensures c == config && Session() == Fresh() && inbuf == [] && wire == [] && up == []
    {
      c := config;
      state, instate, outstate := Kex, false, false;
      inkey, outkey, inseqno, outseqno := [], [], 0, 0;
      ecdh, mykex, hiskex, key, drawn := None, None, None, None, 0;
      inbuf, wire, up := [], [], [];
    }

    /** sptps_start: the rest of it. */
    method Start() returns (ok: bool)
      requires Session() == Fresh()
      modifies this
      ensures ok ==> Did(SptpsSpec.Start(c))
      ensures !ok ==> SptpsSpec.Start(c).Error?
    {
      ok := SendKex();
    }

    method SendRecordPriv(r: Record) returns (ok: bool)
      requires Fits(r)
      modifies this
      ensures ok && Did(SptpsSpec.SendRecordPriv(c, old(Session()), r))
    {
      var seqno := outseqno;
      outseqno := (outseqno + 1) % 0x1_0000_0000;
      var buffer := Length(|r.data|);
      if outstate {
        buffer := buffer + c.crypto.seal(outkey, seqno, r);
      } else {
        buffer := buffer + ([r.kind] + r.data);
      }
      wire := wire + [buffer];
      ok := true;
      assert up == old(up) + [];
    }

    method SendRecord(r: Record) returns (ok: bool)
      requires Fits(r)
      modifies this
      ensures ok ==> Did(SptpsSpec.SendRecord(c, old(Session()), r))
      ensures !ok ==>
                && SptpsSpec.SendRecord(c, old(Session()), r).Error?
                && Session() == old(Session()) && wire == old(wire)
    {
      if !outstate {
        return false;
      }
      if r.kind >= SPTPS_HANDSHAKE {
        return false;
      }
      ok := SendRecordPriv(r);
    }

    method SendKex() returns (ok: bool)
      modifies this
      ensures ok ==> Did(SptpsSpec.SendKex(c, old(Session())))
      ensures !ok ==> SptpsSpec.SendKex(c, old(Session())).Error?
    {
      if mykex.Some? {
        return false;
      }
      hide Wire, KexOf;
      var d := c.tape(drawn);
      drawn := drawn + 1;
      mykex := Some(KexOf(c.crypto, d));
      ecdh := Some(d.secret);
      if |mykex.value| >= 0x1_0000 {
        return false;
      }
      ok := SendRecordPriv(Record(SPTPS_HANDSHAKE, mykex.value));
    }

    method SendSig() returns (ok: bool)
      modifies this
      ensures ok ==> Did(SptpsSpec.SendSig(c, old(Session())))
      ensures !ok ==> SptpsSpec.SendSig(c, old(Session())).Error?
    {
      if mykex.None? || hiskex.None? {
        return false;
      }
      var sig := c.crypto.sign(c.mykey, SigMessage(c.initiator, mykex.value, hiskex.value, c.tag));
      if |sig| >= 0x1_0000 {
        return false;
      }
      ok := SendRecordPriv(Record(SPTPS_HANDSHAKE, sig));
    }

    method ReceiveAck(data: Bytes) returns (ok: bool)
      modifies this
      ensures ok ==> Did(SptpsSpec.ReceiveAck(c, old(Session()), data))
      ensures !ok ==> SptpsSpec.ReceiveAck(c, old(Session()), data).Error?
    {
      if data != [] || key.None? || |key.value| != 2 * KEY_SIZE {
        return false;
      }
      inkey := if c.initiator then Key0(key.value) else Key1(key.value);
      key := None;
      instate := true;
      ok := true;
      assert wire == old(wire) + [] && up == old(up) + [];
    }

    method ReceiveKex(data: Bytes) returns (ok: bool)
      modifies this
      ensures ok ==> Did(SptpsSpec.ReceiveKex(c, old(Session()), data))
      ensures !ok ==> SptpsSpec.ReceiveKex(c, old(Session()), data).Error?
    {
      if |data| != KEX_SIZE {
        return false;
      }
      if data[0] != SPTPS_VERSION {
        return false;
      }
      if hiskex.Some? {
        return false;
      }
      hiskex := Some(data);
      if c.initiator {
        ok := SendSig();
      } else {
        ok := true;
        assert wire == old(wire) + [] && up == old(up) + [];
      }
    }

    method ReceiveSig(data: Bytes) returns (ok: bool)
      modifies this
      ensures ok ==> Did(SptpsSpec.ReceiveSig(c, old(Session()), data))
      ensures !ok ==> SptpsSpec.ReceiveSig(c, old(Session()), data).Error?
    {
      if |data| != SIG_SIZE || mykex.None? || hiskex.None? || ecdh.None? || |mykex.value| != KEX_SIZE
         || |hiskex.value| != KEX_SIZE {
        return false;
      }
      if !c.crypto.verify(c.hiskey, SigMessage(!c.initiator, hiskex.value, mykex.value, c.tag), data) {
        return false;
      }
      var shared := c.crypto.ecdhShared(ecdh.value, PublicKey(hiskex.value));
      ecdh := None;
      var k := KeyMaterial(c, shared, mykex.value, hiskex.value);
      if |k| != 2 * KEY_SIZE {
        return false;
      }
      key := Some(k);
      ok := SwitchKeys(k);
    }

    method SwitchKeys(k: Bytes) returns (ok: bool)
      requires |k| == 2 * KEY_SIZE
      modifies this
      ensures ok ==> Did(SptpsSpec.SwitchKeys(c, old(Session()), k))
      ensures !ok ==> SptpsSpec.SwitchKeys(c, old(Session()), k).Error?
    {
      hide SptpsSpec.SendSig, Key0, Key1, Wire;
      ghost var s1 := Next(Session(), [], []);
      if !c.initiator {
        s1 := SptpsSpec.SendSig(c, Session());
        ok := SendSig();
        if !ok {
          return;
        }
      }
      mykex := None;
      hiskex := None;
      ghost var s2 := Next(Session(), [], []);
      if outstate {
        s2 := SptpsSpec.SendHandshake(c, Session(), []);
        ok := SendRecordPriv(Record(SPTPS_HANDSHAKE, []));
      }
      outkey := if c.initiator then Key1(k) else Key0(k);
      ok := true;
      assert wire == old(wire) + (s1.sent + s2.sent) && up == old(up) + [];
    }

    method ForceKex() returns (ok: bool)
      modifies this
      ensures ok ==> Did(SptpsSpec.ForceKex(c, old(Session())))
      ensures !ok ==> SptpsSpec.ForceKex(c, old(Session())).Error?
    {
      if !outstate || state != SecondaryKex {
        return false;
      }
      state := Kex;
      ok := SendKex();
    }

    method ReceiveHandshake(data: Bytes) returns (ok: bool)
      modifies this
      ensures ok ==> Did(SptpsSpec.ReceiveHandshake(c, old(Session()), data))
      ensures !ok ==> SptpsSpec.ReceiveHandshake(c, old(Session()), data).Error?
    {
      hide SptpsSpec.ReceiveSig, SptpsSpec.ReceiveKex, SptpsSpec.SendKex, Key0, Key1;
      match state
      case SecondaryKex =>
        ok := ReceiveSecondaryKex(data);
      case Kex =>
        ok := ReceiveKex(data);
        state := Sig;
        assert ok ==> up == old(up) + [];
      case Sig =>
        ok := ReceiveSig(data);
        if !ok {
          return;
        }
        if outstate {
          state := Ack;
          assert up == old(up) + [];
        } else {
          outstate := true;
          ok := ReceiveAck([]);
          up := up + [Record(SPTPS_HANDSHAKE, [])];
          state := SecondaryKex;
        }
      case Ack =>
        ok := ReceiveAck(data);
        up := up + [Record(SPTPS_HANDSHAKE, [])];
        state := SecondaryKex;
    }

    /** The peer asks for a rekeying: answer with our own KEX, then handle its. */
    method ReceiveSecondaryKex(data: Bytes) returns (ok: bool)
      requires state == SecondaryKex
      modifies this
      ensures ok ==> Did(SptpsSpec.ReceiveHandshake(c, old(Session()), data))
      ensures !ok ==> SptpsSpec.ReceiveHandshake(c, old(Session()), data).Error?
    {
      hide SptpsSpec.SendKex, SptpsSpec.ReceiveKex;
      ghost var s1 := SptpsSpec.SendKex(c, Session());
      ok := SendKex();
      if !ok {
        return;
      }
      ghost var s2 := SptpsSpec.ReceiveKex(c, Session(), data);
      ok := ReceiveKex(data);
      if !ok {
        return;
      }
      state := Sig;
      assert wire == old(wire) + (s1.sent + s2.sent) && up == old(up) + [];
    }

    /** A whole record has been collected: count it, decrypt it, handle it. */
    method HandleRecord() returns (ok: bool)
      requires |inbuf| >= 2
      modifies this
      ensures ok ==> Receive(c, old(Session()), old(inbuf)[2..]).Next?
      ensures ok ==> var s := Receive(c, old(Session()), old(inbuf)[2..]);
                     Session() == s.peer && wire == old(wire) + s.sent && up == old(up) + s.up && inbuf == []
      ensures !ok ==> Receive(c, old(Session()), old(inbuf)[2..]).Error?
    {
      hide SptpsSpec.ReceiveHandshake;
      var decoded := Decode(c, Session(), inbuf[2..]);
      inseqno := (inseqno + 1) % 0x1_0000_0000;
      if decoded.None? {
        return false;
      }
      var r := decoded.value;
      if r.kind < SPTPS_HANDSHAKE {
        if !instate {
          return false;
        }
        up := up + [r];
        ok := true;
        assert wire == old(wire) + [];
      } else if r.kind == SPTPS_HANDSHAKE {
        ok := ReceiveHandshake(r.data);
      } else {
        return false;
      }
      inbuf := [];
    }

    function Now(): Stream
      reads this
    {
      Stream(Session(), inbuf)
    }

    /** The bytes have been fed to the session. */
    twostate predicate Took(f: Fed)
      reads this
    {
      f.Fed? && Now() == f.s && wire == old(wire) + f.sent && up == old(up) + f.up && !Complete(Session(), inbuf)
    }

    /** sptps_receive_data: take bytes up to the end of the current record, and handle the record
        if it is complete.  At least one byte is taken unless there is none or an error occurs. */
    method ReceiveData(data: Bytes) returns (ok: bool, read: nat)
      requires !Complete(Session(), inbuf)
      modifies this
      ensures read <= |data|
      ensures ok ==> (data != [] ==> read >= 1) && Took(Feed(c, old(Now()), data[..read]))
      ensures !ok ==> Feed(c, old(Now()), data[..read]).Broken?
    {
      hide FeedByte, Receive;
      ghost var s0 := Now();
      read := 0;
      if |inbuf| < 2 {
        read := if 2 - |inbuf| > |data| then |data| else 2 - |inbuf|;
        inbuf := inbuf + data[..read];
        if |inbuf| < 2 || read == |data| {
          Collected(c, s0, data, read);
          return true, read;
        }
      }
      var missing := RecordSize(Session(), RecLen(inbuf)) - |inbuf|;
      var toread := if missing > |data| - read then |data| - read else missing;
      inbuf := inbuf + data[read..read + toread];
      read := read + toread;
      assert inbuf == s0.inbuf + data[..read];
      if |inbuf| < RecordSize(Session(), RecLen(inbuf)) {
        Collected(c, s0, data, read);
        return true, read;
      }
      ghost var w := inbuf;
      FeedRecord(c, s0.p, w, |s0.inbuf|);
      assert w[..|s0.inbuf|] == s0.inbuf && w[|s0.inbuf|..] == data[..read];
      ok := HandleRecord();
    }

    /** Feed a whole piece of the stream, as the caller does in a loop on the return value. */
    method ReceiveAll(data: Bytes) returns (ok: bool)
      requires !Complete(Session(), inbuf)
      modifies this
      ensures ok ==> Took(Feed(c, old(Now()), data))
      ensures !ok ==> Feed(c, old(Now()), data).Broken?
    {
      hide FeedByte, Feed;
      var done := 0;
      FeedNothing(c, Now());
      assert data[..0] == [] && wire == old(wire) + [] && up == old(up) + [];
      while done < |data|
        invariant 0 <= done <= |data|
        invariant Took(Feed(c, old(Now()), data[..done]))
      {
        ghost var f, s := Feed(c, old(Now()), data[..done]), Now();
        var n;
        ok, n := ReceiveData(data[done..]);
        ghost var g := Feed(c, s, data[done..][..n]);
        FeedConcat(c, old(Now()), data[..done], data[done..][..n]);
        assert data[..done] + data[done..][..n] == data[..done + n];
        if !ok {
          BrokenStays(c, old(Now()), data, done + n);
          return;
        }
        assert old(wire) + f.sent + g.sent == old(wire) + (f.sent + g.sent);
        assert old(up) + f.up + g.up == old(up) + (f.up + g.up);
        done := done + n;
      }
      assert data[..done] == data;
      ok := true;
    }
  }

  /** Bytes that leave the record incomplete. */
  lemma Collected(c: Config, s: Stream, data: Bytes, read: nat)
    requires read <= |data| && !Complete(s.p, s.inbuf + data[..read])
    ensures Feed(c, s, data[..read]) == Fed(Stream(s.p, s.inbuf + data[..read]), [], [])
  {
    var d := data[..read];
    forall k | 0 <= k <= |d|
      ensures !Complete(s.p, s.inbuf + d[..k])
    {
      IncompletePrefix(s.p, s.inbuf + d, |s.inbuf| + k);
      assert (s.inbuf + d)[..|s.inbuf| + k] == s.inbuf + d[..k];
    }
    FeedPartial(c, s, d);
  }

  lemma FeedNothing(c: Config, s: Stream)
    ensures Feed(c, s, []) == Fed(s, [], [])
  {
  }
}
