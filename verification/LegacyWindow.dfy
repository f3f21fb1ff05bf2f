/** The replay window of legacy UDP packets, inside receive_udppacket of src/net_packet.c.

It tracks the last number received instead of the next one expected, and a far-future jump
clears the bitmap, so that nothing skipped by the jump can be accepted any more.
*/
module LegacyWindow {
  import opened BitWindow

  const MAX_SEQNO := 1073741824

  /** The reference: the highest number accepted, the numbers accepted since the keys were set,
      the skipped numbers that may still come in late, and the run of far-future packets. */
  datatype Log = Log(last: nat, seen: set<nat>, open: set<nat>, farfuture: nat)

  predicate Accepts(w: nat, s: Log, seqno: nat) {
    || w == 0
    || seqno == s.last + 1
    || if seqno >= s.last + 8 * w then s.farfuture >= w / 4
       else if seqno <= s.last then s.last - 8 * w < seqno && seqno in s.open
       else true
  }

  /** The numbers strictly between a and b. */
  ghost function Between(a: nat, b: nat): (s: set<nat>)
    ensures forall i: nat :: i in s <==> a < i < b
    decreases b
  {
    if b <= a + 1 then {} else Between(a, b - 1) + {b - 1}
  }

  /** The skipped numbers after an accepted one. */
  ghost function Skipped(w: nat, s: Log, seqno: nat): set<nat> {
    if seqno == s.last + 1 || seqno <= s.last then s.open
    else if seqno >= s.last + 8 * w then {}
    else s.open + Between(s.last, seqno)
  }

  ghost function Next(w: nat, s: Log, seqno: nat): Log {
    if w == 0 then s.(last := Max(s.last, seqno), seen := s.seen + {seqno})
    else if Accepts(w, s, seqno) then
      Log(Max(s.last, seqno), s.seen + {seqno}, Skipped(w, s, seqno) - {seqno}, 0)
    else if seqno != s.last + 1 && seqno >= s.last + 8 * w then s.(farfuture := s.farfuture + 1)
    else s
  }

  /** Skipped numbers were not accepted, and nothing above the last number is known yet. */
  ghost predicate Wf(s: Log) {
    && (forall i <- s.seen :: i <= s.last)
    && (forall i <- s.open :: i <= s.last && i !in s.seen)
  }

  /** The last number was accepted. */
  ghost predicate Started(s: Log) {
    s.last > 0 ==> s.last in s.seen
  }

  lemma NextWf(w: nat, s: Log, seqno: nat)
    requires w > 0 && Wf(s)
    ensures Wf(Next(w, s, seqno)) && (Started(s) ==> Started(Next(w, s, seqno)))
  {
  }

  /** An accepted number is new, and less than a window behind the last one. */
  lemma AcceptedIsNew(w: nat, s: Log, seqno: nat)
    requires w > 0 && Wf(s) && Accepts(w, s, seqno)
    ensures seqno !in s.seen && seqno > s.last - 8 * w
  {
  }

  ghost function Accepted(w: nat, s: Log, run: seq<nat>): seq<nat>
    decreases run
  {
    if run == [] then []
    else (if Accepts(w, s, run[0]) then [run[0]] else []) + Accepted(w, Next(w, s, run[0]), run[1..])
  }

  /** Between key resets no number is accepted twice. */
  lemma {:induction false} NeverTwice(w: nat, s: Log, run: seq<nat>)
    requires w > 0 && Wf(s)
    ensures Fresh(Accepted(w, s, run), s.seen)
    decreases |run|
  {
    if run != [] {
      var t := Next(w, s, run[0]);
      NextWf(w, s, run[0]);
      NeverTwice(w, t, run[1..]);
      var rest := Accepted(w, t, run[1..]);
      if Accepts(w, s, run[0]) {
        AcceptedIsNew(w, s, run[0]);
        FreshCons(run[0], rest, s.seen);
      } else {
        assert [] + rest == rest;
      }
    }
  }

  /** All numbers of the window that have not come may still come. */
  ghost predicate Waiting(w: nat, s: Log) {
    forall i: nat | s.last - 8 * w < i <= s.last && i > 0 && i !in s.seen :: i in s.open
  }

  /** Every number is less than a window away from the last one when it comes. */
  predicate Timely(w: nat, last: nat, run: seq<nat>)
    decreases |run|
  {
    run == [] || (0 < run[0] && last - 8 * w < run[0] < last + 8 * w && Timely(w, Max(last, run[0]), run[1..]))
  }

  lemma TimelyStep(w: nat, s: Log, seqno: nat)
    requires w > 0 && Wf(s) && Waiting(w, s) && 0 < seqno && s.last - 8 * w < seqno < s.last + 8 * w && seqno !in s.seen
    ensures Accepts(w, s, seqno) && Waiting(w, Next(w, s, seqno))
    ensures Next(w, s, seqno).last == Max(s.last, seqno) && Next(w, s, seqno).seen == s.seen + {seqno}
  {
  }

  /** Such numbers are all accepted, in whatever order they come, if each comes once. */
  lemma {:induction false} TimelyAccepted(w: nat, s: Log, run: seq<nat>)
    requires w > 0 && Wf(s) && Waiting(w, s) && Timely(w, s.last, run) && Fresh(run, s.seen)
    ensures Accepted(w, s, run) == run
    decreases |run|
  {
    hide Accepts, Next, Waiting, Wf;
    if run != [] {
      TimelyStep(w, s, run[0]);
      NextWf(w, s, run[0]);
      assert forall i | 0 <= i < |run[1..]| :: run[1..][i] == run[i + 1];
      TimelyAccepted(w, Next(w, s, run[0]), run[1..]);
      assert run == [run[0]] + run[1..];
    }
  }

  /** Inside the window a set bit means that the number may still come in. */
  ghost predicate BitsOk(late: seq<bv8>, last: nat, open: set<nat>)
    requires |late| > 0
  {
    forall i: nat | last - 8 * |late| < i <= last :: Bit(late, i) <==> i in open
  }

  /** The verdict as computed: unsigned 32-bit sums, and the bitmap. */
  predicate Verdict(late: seq<bv8>, last: nat, farfuture: nat, seqno: nat) {
    var w := |late|;
    || w == 0
    || seqno == (last + 1) % WRAP
    || if seqno >= (last + 8 * w) % WRAP then farfuture >= w / 4
       else if seqno <= last then !(last >= 8 * w && seqno <= last - 8 * w) && Bit(late, seqno)
       else true
  }

  lemma VerdictMeaning(late: seq<bv8>, s: Log, seqno: nat)
    requires |late| > 0 ==> BitsOk(late, s.last, s.open)
    requires s.last + 8 * |late| < WRAP
    ensures Verdict(late, s.last, s.farfuture, seqno) <==> Accepts(|late|, s, seqno)
  {
    hide Bit;
    var w := |late|;
    if w > 0 {
      assert (s.last + 8 * w) % WRAP == s.last + 8 * w && (s.last + 1) % WRAP == s.last + 1;
    }
  }

  /** Some number that was accepted before is accepted again exactly if a sum has wrapped: that of
      the window, once enough far-future packets have been counted, or that of the next number,
      which is 0 for ever once it has been accepted. */
  lemma ReplayExactly(late: seq<bv8>, s: Log)
    requires 0 < 8 * |late| < WRAP && s.last < WRAP && Wf(s) && Started(s) && BitsOk(late, s.last, s.open)
    ensures (exists x <- s.seen :: Verdict(late, s.last, s.farfuture, x))
            <==> (s.last + 8 * |late| >= WRAP && s.farfuture >= |late| / 4) || (s.last == WRAP - 1 && 0 in s.seen)
  {
    hide Bit;
    var w := |late|;
    if s.last + 8 * w >= WRAP && s.farfuture >= w / 4 {
      assert (s.last + 8 * w) % WRAP == s.last + 8 * w - WRAP;
      assert s.last in s.seen && Verdict(late, s.last, s.farfuture, s.last);
    }
    if s.last == WRAP - 1 && 0 in s.seen {
      assert Verdict(late, s.last, s.farfuture, 0);
    }
  }

  /** No bit of the window admits a number that was accepted. */
  ghost predicate Sound(late: seq<bv8>, last: nat, seen: set<nat>)
    requires |late| > 0
  {
    forall i: nat | last - 8 * |late| < i <= last :: Bit(late, i) ==> i !in seen
  }

  /** The numbers of the window whose bits are set. */
  ghost function Marked(late: seq<bv8>, last: nat): (r: set<nat>)
    requires |late| > 0
    ensures BitsOk(late, last, r)
  {
    set i: nat | 0 <= i <= last && last - 8 * |late| < i && Bit(late, i)
  }

  lemma SoundReceived(late: seq<bv8>, n: nat, seen: set<nat>, seqno: nat)
    requires |late| > 0 && seqno <= n + 1 && Sound(late, n, seen)
    ensures Sound(ClearBit(late, seqno), Max(n, seqno), seen + {seqno})
  {
    hide Bit, ClearBit;
    var m := Max(n, seqno);
    forall j: nat | m - 8 * |late| < j <= m
      ensures Bit(ClearBit(late, seqno), j) ==> j !in seen + {seqno}
    {
      ClearedBits(late, seqno, j);
    }
  }

  lemma MarkedWf(late: seq<bv8>, last: nat, seen: set<nat>, farfuture: nat)
    requires |late| > 0 && Sound(late, last, seen) && forall i <- seen :: i <= last
    ensures Wf(Log(last, seen, Marked(late, last), farfuture))
  {
  }

  lemma MarkLate(late: seq<bv8>, open: set<nat>, i: nat)
    requires |late| > 0 && BitsOk(late, i, open)
    ensures BitsOk(SetBit(late, i + 1), i + 1, open + {i + 1})
  {
    hide Bit, SetBit;
    var n := i + 1;
    var late', open' := SetBit(late, n), open + {n};
    forall j: nat | n - 8 * |late| < j <= n
      ensures Bit(late', j) <==> j in open'
    {
      OtherBits(late, n, j);
    }
  }

  /** `n` is the last number whose bit is in order; `seqno` is at most one further. */
  lemma MarkReceived(late: seq<bv8>, n: nat, open: set<nat>, seqno: nat)
    requires |late| > 0 && n - 8 * |late| < seqno <= n + 1
    requires BitsOk(late, n, open)
    ensures BitsOk(ClearBit(late, seqno), Max(n, seqno), open - {seqno})
  {
    hide Bit, ClearBit;
    var m := Max(n, seqno);
    forall j: nat | m - 8 * |late| < j <= m
      ensures Bit(ClearBit(late, seqno), j) <==> j in open - {seqno}
    {
      OtherBits(late, seqno, j);
    }
  }

  lemma NoneLate(late: seq<bv8>, n: nat)
    requires |late| > 0 && (forall k | 0 <= k < |late| :: late[k] == 0)
    ensures BitsOk(late, n, {})
  {
    hide Test;
    forall i: nat
      ensures !Bit(late, i)
    {
      FilledBytes(i % 8);
    }
  }

  class LegacyWindow {
    const late: array<bv8>
    var receivedSeqno: nat
    var received: nat
    var farfuture: nat
    ghost var seen: set<nat>
    ghost var open: set<nat>

    ghost function View(): Log
      reads this
    {
      Log(receivedSeqno, seen, open, farfuture)
    }

    ghost predicate Valid()
      reads this, late
    {
      && receivedSeqno < WRAP && Wf(View())
      && (if late.Length > 0 then Started(View()) && BitsOk(late[..], receivedSeqno, open) else open == {})
    }

    constructor (replaywin: nat)
      ensures Valid() && fresh(late) && late.Length == replaywin
      ensures View() == Log(0, {}, {}, 0)
    {
      late := new bv8[replaywin](_ => 0);
      receivedSeqno, received, farfuture, seen, open := 0, 0, 0, {}, {};
      new;
      if replaywin > 0 {
        NoneLate(late[..], 0);
      }
    }

    /** The key has been set anew: numbers start over. */
    method Reset()
      modifies this, late
      ensures Valid() && View() == Log(0, {}, {}, old(farfuture))
    {
      receivedSeqno, received, seen, open := 0, 0, {}, {};
      ClearAll();
      if late.Length > 0 {
        NoneLate(late[..], 0);
      }
    }

    method ClearAll()
      modifies late
      ensures forall k | 0 <= k < late.Length :: late[k] == 0
    {
      forall k | 0 <= k < late.Length {
        late[k] := 0;
      }
    }

    /** Mark the numbers between the last one and `seqno` as late. */
    method MarkGap(seqno: nat)
      requires Valid() && late.Length > 0 && receivedSeqno < seqno
      modifies late
      ensures BitsOk(late[..], seqno - 1, open + Between(receivedSeqno, seqno))
    {
      hide On, Slot, BitsOk;
      var w, i := late.Length, receivedSeqno + 1;
      assert open + Between(receivedSeqno, i) == open;
      while i < seqno
        invariant receivedSeqno < i <= seqno
        invariant BitsOk(late[..], i - 1, open + Between(receivedSeqno, i))
      {
        MarkLate(late[..], open + Between(receivedSeqno, i), i - 1);
        ghost var after := SetBit(late[..], i);
        late[Slot(w, i)] := On(late[Slot(w, i)], i % 8);
        assert late[..] == after;
        assert open + Between(receivedSeqno, i) + {i} == open + Between(receivedSeqno, i + 1);
        i := i + 1;
      }
    }

    /** Mark the number as not being late. */
    method Receive(seqno: nat)
      requires late.Length > 0
      modifies late
      ensures late[..] == ClearBit(old(late[..]), seqno)
    {
      hide On, Off, Slot;
      var w := late.Length;
      late[Slot(w, seqno)] := Off(late[Slot(w, seqno)], seqno % 8);
    }

    /** The verdict, and the bits of the numbers that an accepted one leaves behind. */
    method Judge(seqno: nat) returns (ok: bool)
      requires Valid() && seqno < WRAP && late.Length > 0
      modifies this`farfuture, late
      ensures ok <==> Verdict(old(late[..]), receivedSeqno, old(farfuture), seqno)
      ensures !ok ==> late[..] == old(late[..]) && farfuture == old(farfuture) + Far(late.Length, receivedSeqno, seqno)
      ensures ok ==> Sound(late[..], if seqno <= receivedSeqno then receivedSeqno else seqno - 1, seen)
      ensures ok && receivedSeqno + 8 * late.Length < WRAP ==>
                BitsOk(late[..], if seqno <= receivedSeqno then receivedSeqno else seqno - 1,
                       Skipped(late.Length, old(View()), seqno))
    {
      hide Test, On, Off, Slot, BitsOk, Sound;
      BitsSound(late[..], receivedSeqno, seen, open);
      var w := late.Length;
      ok := true;
      if seqno != (receivedSeqno + 1) % WRAP {
        if seqno >= (receivedSeqno + 8 * w) % WRAP {
          var drop := farfuture < w / 4;
          farfuture := farfuture + 1;
          if drop {
            return false;
          }
          ClearAll();
          NoneLate(late[..], if seqno <= receivedSeqno then receivedSeqno else seqno - 1);
          BitsSound(late[..], if seqno <= receivedSeqno then receivedSeqno else seqno - 1, seen, {});
        } else if seqno <= receivedSeqno {
          BitMeaning(late[..], receivedSeqno, open, seqno);
          if (receivedSeqno >= 8 * w && seqno <= receivedSeqno - 8 * w) || !Test(late[Slot(w, seqno)], seqno % 8) {
            return false;
          }
        } else {
          MarkGap(seqno);
          BitsSound(late[..], seqno - 1, seen, open + Between(receivedSeqno, seqno));
        }
      }
    }

    /** A packet whose authentication code has been checked arrives. */
    method CheckSeqno(seqno: nat) returns (ok: bool, rekey: bool)
      requires Valid() && seqno < WRAP
      modifies this, late
      ensures Valid()
      ensures ok <==> Verdict(old(late[..]), old(receivedSeqno), old(farfuture), seqno)
      ensures !ok ==> late[..] == old(late[..]) && View() == old(View()).(farfuture :=
                old(farfuture) + Far(late.Length, old(receivedSeqno), seqno))
      ensures ok ==> receivedSeqno == Max(old(receivedSeqno), seqno) && seen == old(seen) + {seqno}
      ensures ok && late.Length > 0 ==> farfuture == 0
      ensures received == if ok then (old(received) + 1) % WRAP else old(received)
      ensures old(receivedSeqno) + 8 * late.Length < WRAP ==>
                && (ok <==> Accepts(late.Length, old(View()), seqno))
                && View() == Next(late.Length, old(View()), seqno)
      ensures rekey <==> ok && receivedSeqno > MAX_SEQNO
    {
      hide Test, On, Off, Slot, BitsOk, ClearBit, Verdict, Accepts, Skipped, Between, Wf, Sound, Marked;
      var w := late.Length;
      ok, rekey := true, false;
      ghost var before := View();
      NoWindow(before, seqno);
      assert w == 0 ==> late[..] == [];
      ghost var ranged := receivedSeqno + 8 * w < WRAP;
      if ranged {
        VerdictMeaning(late[..], before, seqno);
      }
      if w > 0 {
        NextWf(w, before, seqno);
        ok := Judge(seqno);
        StillValid(before, farfuture);
        if !ok {
          if ranged {
            Dropped(w, before, seqno);
          }
          return;
        }
        ghost var n := if seqno <= receivedSeqno then receivedSeqno else seqno - 1;
        SoundReceived(late[..], n, seen, seqno);
        if ranged {
          AcceptedIsNew(w, before, seqno);
          MarkReceived(late[..], n, Skipped(w, before, seqno), seqno);
        }
        farfuture := 0;
        Receive(seqno);
        SeenBelow(before, seqno);
        MarkedWf(late[..], Max(receivedSeqno, seqno), seen + {seqno}, 0);
        open := if ranged then Skipped(w, before, seqno) - {seqno} else Marked(late[..], Max(receivedSeqno, seqno));
      }
      if seqno > receivedSeqno {
        receivedSeqno := seqno;
      }
      received := (received + 1) % WRAP;
      seen := seen + {seqno};
      rekey := receivedSeqno > MAX_SEQNO;
    }
  }

  lemma SeenBelow(s: Log, seqno: nat)
    requires Wf(s)
    ensures forall i <- s.seen + {seqno} :: i <= Max(s.last, seqno)
  {
  }

  lemma BitsSound(late: seq<bv8>, last: nat, seen: set<nat>, open: set<nat>)
    requires |late| > 0 && BitsOk(late, last, open) && forall i <- open :: i !in seen
    ensures Sound(late, last, seen)
  {
  }

  /** A run of a new window in which one number is accepted twice: it is far ahead at first, and
      once it has been accepted the sum wraps. */
  method AcceptedTwice(replaywin: nat) returns (first: bool, second: bool)
    requires 0 < replaywin && 8 * replaywin < WRAP - 2
    ensures first && second
  {
    hide BitsOk, Verdict, Wf, Started;
    var seqno, rekey := WRAP - 2, false;
    var w := new LegacyWindow(replaywin);
    Insist(w, seqno);
    FarAccepted(w.late[..], w.receivedSeqno, w.farfuture, seqno);
    first, rekey := w.CheckSeqno(seqno);
    Insist(w, seqno);
    FarAccepted(w.late[..], w.receivedSeqno, w.farfuture, seqno);
    second, rekey := w.CheckSeqno(seqno);
  }

  /** A run in which, after the highest number, number 0 is accepted as often as it comes. */
  method AcceptedForEver(replaywin: nat, times: nat) returns (ok: bool)
    requires 0 < replaywin && 8 * replaywin < WRAP - 1
    ensures ok
  {
    hide BitsOk, Wf, Started, Bit;
    var rekey;
    var w := new LegacyWindow(replaywin);
    Insist(w, WRAP - 1);
    ok, rekey := w.CheckSeqno(WRAP - 1);
    for i := 0 to times
      invariant ok && w.Valid() && w.receivedSeqno == WRAP - 1 && w.farfuture == 0
    {
      ok, rekey := w.CheckSeqno(0);
    }
  }

  lemma FarAccepted(late: seq<bv8>, last: nat, farfuture: nat, seqno: nat)
    requires seqno >= (last + 8 * |late|) % WRAP && farfuture >= |late| / 4
    ensures Verdict(late, last, farfuture, seqno)
  {
  }

  /** Send a number from too far ahead until the next time it will be accepted. */
  method Insist(w: LegacyWindow, seqno: nat)
    requires w.Valid() && w.late.Length > 0 && w.farfuture == 0 && seqno != (w.receivedSeqno + 1) % WRAP
    requires (w.receivedSeqno + 8 * w.late.Length) % WRAP <= seqno < WRAP
    modifies w, w.late
    ensures w.Valid() && w.View() == old(w.View()).(farfuture := w.late.Length / 4)
  {
    hide BitsOk, Wf, Started;
    var ok, rekey;
    for i := 0 to w.late.Length / 4
      invariant w.Valid() && w.View() == old(w.View()).(farfuture := i)
    {
      ok, rekey := w.CheckSeqno(seqno);
    }
  }

  lemma NoWindow(s: Log, seqno: nat)
    ensures Verdict([], s.last, s.farfuture, seqno)
    ensures Wf(s) && s.open == {} ==> Wf(Next(0, s, seqno))
  {
  }

  lemma Dropped(w: nat, s: Log, seqno: nat)
    requires w > 0 && s.last + 8 * w < WRAP && !Accepts(w, s, seqno)
    ensures Next(w, s, seqno) == s.(farfuture := s.farfuture + Far(w, s.last, seqno))
  {
  }

  lemma StillValid(s: Log, f: nat)
    ensures (Wf(s) ==> Wf(s.(farfuture := f))) && (Started(s) ==> Started(s.(farfuture := f)))
  {
  }

  /** A dropped packet from too far ahead is counted. */
  function Far(w: nat, last: nat, seqno: nat): nat {
    if seqno != (last + 1) % WRAP && seqno >= (last + 8 * w) % WRAP then 1 else 0
  }

  lemma BitMeaning(late: seq<bv8>, last: nat, open: set<nat>, i: nat)
    requires |late| > 0 && BitsOk(late, last, open) && i <= last
    ensures last - 8 * |late| < i ==> (Bit(late, i) <==> i in open)
  {
  }
}
