/** The replay window of SPTPS datagrams: sptps_check_seqno of src/sptps.c.

`Seen` is the reference: it remembers every accepted sequence number.  The class keeps the
source's circular bitmap, in which a set bit means "not received yet", and is proved to give
the reference's verdicts as long as the 32-bit arithmetic does not wrap.
*/
module ReplayWindow {
  import opened BitWindow

  /** The next expected number, the numbers accepted so far, and how many far-future packets in
      a row have been dropped. */
  datatype Seen = Seen(inseqno: nat, seen: set<nat>, farfuture: nat)

  /** The verdict on a number, with a window of w bytes. */
  predicate Accepts(w: nat, s: Seen, seqno: nat) {
    || w == 0
    || s.inseqno <= seqno < s.inseqno + 8 * w
    || (seqno >= s.inseqno + 8 * w && s.farfuture >= w / 4)
    || (s.inseqno - 8 * w <= seqno < s.inseqno && seqno !in s.seen)
  }

  /** What a number does to the reference: an accepted one is remembered, a rejected one only
      counts if it came from too far ahead. */
  function Next(w: nat, s: Seen, seqno: nat): Seen {
    if Accepts(w, s, seqno) then Seen(Max(s.inseqno, seqno + 1), s.seen + {seqno}, if w == 0 then s.farfuture else 0)
    else if seqno >= s.inseqno + 8 * w then s.(farfuture := s.farfuture + 1)
    else s
  }

  /** The expected number follows the highest one accepted. */
  ghost predicate Wf(s: Seen) {
    (forall i <- s.seen :: i < s.inseqno) && (s.inseqno > 0 ==> s.inseqno - 1 in s.seen)
  }

  lemma NextWf(w: nat, s: Seen, seqno: nat)
    requires Wf(s)
    ensures Wf(Next(w, s, seqno))
  {
  }

  /** The count of far-future packets does not matter to it. */
  lemma CountedWf(s: Seen, farfuture: nat)
    ensures Wf(s) <==> Wf(s.(farfuture := farfuture))
  {
  }

  /** The numbers accepted in a run. */
  function Accepted(w: nat, s: Seen, run: seq<nat>): seq<nat>
    decreases run
  {
    if run == [] then []
    else (if Accepts(w, s, run[0]) then [run[0]] else []) + Accepted(w, Next(w, s, run[0]), run[1..])
  }

  /** No number is accepted twice, and none that was accepted before the run. */
  lemma {:induction false} NeverTwice(w: nat, s: Seen, run: seq<nat>)
    requires w > 0 && Wf(s)
    ensures Fresh(Accepted(w, s, run), s.seen)
    decreases |run|
  {
    if run != [] {
      var t := Next(w, s, run[0]);
      NeverTwice(w, t, run[1..]);
      var rest := Accepted(w, t, run[1..]);
      if Accepts(w, s, run[0]) {
        FreshCons(run[0], rest, s.seen);
      } else {
        assert [] + rest == rest;
      }
    }
  }

  /** Every number is less than a window away from the next one expected when it comes. */
  predicate Timely(w: nat, inseqno: nat, run: seq<nat>)
    decreases |run|
  {
    run == [] || (inseqno - 8 * w <= run[0] < inseqno + 8 * w && Timely(w, Max(inseqno, run[0] + 1), run[1..]))
  }

  /** Such numbers are all accepted, in whatever order they come, if each comes once. */
  lemma {:induction false} TimelyAccepted(w: nat, s: Seen, run: seq<nat>)
    requires w > 0 && Timely(w, s.inseqno, run) && Fresh(run, s.seen)
    ensures Accepted(w, s, run) == run
    decreases |run|
  {
    if run != [] {
      assert run[0] !in s.seen && Accepts(w, s, run[0]);
      assert forall i | 0 <= i < |run[1..]| :: run[1..][i] == run[i + 1];
      TimelyAccepted(w, Next(w, s, run[0]), run[1..]);
      assert run == [run[0]] + run[1..];
    }
  }

  /** The numbers below n. */
  ghost function Below(n: nat): (s: set<nat>)
    ensures forall i: nat :: i in s <==> i < n
  {
    if n == 0 then {} else Below(n - 1) + {n - 1}
  }

  /** The verdict as computed: unsigned 32-bit sums, and the bitmap. */
  predicate Verdict(late: seq<bv8>, inseqno: nat, farfuture: nat, seqno: nat) {
    var w := |late|;
    || w == 0
    || seqno == inseqno
    || if seqno >= (inseqno + 8 * w) % WRAP then farfuture >= w / 4
       else if seqno < inseqno then !(inseqno >= 8 * w && seqno < inseqno - 8 * w) && Bit(late, seqno)
       else true
  }

  /** A dropped packet from too far ahead is counted. */
  function Far(w: nat, inseqno: nat, seqno: nat): nat {
    if seqno >= (inseqno + 8 * w) % WRAP then 1 else 0
  }

  /** The number expected after an accepted one. */
  function After(inseqno: nat, seqno: nat): (r: nat)
    requires inseqno < WRAP
    ensures r < WRAP && (seqno + 1 < WRAP ==> r == Max(inseqno, seqno + 1))
  {
    if seqno >= inseqno then (seqno + 1) % WRAP else inseqno
  }

  /** At least a window below 2^32. */
  predicate InRange(w: nat, inseqno: nat, seqno: nat) {
    inseqno + 8 * w < WRAP && seqno + 1 < WRAP
  }

  lemma VerdictMeaning(late: seq<bv8>, s: Seen, seqno: nat)
    requires |late| > 0 ==> BitsOk(late, s.inseqno, s.seen)
    requires InRange(|late|, s.inseqno, seqno)
    ensures Verdict(late, s.inseqno, s.farfuture, seqno) <==> Accepts(|late|, s, seqno)
    ensures |late| > 0 && Accepts(|late|, s, seqno) ==> s.inseqno - 8 * |late| <= seqno
  {
  }

  lemma Dropped(w: nat, s: Seen, seqno: nat)
    requires s.inseqno + 8 * w < WRAP && !Accepts(w, s, seqno)
    ensures Next(w, s, seqno) == s.(farfuture := s.farfuture + Far(w, s.inseqno, seqno))
  {
  }

  lemma NoWindow(inseqno: nat, farfuture: nat, seqno: nat)
    ensures Verdict([], inseqno, farfuture, seqno)
  {
  }

  /** Before the highest number has been accepted: some number that was accepted before is accepted
      again exactly if the sum has wrapped and enough far-future packets have been counted. */
  lemma ReplayExactly(late: seq<bv8>, s: Seen)
    requires 0 < 8 * |late| < WRAP && s.inseqno < WRAP && Wf(s) && BitsOk(late, s.inseqno, s.seen)
    ensures (exists x <- s.seen :: Verdict(late, s.inseqno, s.farfuture, x))
            <==> s.inseqno + 8 * |late| >= WRAP && s.farfuture >= |late| / 4
  {
    hide Bit;
    var w := |late|;
    if s.inseqno + 8 * w >= WRAP && s.farfuture >= w / 4 {
      assert (s.inseqno + 8 * w) % WRAP == s.inseqno + 8 * w - WRAP;
      assert s.inseqno - 1 in s.seen && Verdict(late, s.inseqno, s.farfuture, s.inseqno - 1);
    }
  }

  /** Once it has been accepted, number 0 is expected next: what was accepted before is accepted again
      exactly if it is within the first window, or enough far-future packets have been counted. */
  lemma ReplayAfterWrap(late: seq<bv8>, seen: set<nat>, farfuture: nat)
    requires 0 < 8 * |late| < WRAP
    ensures (exists x <- seen :: Verdict(late, 0, farfuture, x))
            <==> (exists x <- seen :: x < 8 * |late|) || (seen != {} && farfuture >= |late| / 4)
  {
    if x :| x in seen && x < 8 * |late| {
      assert Verdict(late, 0, farfuture, x);
    } else if x :| x in seen && farfuture >= |late| / 4 {
      assert Verdict(late, 0, farfuture, x);
    }
  }

  /** Marking the gap before `seqno` as late. */
  lemma MarkLate(late: seq<bv8>, inseqno: nat, seen: set<nat>, i: nat)
    requires |late| > 0 && BitsOk(late, i, seen) && i !in seen && inseqno <= i
    ensures BitsOk(SetBit(late, i), i + 1, seen)
  {
    hide Bit, SetBit;
    forall j: nat | i + 1 - 8 * |late| <= j < i + 1
      ensures Bit(SetBit(late, i), j) <==> j !in seen
    {
      OtherBits(late, i, j);
    }
  }

  /** Marking `seqno` as received. */
  lemma MarkReceived(late: seq<bv8>, inseqno: nat, seen: set<nat>, seqno: nat)
    requires |late| > 0 && inseqno - 8 * |late| <= seqno <= inseqno
    requires BitsOk(late, inseqno, seen)
    ensures BitsOk(ClearBit(late, seqno), Max(inseqno, seqno + 1), seen + {seqno})
  {
    hide Bit, ClearBit;
    var n := Max(inseqno, seqno + 1);
    forall j: nat | n - 8 * |late| <= j < n
      ensures Bit(ClearBit(late, seqno), j) <==> j !in seen + {seqno}
    {
      OtherBits(late, seqno, j);
    }
  }

  class ReplayWindow {
    /** The bitmap; its length in bytes is the configured window. */
    const late: array<bv8>
    var inseqno: nat
    var received: nat
    var farfuture: nat
    ghost var seen: set<nat>

    ghost function View(): Seen
      reads this
    {
      Seen(inseqno, seen, farfuture)
    }

    /** Inside the window a set bit means that the number has not been received. */
    ghost predicate Valid()
      reads this, late
    {
      && inseqno < WRAP && Wf(View())
      && (late.Length > 0 ==> BitsOk(late[..], inseqno, seen))
    }

    /** A session whose handshake took `handshake` datagrams, in order. */
    constructor (replaywin: nat, handshake: nat)
      requires handshake < WRAP
      ensures Valid() && fresh(late) && late.Length == replaywin
      ensures View() == Seen(handshake, Below(handshake), 0)
    {
      late := new bv8[replaywin](_ => 0);
      inseqno, received, farfuture := handshake, 0, 0;
      seen := Below(handshake);
      new;
      if replaywin > 0 {
        forall i | 0 <= i < handshake
          ensures !Bit(late[..], i)
        {
          FilledBytes(i % 8);
        }
      }
    }

    /** Mark all numbers of the window as being late. */
    method Fill()
      modifies late
      ensures forall k | 0 <= k < late.Length :: late[k] == 255
    {
      forall k | 0 <= k < late.Length {
        late[k] := 255;
      }
    }

    /** Mark the numbers from the expected one up to `seqno` as being late. */
    method MarkGap(seqno: nat)
      requires late.Length > 0 && inseqno <= seqno
      modifies late
      ensures old(Valid()) ==> BitsOk(late[..], seqno, seen)
    {
      hide On, Slot, BitsOk;
      ghost var valid := Valid();
      var w, i := late.Length, inseqno;
      while i < seqno
        invariant inseqno <= i <= seqno
        invariant valid ==> BitsOk(late[..], i, seen)
      {
        if valid {
          MarkLate(late[..], inseqno, seen, i);
        }
        ghost var after := SetBit(late[..], i);
        late[Slot(w, i)] := On(late[Slot(w, i)], i % 8);
        assert late[..] == after;
        i := i + 1;
      }
    }

    /** The first half of sptps_check_seqno: the verdict, and the bits of the numbers that an
        accepted number leaves behind. */
    method Judge(seqno: nat, update: bool) returns (ok: bool)
      requires inseqno < WRAP && seqno < WRAP && late.Length > 0
      modifies this`farfuture, late
      ensures ok <==> Verdict(old(late[..]), inseqno, old(farfuture), seqno)
      ensures !update ==> farfuture == old(farfuture)
      ensures !(update && ok) ==> late[..] == old(late[..])
      ensures update && !ok ==> farfuture == old(farfuture) + Far(late.Length, inseqno, seqno)
      ensures old(Valid()) && InRange(late.Length, inseqno, seqno) && update && ok ==>
                BitsOk(late[..], Max(inseqno, seqno), seen)
    {
      hide Test, On, Off, Slot, BitsOk;
      var w := late.Length;
      ok := true;
      if seqno != inseqno {
        if seqno >= (inseqno + 8 * w) % WRAP {
          var drop := farfuture < w / 4;
          if update {
            farfuture := farfuture + 1;
          }
          if drop {
            return false;
          }
          if update {
            Fill();
            if old(Valid()) {
              AllLate(late[..], inseqno, seen, seqno);
            }
          }
        } else if seqno < inseqno {
          if (inseqno >= 8 * w && seqno < inseqno - 8 * w) || !Test(late[Slot(w, seqno)], seqno % 8) {
            return false;
          }
        } else if update {
          MarkGap(seqno);
        }
      }
    }

    /** Mark the number as not being late. */
    method Receive(seqno: nat)
      requires late.Length > 0
      modifies late
      ensures late[..] == ClearBit(old(late[..]), seqno)
    {
      hide On, Off, Slot;
      var w := late.Length;
      late[Slot(w, seqno)] := Off(late[Slot(w, seqno)], seqno % 8);
    }

    /** sptps_check_seqno; without `update` it is a dry run. */
    method CheckSeqno(seqno: nat, update: bool) returns (ok: bool)
      requires inseqno < WRAP && seqno < WRAP
      modifies this, late
      ensures inseqno < WRAP
      ensures ok <==> Verdict(old(late[..]), old(inseqno), old(farfuture), seqno)
      ensures !update ==> View() == old(View()) && late[..] == old(late[..]) && received == old(received)
      ensures update && ok ==>
                && inseqno == After(old(inseqno), seqno)
                && seen == old(seen) + {seqno} && (late.Length > 0 ==> farfuture == 0)
                && received == (if inseqno == 0 then 0 else (old(received) + 1) % WRAP)
      ensures update && !ok ==> (old(Valid()) ==> Valid()) && late[..] == old(late[..]) && received == old(received)
      ensures update && !ok ==>
                View() == old(View()).(farfuture := old(farfuture) + Far(late.Length, old(inseqno), seqno))
      ensures old(Valid()) && InRange(late.Length, old(inseqno), seqno) ==>
                && Valid()
                && (ok <==> Accepts(late.Length, old(View()), seqno))
                && (update ==> View() == Next(late.Length, old(View()), seqno))
    {
      hide Test, On, Off, Slot, BitsOk, Verdict, Accepts, ClearBit, Wf, Far, After;
      var w := late.Length;
      NoWindow(inseqno, farfuture, seqno);
      assert w == 0 ==> late[..] == [];
      ghost var ranged := Valid() && InRange(w, inseqno, seqno);
      if ranged {
        NextWf(w, View(), seqno);
        VerdictMeaning(late[..], View(), seqno);
      }
      ok := true;
      if w > 0 {
        ghost var before := View();
        ok := Judge(seqno, update);
        CountedWf(before, farfuture);
        if !ok {
          if ranged {
            Dropped(w, before, seqno);
          }
          return;
        }
        if update {
          if ranged {
            MarkReceived(late[..], Max(inseqno, seqno), seen, seqno);
          }
          Receive(seqno);
          farfuture := 0;
        }
      }
      if update {
        inseqno := After(inseqno, seqno);
        received := if inseqno == 0 then 0 else (received + 1) % WRAP;
        seen := seen + {seqno};
      }
    }
  }

  /** A run of a new window in which one number is accepted twice: it is far ahead at first, and
      once it has been accepted the sum wraps. */
  method AcceptedTwice(replaywin: nat, handshake: nat) returns (first: bool, second: bool)
    requires 0 < replaywin && handshake + 8 * replaywin < WRAP - 2
    ensures first && second
  {
    hide BitsOk, Verdict, Wf;
    var seqno := WRAP - 2;
    var w := new ReplayWindow(replaywin, handshake);
    Insist(w, seqno);
    FarAccepted(w.late[..], w.inseqno, w.farfuture, seqno);
    first := w.CheckSeqno(seqno, true);
    Insist(w, seqno);
    FarAccepted(w.late[..], w.inseqno, w.farfuture, seqno);
    second := w.CheckSeqno(seqno, true);
  }

  /** A run through the highest number: when it has been accepted, any number of the first window is
      accepted again, with no far-future packet counted; here one of the handshake. */
  method AcceptedAfterWrap(replaywin: nat, handshake: nat, x: nat) returns (last: bool, again: bool)
    requires 0 < replaywin && handshake + 8 * replaywin < WRAP - 1 && x < handshake && x < 8 * replaywin
    ensures last && again
  {
    hide BitsOk, Wf, Bit;
    var w := new ReplayWindow(replaywin, handshake);
    assert x in w.seen;
    Insist(w, WRAP - 1);
    last := w.CheckSeqno(WRAP - 1, true);
    assert x in w.seen && w.inseqno == 0 && w.farfuture == 0;
    again := w.CheckSeqno(x, true);
  }

  lemma FarAccepted(late: seq<bv8>, inseqno: nat, farfuture: nat, seqno: nat)
    requires seqno >= (inseqno + 8 * |late|) % WRAP && farfuture >= |late| / 4
    ensures Verdict(late, inseqno, farfuture, seqno)
  {
  }

  /** Send a number from too far ahead until the next time it will be accepted. */
  method Insist(w: ReplayWindow, seqno: nat)
    requires w.Valid() && w.late.Length > 0 && w.farfuture == 0
    requires seqno != w.inseqno && (w.inseqno + 8 * w.late.Length) % WRAP <= seqno < WRAP
    modifies w, w.late
    ensures w.Valid() && w.View() == old(w.View()).(farfuture := w.late.Length / 4)
  {
    hide BitsOk, Wf;
    for i := 0 to w.late.Length / 4
      invariant w.Valid() && w.View() == old(w.View()).(farfuture := i)
    {
      var ok := w.CheckSeqno(seqno, true);
    }
  }

  /** After a far-future jump nothing in the new window has been received. */
  lemma AllLate(late: seq<bv8>, inseqno: nat, seen: set<nat>, seqno: nat)
    requires |late| > 0 && (forall k | 0 <= k < |late| :: late[k] == 255)
    requires forall i <- seen :: i < inseqno
    ensures inseqno + 8 * |late| <= seqno ==> BitsOk(late, seqno, seen)
  {
    hide Test;
    forall i: nat
      ensures Bit(late, i)
    {
      FilledBytes(i % 8);
    }
  }

  ghost predicate BitsOk(late: seq<bv8>, inseqno: nat, seen: set<nat>)
    requires |late| > 0
  {
    forall i: nat | inseqno - 8 * |late| <= i < inseqno :: Bit(late, i) <==> i !in seen
  }
}