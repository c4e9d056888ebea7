/**
 The pipe end to end, in terms of what its callers passed and got back: over every run the bytes of the
 writers' buffers, in the order they were put, are the bytes of the readers' buffers, in the order the
 reads returned, then those the reader at work has copied so far, then those in the ring.
 */
module PipeStream {
  import opened Options
  import opened Pipe

  /** The byte of its caller's buffer that a writer puts in the step from `s` to `s'`. */
  function Sent(s: State, s': State, p: nat): seq<int> {
    if && p < |s.pc| == |s'.pc| && s.pc[p].WLoop? && s'.pc[p].WLoop?
       && s'.pc[p].i == s.pc[p].i + 1 && s.pc[p].i < |s.pc[p].src|
    then [s.pc[p].src[s.pc[p].i]] else []
  }

  /** The buffer a reader returns with. */
  function Handed(s: State, s': State, p: nat): seq<int> {
    if p < |s.pc| == |s'.pc| && !s.pc[p].RReturned? && s'.pc[p].RReturned? then s'.pc[p].dst else []
  }

  /** Only the holder of the pipe's lock moves bytes. */
  function Holds(s: State): nat {
    if s.lock.Some? then s.lock.value else 0
  }

  /** What the reader at work has copied so far. */
  function InHand(s: State): seq<int> {
    if s.lock.Some? && s.lock.value < |s.pc| && s.pc[s.lock.value].RCopy? then s.pc[s.lock.value].dst else []
  }

  function AllSent(ss: seq<State>, n: nat): seq<int>
    requires n < |ss|
  {
    if n == 0 then [] else AllSent(ss, n - 1) + Sent(ss[n - 1], ss[n], Holds(ss[n - 1]))
  }

  function AllHanded(ss: seq<State>, n: nat): seq<int>
    requires n < |ss|
  {
    if n == 0 then [] else AllHanded(ss, n - 1) + Handed(ss[n - 1], ss[n], Holds(ss[n - 1]))
  }

  /** Without the lock nobody is copying. */
  lemma HandIs(s: State)
    requires Inv(s)
    ensures forall q: nat :: q < |s.pc| && s.pc[q].RCopy? ==> s.lock == Some(q) && InHand(s) == s.pc[q].dst
    ensures (forall q: nat :: q < |s.pc| ==> !s.pc[q].RCopy?) ==> InHand(s) == []
  {
    hide BytesOk;
    forall q: nat | q < |s.pc| && s.pc[q].RCopy? ensures s.lock == Some(q) && InHand(s) == s.pc[q].dst {
      assert ProcOk(s, q);
    }
  }

  lemma SentMoves(s: State, p: nat, killed: bool, s': State)
    requires Inv(s) && p < |s.pc| && StepOf(s, p, killed, s')
    ensures s'.accepted == s.accepted + Sent(s, s', Holds(s))
  {
    hide BytesOk, Buffered;
    assert ProcOk(s, p);
  }

  /** Nobody but the holder of the lock puts a byte or returns from a read. */
  lemma HolderAlone(s: State, p: nat, killed: bool, s': State, q: nat)
    requires Inv(s) && p < |s.pc| && q < |s.pc| && StepOf(s, p, killed, s') && s.lock != Some(q)
    ensures Sent(s, s', q) == [] && Handed(s, s', q) == []
  {
    hide BytesOk, Buffered;
    assert ProcOk(s, p) && ProcOk(s, q);
  }

  /** Steps other than a read's leave readers that copy or return as they are. */
  lemma CopiersKept(s: State, p: nat, killed: bool, s': State)
    requires |s.data| == PIPESIZE && p < |s.pc|
    requires EnterStep(s, p, s') || WriteStep(s, p, killed, s') || SleepStep(s, p, s') || OtherStep(s, p, s')
    ensures s'.delivered == s.delivered && |s'.pc| == |s.pc|
    ensures forall q: nat :: q < |s.pc| && (s.pc[q].RCopy? || s'.pc[q].RCopy? || s'.pc[q].RReturned?) ==>
      s'.pc[q] == s.pc[q]
  {
    hide Buffered;
  }

  /** Bytes taken from the ring go to the reader's hand, and from there to its caller. */
  lemma HandedMoves(s: State, p: nat, killed: bool, s': State)
    requires Inv(s) && p < |s.pc| && StepOf(s, p, killed, s')
    ensures |s.delivered| <= |s'.delivered| && s.delivered == s'.delivered[..|s.delivered|]
    ensures InHand(s) + s'.delivered[|s.delivered|..] == Handed(s, s', Holds(s)) + InHand(s')
  {
    StepInv(s, p, killed, s');
    HandIs(s);
    HandIs(s');
    BytesShape(s);
    if ReadStep(s, p, killed, s') {
      HandedRead(s, p, killed, s');
    } else {
      hide Inv, InHand, EnterStep, WriteStep, SleepStep, OtherStep;
      CopiersKept(s, p, killed, s');
      if q: nat :| q < |s.pc| && s.pc[q].RCopy? {
        assert InHand(s) == InHand(s');
      } else {
        assert forall q: nat :: q < |s'.pc| ==> !s'.pc[q].RCopy?;
      }
    }
  }

  lemma HandedRead(s: State, p: nat, killed: bool, s': State)
    requires |s.data| == PIPESIZE && p < |s.pc| && ReadStep(s, p, killed, s')
    ensures |s.delivered| <= |s'.delivered| && s.delivered == s'.delivered[..|s.delivered|]
    ensures InHand(s) + s'.delivered[|s.delivered|..] == Handed(s, s', Holds(s)) + InHand(s')
  {
  }

  /** The bytes accepted are those of the writers' buffers, and the bytes delivered those in the readers' buffers. */
  lemma {:induction false} RunMoves(ss: seq<State>, n: nat)
    requires IsRun(ss) && n < |ss|
    ensures ss[n].accepted == AllSent(ss, n)
    ensures ss[n].delivered == AllHanded(ss, n) + InHand(ss[n])
  {
    hide Inv, StepOf, Sent, Handed, InHand;
    if n == 0 {
      HandsEmpty(ss[0]);
    } else {
      var s, s' := ss[n - 1], ss[n];
      RunMoves(ss, n - 1);
      RunInv(ss, n - 1);
      assert Next(s, s');
      var p: nat, killed: bool :| p < |s.pc| && StepOf(s, p, killed, s');
      SentMoves(s, p, killed, s');
      HandedMoves(s, p, killed, s');
      var got, handed := s'.delivered[|s.delivered|..], AllHanded(ss, n - 1);
      calc {
        s'.delivered;
        s'.delivered[..|s.delivered|] + got;
        (handed + InHand(s)) + got;
        handed + (InHand(s) + got);
        handed + (Handed(s, s', Holds(s)) + InHand(s'));
        AllHanded(ss, n) + InHand(s');
      }
    }
  }

  lemma HandsEmpty(s: State)
    requires Init(s)
    ensures InHand(s) == []
  {
  }

  /** What went in at one end comes out at the other: nothing lost, changed, repeated or reordered. */
  lemma EndToEnd(ss: seq<State>, n: nat)
    requires IsRun(ss) && n < |ss|
    ensures |ss[n].data| == PIPESIZE
    ensures AllSent(ss, n) == AllHanded(ss, n) + InHand(ss[n]) + Buffered(ss[n])
  {
    hide Next, InHand, Buffered, StepOf;
    RunInv(ss, n);
    RunMoves(ss, n);
  }

  /** A reader at work holds the last bytes delivered. */
  lemma HandIsLast(ss: seq<State>, n: nat, p: nat)
    requires IsRun(ss) && n < |ss| && p < |ss[n].pc| && ss[n].pc[p].RCopy?
    ensures var s := ss[n]; var k := |s.pc[p].dst|;
      k <= |s.delivered| && s.delivered[|s.delivered| - k..] == s.pc[p].dst
  {
    hide Next;
    RunInv(ss, n);
    HandIs(ss[n]);
    RunMoves(ss, n);
  }

  // ---------- one call ----------

  /** The bytes that process `p` has put since it was last outside the pipe. */
  function SentInCall(ss: seq<State>, n: nat, p: nat): seq<int>
    requires n < |ss|
  {
    if n == 0 || p >= |ss[n - 1].pc| || ss[n - 1].pc[p].Idle? then []
    else SentInCall(ss, n - 1, p) + (if p == Holds(ss[n - 1]) then Sent(ss[n - 1], ss[n], p) else [])
  }

  predicate IsWrite(c: Pc) {
    Writing(c) || c.WReturned?
  }

  predicate CallGoesOn(s: State, s': State, q: nat)
    requires q < |s.pc| == |s'.pc|
  {
    IsWrite(s'.pc[q]) ==>
      if s.pc[q].Idle? then s'.pc[q].i == 0
      else IsWrite(s.pc[q]) && s'.pc[q].src == s.pc[q].src &&
           s'.pc[q].i == s.pc[q].i + (if q == Holds(s) then |Sent(s, s', q)| else 0)
  }

  lemma WritePuts(s: State, p: nat, killed: bool, s': State, q: nat)
    requires |s.data| == PIPESIZE && p < |s.pc| && q < |s.pc| == |s'.pc| && WriteStep(s, p, killed, s')
    ensures CallGoesOn(s, s', q)
  {
    hide Buffered;
  }

  lemma ReadPuts(s: State, p: nat, killed: bool, s': State, q: nat)
    requires |s.data| == PIPESIZE && p < |s.pc| && q < |s.pc| == |s'.pc| && ReadStep(s, p, killed, s')
    ensures CallGoesOn(s, s', q)
  {
    hide Buffered, Cell;
  }

  lemma OtherPuts(s: State, p: nat, s': State, q: nat)
    requires p < |s.pc| && q < |s.pc| == |s'.pc| && ProcOk(s, q)
    requires EnterStep(s, p, s') || SleepStep(s, p, s') || OtherStep(s, p, s')
    ensures CallGoesOn(s, s', q)
  {
  }

  /** A write keeps its buffer, and its count grows with the bytes it puts. */
  lemma CallMoves(s: State, p: nat, killed: bool, s': State, q: nat)
    requires Inv(s) && p < |s.pc| && q < |s.pc| == |s'.pc| && StepOf(s, p, killed, s')
    ensures CallGoesOn(s, s', q)
  {
    hide BytesOk, EnterStep, WriteStep, ReadStep, SleepStep, OtherStep, CallGoesOn, ProcOk;
    BytesShape(s);
    assert ProcOk(s, q);
    if WriteStep(s, p, killed, s') {
      WritePuts(s, p, killed, s', q);
    } else if ReadStep(s, p, killed, s') {
      ReadPuts(s, p, killed, s', q);
    } else {
      OtherPuts(s, p, s', q);
    }
  }

  /** The bytes one write has put are the first `i` of its buffer, in order; all of them when it returns the count. */
  lemma {:induction false} CallSends(ss: seq<State>, n: nat, p: nat)
    requires IsRun(ss) && n < |ss| && p < |ss[n].pc| && IsWrite(ss[n].pc[p])
    ensures ss[n].pc[p].i <= |ss[n].pc[p].src| && SentInCall(ss, n, p) == ss[n].pc[p].src[..ss[n].pc[p].i]
    ensures ss[n].pc[p].WReturned? && ss[n].pc[p].r != -1 ==> SentInCall(ss, n, p) == ss[n].pc[p].src
  {
    hide Inv, StepOf, Sent;
    if n > 0 {
      var s, s' := ss[n - 1], ss[n];
      RunInv(ss, n - 1);
      RunInv(ss, n);
      assert Next(s, s');
      var q: nat, killed: bool :| q < |s.pc| && StepOf(s, q, killed, s');
      SamePcs(s, q, killed, s');
      CallMoves(s, q, killed, s', p);
      if !s.pc[p].Idle? {
        CallSends(ss, n - 1, p);
        SentIs(s, s', p);
      }
      CountInBuffer(s', p);
    }
  }

  lemma SentIs(s: State, s': State, p: nat)
    requires p < |s.pc| && IsWrite(s.pc[p])
    ensures Sent(s, s', p) == [] ||
      (s.pc[p].i < |s.pc[p].src| && Sent(s, s', p) == [s.pc[p].src[s.pc[p].i]])
  {
  }

  lemma CountInBuffer(s: State, p: nat)
    requires Inv(s) && p < |s.pc| && IsWrite(s.pc[p])
    ensures s.pc[p].i <= |s.pc[p].src|
    ensures s.pc[p].WReturned? && s.pc[p].r != -1 ==> s.pc[p].i == |s.pc[p].src|
  {
    assert ProcOk(s, p);
  }

  /** When a write gives up: only before its last byte, on a full pipe nobody will read, or killed there. */
  lemma WriteReturns(s: State, p: nat, killed: bool, s': State)
    requires Inv(s) && p < |s.pc| == |s'.pc| && StepOf(s, p, killed, s')
    requires !s.pc[p].WReturned? && s'.pc[p].WReturned?
    ensures s.pc[p].WLoop? && (s'.pc[p].r == -1 <==> s.pc[p].i < |s.pc[p].src|)
    ensures s'.pc[p].r == -1 ==> Count(s) == PIPESIZE && (!s.readopen || killed)
  {
    assert ProcOk(s, p);
    FullEmpty(s);
  }

  /** When a read returns: with all it asked for or all there is, or killed on an empty pipe that writers have open. */
  lemma ReadReturns(s: State, p: nat, killed: bool, s': State)
    requires Inv(s) && p < |s.pc| == |s'.pc| && StepOf(s, p, killed, s')
    requires !s.pc[p].RReturned? && s'.pc[p].RReturned?
    ensures s'.pc[p].r == -1 <==> s.pc[p].RTest?
    ensures s'.pc[p].r == -1 ==> Count(s) == 0 && s.writeopen && killed
    ensures s'.pc[p].r != -1 ==> s'.pc[p].r == |s'.pc[p].dst| && (s'.pc[p].r == s'.pc[p].n || Count(s) == 0)
  {
    assert ProcOk(s, p);
    FullEmpty(s);
  }
}
