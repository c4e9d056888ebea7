/**
 The code of log.c over the `log` record. A Log object carries the run of the protocol it has
 performed since power-on; `Valid` says that it is one whose entries always had log blocks of their
 own, so CrashAtomicity speaks about every point at which a method below could have been cut short.
 */
module LogCode {
  import opened Options
  import opened LogDisk
  import opened AtomicDisk
  import opened LogProtocol
  import opened LogInvariant
  import opened LogRefinement
  import opened LogAdmission

  class Log {
    const c: Config
    var disk: seq<Block>
    var cache: map<int, Buf>
    var lh: seq<int>
    var outstanding: int
    var committing: bool

    // the processes and the point the code has reached
    ghost var procs: seq<Proc>
    ghost var held: map<int, nat>
    ghost var touched: set<int>
    ghost var phase: Phase

    // the run so far
    ghost var trace: seq<State>
    ghost var steps: seq<Step>

    ghost function View(): State
      reads this
    {
      State(disk, cache, lh, outstanding, committing, procs, held, touched, phase)
    }

    ghost predicate Valid()
      reads this
    {
      && c.Valid() && |disk| == c.nblocks
      && Run(c, trace, steps) && AllFit(c, trace)
      && trace[|steps|] == View()
    }

    /** The run was only added to. */
    twostate predicate Extends()
      reads this
    {
      old(trace) <= trace && old(steps) <= steps
    }

    constructor (c: Config, image: seq<Block>)
      requires DiskOk(c, image)
      ensures Valid() && this.c == c && disk == image && phase == Down && steps == []
    {
      this.c := c;
      disk, cache, lh, outstanding, committing := image, map[], [], 0, false;
      procs, held, touched, phase := Idles(c.nproc), map[], {}, Down;
      trace := [State(image, map[], [], 0, false, Idles(c.nproc), map[], {}, Down)];
      steps := [];
    }

    /** Every state of the object satisfies the protocol's invariant. */
    lemma ValidInv()
      requires Valid()
      ensures Inv(c, View()) && Fits(c, View())
    {
      RunInv(c, trace, steps, |steps|);
    }

    ghost method Push(e: Step)
      requires c.Valid() && |disk| == c.nblocks && Fits(c, View())
      requires Run(c, trace, steps) && AllFit(c, trace) && Next(c, trace[|steps|], e, View())
      modifies this`trace, this`steps
      ensures Valid() && Extends()
    {
      hide Next, Init;
      trace := trace + [View()];
      steps := steps + [e];
    }

    method Bread(b: int) returns (data: Block)
      requires Valid() && 0 <= b < c.nblocks && phase != Down
      modifies this`cache, this`trace, this`steps
      ensures Valid() && Extends()
      ensures data == ReadBlock(c, View(), b)
      ensures SameReads(c, old(View()), View())
    {
      if b !in cache {
        ValidInv();
        cache := cache[b := Buf(disk[b], false)];
        CachingInv(c, old(View()), Load(b), View());
        Push(Load(b));
      }
      data := cache[b].data;
    }

    /** bwrite of a buffer just read and overwritten with `data`: the disk-writing step `e` of the run. */
    method Bwrite(b: int, data: Block, ghost e: Step, ghost next: Phase)
      requires c.Valid() && |disk| == c.nblocks && 0 <= b < c.nblocks && Fits(c, View())
      requires Run(c, trace, steps) && AllFit(c, trace)
      requires Next(c, trace[|steps|], e, BWrite(c, View(), b, data).(phase := next))
      modifies this`disk, this`cache, this`phase, this`trace, this`steps
      ensures Valid() && Extends() && View() == old(BWrite(c, View(), b, data)).(phase := next)
    {
      hide Run, Next;
      disk := disk[b := data];
      cache := cache[b := Buf(data, false)];
      phase := next;
      Push(e);
    }

    /** Copies one modified block from the cache to its log block. */
    method CopyOne(tail: nat)
      requires Valid() && phase == WritingLog(tail) && tail < |lh|
      modifies this`disk, this`cache, this`phase, this`trace, this`steps
      ensures Valid() && Extends() && phase == if tail + 1 < |lh| then WritingLog(tail + 1) else WritingHead
      ensures Logical(c, View()) == old(Logical(c, View())) && HomeOf(c, disk) == old(HomeOf(c, disk))
    {
      hide Run, Inv, Next, Logical;
      ValidInv();
      TailFacts(c, View());
      var to := Bread(c.Slot(tail));
      var from := Bread(lh[tail]);
      ghost var s := View();
      ValidInv();
      CopyNext(c, s);
      Bwrite(c.Slot(tail), from, CopyToLog, if tail + 1 == |lh| then WritingHead else WritingLog(tail + 1));
      CopyToLogInv(c, s, View());
      SameHome(c, old(View()), s);
      SameHome(c, s, View());
    }

    method WriteLog()
      requires Valid() && phase == WritingLog(0)
      modifies this`disk, this`cache, this`phase, this`trace, this`steps
      ensures Valid() && Extends() && phase == WritingHead
      ensures Logical(c, View()) == old(Logical(c, View())) && HomeOf(c, disk) == old(HomeOf(c, disk))
    {
      hide Run, Inv, Next, Logical, HomeOf;
      ValidInv();
      TailFacts(c, View());
      var tail := 0;
      while tail < |lh|
        invariant 0 <= tail <= |lh|
        invariant Valid() && Extends()
        invariant phase == if tail < |lh| then WritingLog(tail) else WritingHead
        invariant Logical(c, View()) == old(Logical(c, View())) && HomeOf(c, disk) == old(HomeOf(c, disk))
      {
        CopyOne(tail);
        tail := tail + 1;
      }
    }

    /** Copies the entries into a header block, leaving later words alone. */
    static method EncodeHead(hb: Block, entries: seq<int>) returns (h: Block)
      requires |entries| <= LOGSIZE
      ensures h == HeaderWith(hb, entries)
    {
      h := hb[0 := |entries|];
      for i := 0 to |entries|
        invariant h[0] == |entries|
        invariant forall j :: 0 <= j < i ==> h[1 + j] == entries[j]
        invariant h[1 + i..] == hb[1 + i..]
      {
        h := h[1 + i := entries[i]];
      }
      assert h == [h[0]] + h[1..1 + |entries|] + h[1 + |entries|..];
    }

    static method DecodeHead(h: Block) returns (entries: seq<int>)
      requires CountOk(h)
      ensures entries == Entries(h)
    {
      entries := [];
      for i := 0 to h[0]
        invariant entries == h[1..1 + i]
      {
        entries := entries + [h[1 + i]];
      }
    }

    /** write_head as the commit point: afterwards recovery finds the whole group. */
    method CommitHead()
      requires Valid() && phase == WritingHead
      modifies this`disk, this`cache, this`phase, this`trace, this`steps
      ensures Valid() && Extends() && phase == Installing(0)
      ensures DiskOk(c, disk) && Effective(c, disk) == Logical(c, View()) == old(Logical(c, View()))
    {
      hide Run, Inv, Next, Logical, Effective;
      var hb := Bread(c.start);
      ghost var s := View();
      ValidInv();
      HeadNext(c, s);
      var h := EncodeHead(hb, lh);
      Bwrite(c.start, h, Step.CommitHead, Installing(0));
      CommitPoint(c, s, View());
      ValidInv();
      InvFacts(c, View());
      SameHome(c, old(View()), s);
    }

    /** write_head with no entries, in commit and in recovery; log.lh.n = 0 is part of it. */
    method EraseHead()
      requires Valid() && (phase == Erasing || phase == RecoverErasing)
      modifies this`disk, this`cache, this`lh, this`phase, this`trace, this`steps
      ensures Valid() && Extends() && lh == [] && phase == if old(phase) == Erasing then Returning else Running
      ensures DiskOk(c, old(disk)) && Effective(c, old(disk)) == HomeOf(c, disk) == Logical(c, View())
      ensures disk[c.start][0] == 0
    {
      hide Run, Inv, Next, Logical, Effective, HomeOf, HeaderWith, Entries, DiskOk, Do, Guard;
      ghost var e := if phase == Erasing then Step.EraseHead else RecoverErase;
      ghost var next := if phase == Erasing then Returning else Running;
      var hb := Bread(c.start);
      ghost var s := View();
      ValidInv();
      EraseNext(c, s, e);
      lh := [];
      var h := EncodeHead(hb, lh);
      Bwrite(c.start, h, e, next);
      EraseDone(c, s, e, View());
    }

    /** Copies one logged block to its home location. */
    method InstallOne(tail: nat)
      requires Valid() && (phase == Installing(tail) || phase == Recovering(tail)) && tail < |lh|
      modifies this`disk, this`cache, this`phase, this`trace, this`steps
      ensures Valid() && Extends() && phase == AfterInstall(old(phase), |lh|)
      ensures DiskOk(c, disk) && DiskOk(c, old(disk)) && Effective(c, disk) == Effective(c, old(disk))
    {
      hide Run, Inv, Next, Effective;
      ghost var e := if phase.Installing? then Step.InstallOne else RecoverOne;
      ValidInv();
      TailFacts(c, View());
      var lbuf := Bread(c.Slot(tail));
      var dbuf := Bread(lh[tail]);
      ghost var s := View();
      ValidInv();
      InstallNext(c, s, e);
      Bwrite(lh[tail], lbuf, e, AfterInstall(s.phase, |lh|));
      InstallKeepsEff(c, s, e, View());
      ValidInv();
      InvFacts(c, View());
      InvFacts(c, s);
    }

    /** install_trans, in commit and in recovery. */
    method InstallTrans()
      requires Valid() && (phase == Installing(0) || phase == Recovering(0) || (phase == RecoverErasing && lh == []))
      modifies this`disk, this`cache, this`phase, this`trace, this`steps
      ensures Valid() && Extends() && phase == if old(phase).Installing? then Erasing else RecoverErasing
      ensures DiskOk(c, disk) && DiskOk(c, old(disk)) && Effective(c, disk) == Effective(c, old(disk))
    {
      hide Run, Inv, Next, Effective;
      ValidInv();
      TailFacts(c, View());
      InvFacts(c, View());
      var tail := 0;
      while tail < |lh|
        invariant 0 <= tail <= |lh|
        invariant Valid() && Extends()
        invariant phase == if tail < |lh| then (if old(phase).Installing? then Installing(tail) else Recovering(tail))
                           else if old(phase).Installing? then Erasing else RecoverErasing
        invariant DiskOk(c, disk) && Effective(c, disk) == Effective(c, old(disk))
      {
        InstallOne(tail);
        tail := tail + 1;
      }
    }

    /** commit(): afterwards the home blocks hold what readers saw, and the log is empty. */
    method Commit()
      requires Valid() && (phase == WritingLog(0) || (phase == Returning && lh == []))
      modifies this`disk, this`cache, this`lh, this`phase, this`trace, this`steps
      ensures Valid() && Extends() && phase == Returning && lh == []
      ensures HomeOf(c, disk) == Logical(c, View()) == old(Logical(c, View()))
    {
      hide Run, Inv, Next, Logical, HomeOf, Effective;
      ValidInv();
      TailFacts(c, View());
      if |lh| > 0 {
        WriteLog();
        CommitHead();
        InstallTrans();
        EraseHead();
      } else {
        InvFacts(c, View());
        ReturningReads(c, View());
      }
    }

    /** recover_from_log(): the disk becomes what Recover says of the disk found at boot. */
    method RecoverFromLog()
      requires Valid() && phase == Down
      modifies this`disk, this`cache, this`lh, this`phase, this`trace, this`steps
      ensures Valid() && Extends() && phase == Running && lh == []
      ensures DiskOk(c, old(disk)) && HomeOf(c, disk) == HomeOf(c, Recover(c, old(disk))) && disk[c.start][0] == 0
    {
      hide Run, Inv, Next, Logical, HomeOf, Effective, Recover;
      ValidInv();
      InvFacts(c, View());
      RecoverIsEffective(c, disk);
      ReadHeadNext(c, View());
      lh := DecodeHead(disk[c.start]);
      phase := if |lh| == 0 then RecoverErasing else Recovering(0);
      Push(ReadHead);
      InstallTrans();
      EraseHead();
    }

    /** One pass of begin_op's loop: either the operation is admitted, or the caller sleeps on &log. */
    method BeginOp(p: nat) returns (admitted: bool)
      requires Valid() && phase == Running && p < |procs| && procs[p].Idle?
      modifies this`outstanding, this`procs, this`trace, this`steps
      ensures Valid() && Extends()
      ensures admitted <==> old(Admits(View()))
      ensures if admitted then Next(c, old(View()), Step.BeginOp(p), View()) else View() == old(View())
    {
      admitted := !committing && |lh| + (outstanding + 1) * MAXOPBLOCKS <= LOGSIZE;
      if admitted {
        outstanding := outstanding + 1;
        procs := procs[p := InOp(0, None)];
        Push(Step.BeginOp(p));
      }
    }

    /** The absorption search: the entry's index, or |lh| if the block has none. */
    method FindEntry(b: int) returns (i: nat)
      ensures i <= |lh| && (i < |lh| ==> lh[i] == b)
      ensures i == |lh| <==> b !in lh
    {
      i := 0;
      while i < |lh| && lh[i] != b
        invariant i <= |lh| && b !in lh[..i]
      {
        i := i + 1;
      }
    }

    /** The test at the top of log_write; an operation with room left passes it if the log area is big enough. */
    method CheckSpace(p: nat, b: int) returns (tooBig: bool)
      requires Valid() && ProcInOp(View(), p) && Holds(View(), p, b) && procs[p].checked == None
      modifies this`procs, this`trace, this`steps
      ensures Valid() && Extends() && (tooBig <==> old(TooBig(c, View())))
      ensures old(procs)[p].spent < MAXOPBLOCKS && c.size > LOGSIZE ==> !tooBig
      ensures procs == if tooBig then old(procs) else old(procs)[p := InOp(old(procs)[p].spent, Some(b))]
    {
      hide Run, Inv;
      ValidInv();
      NeverPanics(c, View(), p);
      tooBig := |lh| >= LOGSIZE || |lh| >= c.size - 1;
      if !tooBig {
        procs := procs[p := InOp(procs[p].spent, Some(b))];
        Push(LogCheck(p, b));
      }
    }

    /**
     The part of log_write under log.lock. It tests nothing, so the run goes on as the protocol says exactly
     if there was a free log block and the operation keeps to its MAXOPBLOCKS blocks.
     */
    method Append(p: nat, b: int)
      requires Valid() && ProcInOp(View(), p) && Holds(View(), p, b) && procs[p].checked == Some(b)
      modifies this`lh, this`cache, this`touched, this`procs, this`trace, this`steps
      ensures lh == if b in old(lh) then old(lh) else old(lh) + [b]
      ensures cache == old(cache)[b := Buf(old(cache[b].data), true)] && touched == old(touched) - {b}
      ensures procs == old(procs)[p := InOp(old(procs)[p].spent + (if b in old(lh) then 0 else 1), None)]
      ensures Valid() <==> Fits(c, View()) && (b in old(lh) || old(procs)[p].spent < MAXOPBLOCKS)
      ensures Valid() ==> Extends() && Distinct(lh) && |lh| <= LOGSIZE
    {
      hide Run, Inv, Distinct, AllHome;
      var i := FindEntry(b);
      procs := procs[p := InOp(if i == |lh| then procs[p].spent + 1 else procs[p].spent, None)];
      lh := if i == |lh| then lh + [b] else lh[i := b];
      cache := cache[b := Buf(cache[b].data, true)];
      touched := touched - {b};
      assert b in old(lh) ==> lh == old(lh);
      if Fits(c, View()) && (b in old(lh) || old(procs)[p].spent < MAXOPBLOCKS) {
        assert View() == Do(c, old(View()), LogAppend(p));
        Push(LogAppend(p));
        ValidInv();
        TailFacts(c, View());
      }
    }

    /**
     log_write: "too big a transaction" exactly when the log has no room left, and otherwise the block
     is recorded once, and pinned. An operation that keeps to its MAXOPBLOCKS blocks never meets the
     panic if the log area has more than LOGSIZE blocks; one that does not leaves the protocol.
     */
    method LogWrite(p: nat, b: int) returns (panic: bool)
      requires Valid() && ProcInOp(View(), p) && Holds(View(), p, b) && procs[p].checked == None
      modifies this`lh, this`cache, this`touched, this`procs, this`trace, this`steps
      ensures panic <==> old(TooBig(c, View()))
      ensures old(procs)[p].spent < MAXOPBLOCKS && c.size > LOGSIZE ==> !panic
      ensures panic ==> View() == old(View())
      ensures !panic ==>
        && lh == (if b in old(lh) then old(lh) else old(lh) + [b]) && |lh| <= LOGSIZE && Fits(c, View())
        && cache == old(cache)[b := Buf(old(cache[b].data), true)] && touched == old(touched) - {b}
      ensures Valid() <==> panic || b in old(lh) || old(procs)[p].spent < MAXOPBLOCKS
      ensures Valid() ==> Extends() && (!panic ==> Distinct(lh))
    {
      hide Run, Inv, Distinct, AllHome;
      panic := CheckSpace(p, b);
      if !panic {
        Append(p, b);
      }
    }

    /** The first critical section of end_op. */
    method LeaveOp(p: nat) returns (doCommit: bool)
      requires Valid() && ProcInOp(View(), p) && procs[p].checked == None && forall b :: b in held ==> held[b] != p
      modifies this`outstanding, this`committing, this`procs, this`phase, this`trace, this`steps
      ensures Valid() && Extends() && outstanding == old(outstanding) - 1 && procs == old(procs)[p := Idle]
      ensures doCommit <==> outstanding == 0
      ensures phase == if !doCommit then Running else if |lh| > 0 then WritingLog(0) else Returning
    {
      hide Run, Inv;
      ValidInv();
      OpRunning(c, View(), p);
      outstanding := outstanding - 1;
      procs := procs[p := Idle];
      doCommit := outstanding == 0;
      if doCommit {
        committing := true;
        phase := if |lh| > 0 then WritingLog(0) else Returning;
      }
      Push(Step.EndOp(p));
    }

    /** The last critical section of end_op. */
    method LeaveCommit()
      requires Valid() && phase == Returning
      modifies this`committing, this`phase, this`trace, this`steps
      ensures Valid() && Extends() && phase == Running && !committing
      ensures Logical(c, View()) == old(Logical(c, View()))
    {
      hide Run, Inv;
      ValidInv();
      committing := false;
      phase := Running;
      Push(CommitReturn);
    }

    /** end_op: the last operation out commits the group before it returns. */
    method EndOp(p: nat)
      requires Valid() && ProcInOp(View(), p) && procs[p].checked == None && forall b :: b in held ==> held[b] != p
      modifies this`disk, this`cache, this`lh, this`outstanding, this`committing, this`procs, this`phase, this`trace,
        this`steps
      ensures Valid() && Extends() && phase == Running
      ensures outstanding == old(outstanding) - 1 && procs == old(procs)[p := Idle]
      ensures Logical(c, View()) == old(Logical(c, View()))
      ensures if outstanding == 0 then lh == [] && HomeOf(c, disk) == Logical(c, View())
              else disk == old(disk) && lh == old(lh)
    {
      hide Run, Inv, HomeOf, Logical;
      var doCommit := LeaveOp(p);
      SameHome(c, old(View()), View());
      if doCommit {
        ValidInv();
        TailFacts(c, View());
        Commit();
        LeaveCommit();
      }
    }
  }

  function AfterInstall(ph: Phase, n: nat): Phase
    requires ph.Installing? || ph.Recovering?
  {
    match ph
    case Installing(t) => if t + 1 == n then Erasing else Installing(t + 1)
    case Recovering(t) => if t + 1 == n then RecoverErasing else Recovering(t + 1)
  }

  lemma HeadNext(c: Config, s: State)
    requires Inv(c, s) && Fits(c, s) && s.phase.WritingHead?
    ensures |s.disk| == c.nblocks && c.Valid() && |s.lh| <= LOGSIZE
    ensures var h := HeaderWith(ReadBlock(c, s, c.start), s.lh);
      Next(c, s, CommitHead, BWrite(c, s, c.start, h).(phase := Installing(0)))
  {
    hide Inv;
    InvFacts(c, s);
    TailFacts(c, s);
  }

  lemma EraseDone(c: Config, s: State, e: Step, s': State)
    requires Inv(c, s) && Next(c, s, e, s') && (e.EraseHead? || e.RecoverErase?)
    ensures DiskOk(c, s.disk) && DiskOk(c, s'.disk) && Effective(c, s.disk) == HomeOf(c, s'.disk) == Logical(c, s')
    ensures s'.disk[c.start][0] == 0
  {
    hide Inv, Logical, Effective, HomeOf, HeaderWith, DiskOk;
    EraseKeepsEff(c, s, e, s');
    InvFacts(c, s);
    InvFacts(c, s');
  }

  lemma EraseNext(c: Config, s: State, e: Step)
    requires Inv(c, s) && (s.phase.Erasing? || s.phase.RecoverErasing?)
    requires e == if s.phase.Erasing? then EraseHead else RecoverErase
    ensures |s.disk| == c.nblocks && c.Valid()
    ensures Next(c, s, e, BWrite(c, s, c.start, HeaderWith(ReadBlock(c, s, c.start), []))
                            .(lh := [], phase := if s.phase.Erasing? then Returning else Running))
  {
    hide Inv;
    InvFacts(c, s);
  }

  lemma InstallNext(c: Config, s: State, e: Step)
    requires Inv(c, s) && Fits(c, s) && (s.phase.Installing? || s.phase.Recovering?)
    requires e == if s.phase.Installing? then Step.InstallOne else RecoverOne
    ensures var t := s.phase.tail;
      && t < |s.lh| && 0 <= s.lh[t] < c.nblocks && c.Slot(t) < c.nblocks
      && Next(c, s, e, BWrite(c, s, s.lh[t], ReadBlock(c, s, c.Slot(t))).(phase := AfterInstall(s.phase, |s.lh|)))
  {
    hide Inv;
    InvFacts(c, s);
    TailFacts(c, s);
  }

  lemma ReadHeadNext(c: Config, s: State)
    requires Inv(c, s) && s.phase.Down?
    ensures CountOk(s.disk[c.start])
    ensures var es := Entries(s.disk[c.start]);
      Next(c, s, ReadHead, s.(lh := es, phase := if |es| == 0 then RecoverErasing else Recovering(0)))
  {
    hide CacheInv, HoldInv;
  }

  lemma ReturningReads(c: Config, s: State)
    requires Inv(c, s) && s.phase.Returning?
    ensures HomeOf(c, s.disk) == Logical(c, s)
  {
    CleanReads(c, s);
  }

  lemma TailFacts(c: Config, s: State)
    requires Inv(c, s) && Fits(c, s)
    ensures |s.lh| <= LOGSIZE && AllHome(c, s.lh) && Distinct(s.lh)
    ensures forall i :: 0 <= i < |s.lh| ==> c.InLog(c.Slot(i)) && 0 <= s.lh[i] < c.nblocks
    ensures s.phase.WritingLog? || s.phase.Installing? || s.phase.Recovering? ==> s.phase.tail < |s.lh|
  {
    hide CacheInv, HoldInv;
    OpenZero(s.procs);
  }

  lemma CopyNext(c: Config, s: State)
    requires Inv(c, s) && Fits(c, s) && s.phase.WritingLog?
    ensures var t := s.phase.tail;
      && t < |s.lh| && 0 <= s.lh[t] < c.nblocks && c.Slot(t) < c.nblocks
      && Next(c, s, CopyToLog, BWrite(c, s, c.Slot(t), ReadBlock(c, s, s.lh[t]))
                                 .(phase := if t + 1 == |s.lh| then WritingHead else WritingLog(t + 1)))
  {
    hide Inv;
    InvFacts(c, s);
    TailFacts(c, s);
  }
}
