/**
 The log machine's step labels and the object the log promises to be: a disk whose file-system
 operations are grouped, and where a crash loses whole groups only.
 */
module AtomicDisk {
  import opened Options
  import opened LogDisk

  /** One atomic action. Steps after `EndOp` are taken by the committing process, steps after `Crash` by boot. */
  datatype Step =
    | BeginOp(p: nat)
    | Load(b: int)                        // bread, block not cached
    | Evict(b: int)                       // bget recycles a buffer
    | Hold(p: nat, b: int)                // bread, buffer lock taken
    | Modify(p: nat, b: int, v: Block)    // caller changes the locked buffer's data
    | LogCheck(p: nat, b: int)            // log_write: the size test, before log.lock is taken
    | LogAppend(p: nat)                   // log_write: the part under log.lock
    | Unhold(p: nat, b: int)              // brelse
    | EndOp(p: nat)
    | Read(b: int, v: Block)              // observe a home block
    | CopyToLog                           // one iteration of write_log
    | CommitHead                          // write_head in commit
    | InstallOne                          // one iteration of install_trans
    | EraseHead                           // the second write_head in commit
    | CommitReturn                        // end_op after commit() returned
    | Crash
    | ReadHead                            // read_head in recovery
    | RecoverOne                          // one iteration of install_trans in recovery
    | RecoverErase                        // write_head in recovery

  /**
   `stable` is what a crash cannot lose, `inflight` the contents being committed (if a commit is
   under way), `current` what reads return, `busy` the processes inside an operation.
   */
  datatype Spec = Spec(stable: Home, inflight: Option<Home>, current: Home, busy: set<nat>)

  /**
   Operations group: the group closes when the last open operation ends, so an operation is never
   split. Only a crash chooses, and only between all and none of the group being committed.
   */
  predicate SpecNext(a: Spec, e: Step, a': Spec) {
    match e
    case BeginOp(p) =>
      p !in a.busy && a.inflight == None && a' == a.(busy := a.busy + {p})
    case Modify(p, b, v) =>
      p in a.busy && b in a.current && a' == a.(current := a.current[b := v])
    case EndOp(p) =>
      && p in a.busy
      && a' == if a.busy == {p} then a.(busy := {}, inflight := Some(a.current)) else a.(busy := a.busy - {p})
    case Read(b, v) =>
      b in a.current && a.current[b] == v && a' == a
    case CommitReturn =>
      a.inflight.Some? && a' == a.(stable := a.inflight.value, inflight := None)
    case Crash =>
      && (a'.stable == a.stable || (a.inflight.Some? && a'.stable == a.inflight.value))
      && a' == Spec(a'.stable, None, a'.stable, {})
    case _ =>
      a' == a
  }

  predicate SpecRun(specs: seq<Spec>, es: seq<Step>) {
    && |specs| == |es| + 1
    && forall i :: 0 <= i < |es| ==> SpecNext(specs[i], es[i], specs[i + 1])
  }
}
