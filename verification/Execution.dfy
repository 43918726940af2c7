/** Running the traced process: waiting, single-stepping over sites, resuming and calling into it. */
module Execution {
  import opened Results
  import opened Bits
  import opened Memory
  import opened Traps
  import opened DebugRegisters
  import opened Stoppoints

  // ---------- what the kernel may do while the process runs ----------

  /** The program leaves the trap words in its memory alone. */
  predicate TrapsIntact(p: Process, bytes: Bytes)
    reads p`sites, p.sites
  {
    forall s, a :: s in p.sites && s.enabled && !s.hardware && s.address <= a < s.address + 4 ==>
      a in bytes && bytes[a] == TRAP[a - s.address]
  }

  /** Threads that survive keep their debug registers and suspensions, and stand still while suspended;
      new threads have new ids and are not suspended. */
  predicate ThreadsEvolve(seen: set<nat>, regs: map<nat, Registers>, debug: map<nat, DebugState>, counts: map<nat, nat>,
                          regs': map<nat, Registers>, debug': map<nat, DebugState>, counts': map<nat, nat>)
    requires regs.Keys == debug.Keys == counts.Keys && regs'.Keys == debug'.Keys == counts'.Keys
  {
    forall u :: u in regs' ==>
      if u in regs then debug'[u] == debug[u] && counts'[u] == counts[u] && (counts[u] > 0 ==> regs'[u] == regs[u])
      else u !in seen && counts'[u] == 0
  }

  lemma NothingEvolves(seen: set<nat>, regs: map<nat, Registers>, debug: map<nat, DebugState>, counts: map<nat, nat>)
    requires regs.Keys == debug.Keys == counts.Keys
    ensures ThreadsEvolve(seen, regs, debug, counts, regs, debug, counts)
  {}

  /** The memory that explains `bytes` under the traps: the old words below them. */
  ghost function Beneath(orig: Bytes, traps: set<nat>, bytes: Bytes): (r: Bytes)
    requires forall a :: a in bytes && WordOf(a) in traps ==> a in orig
  {
    map a | a in bytes :: if WordOf(a) in traps then orig[a] else bytes[a]
  }

  lemma BeneathKeepsWord(orig: Bytes, traps: set<nat>, bytes: Bytes, t: nat)
    requires forall a :: a in bytes && WordOf(a) in traps ==> a in orig
    requires t in traps && t % 4 == 0 && Covered(orig, t, 4) && Covered(bytes, t, 4)
    ensures Covered(Beneath(orig, traps, bytes), t, 4)
    ensures Loaded(Beneath(orig, traps, bytes), t, 4) == Loaded(orig, t, 4)
  {
    forall i | 0 <= i < 4
      ensures Loaded(Beneath(orig, traps, bytes), t, 4)[i] == Loaded(orig, t, 4)[i]
    {
      WordUnique(t + i, t);
    }
  }

  /** A byte in a patched word is covered by the memory under the traps. */
  lemma PatchedBytesCovered(p: Process, a: nat)
    requires p.TrapsConsistent() && WordOf(a) in p.TrapSet()
    ensures a in p.orig
    ensures exists s :: s in p.sites && s.Patched() && s.address == WordOf(a)
  {
    hide Overlaid, Loaded;
    var s :| s in p.sites && s.Patched() && s.address == WordOf(a);
    assert s.address <= a < s.address + 4;
  }

  lemma BeneathExplains(p: Process, bytes: Bytes)
    requires p.TrapsConsistent() && TrapsIntact(p, bytes)
    ensures forall a :: a in bytes && WordOf(a) in p.TrapSet() ==> a in p.orig
    ensures bytes == Overlaid(Beneath(p.orig, p.TrapSet(), bytes), p.TrapSet())
    ensures forall s :: s in p.sites && s.Patched() ==>
              && Covered(Beneath(p.orig, p.TrapSet(), bytes), s.address, 4)
              && s.saved == Loaded(Beneath(p.orig, p.TrapSet(), bytes), s.address, 4)
  {
    hide Loaded, p.TrapSet;
    assert forall a :: a in bytes && WordOf(a) in p.TrapSet() ==> a in p.orig by {
      forall a | a in bytes && WordOf(a) in p.TrapSet()
        ensures a in p.orig
      {
        PatchedBytesCovered(p, a);
      }
    }
    var under := Beneath(p.orig, p.TrapSet(), bytes);
    forall a | a in bytes
      ensures bytes[a] == Overlaid(under, p.TrapSet())[a]
    {
      if WordOf(a) in p.TrapSet() {
        PatchedBytesCovered(p, a);
        var s :| s in p.sites && s.Patched() && s.address == WordOf(a);
        assert bytes[a] == TRAP[a - s.address];
      }
    }
    forall s | s in p.sites && s.Patched()
      ensures Covered(under, s.address, 4) && s.saved == Loaded(under, s.address, 4)
    {
      PatchedInTrapSet(p, s);
      BeneathKeepsWord(p.orig, p.TrapSet(), bytes, s.address);
    }
  }

  lemma PatchedInTrapSet(p: Process, s: BreakpointSite)
    requires p.TrapsConsistent() && s in p.sites && s.Patched()
    ensures s.address in p.TrapSet() && s.address % 4 == 0
  {
    hide Overlaid, Loaded;
  }

  lemma StartsExplained(p: Process)
    requires p.StoppointsValid()
    ensures p.TrapsConsistent()
  {}

  /** New memory that explains the raw bytes under the same traps, with the same words below them. */
  twostate lemma StillExplained(p: Process)
    requires old(p.StoppointsValid()) && p.task.Valid() && p.task.bytes == Overlaid(p.orig, old(p.TrapSet()))
    requires p.sites == old(p.sites) && p.watchpoints == old(p.watchpoints) && p.debug == old(p.debug)
               && p.owner == old(p.owner)
    requires forall s :: s in p.sites ==> s.Same()
    requires forall w :: w in p.watchpoints ==> w.Same()
    requires forall s :: s in p.sites && s.Patched() ==>
               Covered(p.orig, s.address, 4) && s.saved == Loaded(p.orig, s.address, 4)
    ensures p.StoppointsValid()
  {
    hide p.SlotsConsistent, Overlaid, Loaded, Covered;
    assert p.TrapSet() == old(p.TrapSet());
    p.SlotsUnclaimed();
  }

  /** What a run from the old state to this one is recorded as. */
  twostate function RunOf(p: Process): Run
    reads p.kernel`regs
  {
    Run(old(p.task.bytes), old(p.kernel.regs), old(p.kernel.debug), old(p.kernel.suspensions), old(p.current),
        old(p.stepping), p.kernel.regs)
  }

  /** The program has written its memory and left the traps alone: some memory explains it. */
  method ChangeMemory(p: Process, bytes: Bytes, prot: Protections)
    requires p.StoppointsValid() && TrapsIntact(p, bytes)
    requires bytes.Keys == prot.Keys && forall a :: a in bytes ==> a < USER_LIMIT
    modifies p.task`bytes, p.task`prot, p`orig
    ensures p.StoppointsValid() && p.task.bytes == bytes
  {
    hide p.StoppointsValid, p.TrapSet, TrapsIntact, Overlaid, Loaded, Covered, Beneath;
    StartsExplained(p);
    BeneathExplains(p, bytes);
    p.orig := Beneath(p.orig, p.TrapSet(), bytes);
    p.task.bytes, p.task.prot := bytes, prot;
    StillExplained(p);
  }

  /** A program that does nothing leaves the traps alone. */
  lemma OwnMemoryFits(p: Process)
    requires p.StoppointsValid()
    ensures p.task.Valid() && TrapsIntact(p, p.task.bytes)
  {
    hide Loaded, p.SlotsConsistent, p.SitesDistinct;
    forall s, a | s in p.sites && s.Patched() && s.address <= a < s.address + 4
      ensures a in p.task.bytes && p.task.bytes[a] == TRAP[a - s.address]
    {
      PatchedInTrapSet(p, s);
      WordUnique(a, s.address);
    }
  }

  /** What the kernel shows at the next stop: anything the program may have done, or a failure. */
  method NextStop(p: Process)
      returns (ok: bool, bytes: Bytes, prot: Protections,
               regs: map<nat, Registers>, debug: map<nat, DebugState>, counts: map<nat, nat>)
    requires p.Valid()
    ensures !ok ==> p.Fallible()
    ensures ok ==>
              && bytes.Keys == prot.Keys && (forall a :: a in bytes ==> a < USER_LIMIT) && TrapsIntact(p, bytes)
              && regs.Keys == debug.Keys == counts.Keys
              && ThreadsEvolve(p.kernel.seen, p.kernel.regs, p.kernel.debug, p.kernel.suspensions, regs, debug, counts)
  {
    hide p.StoppointsValid, p.TrapSet, TrapsIntact, ThreadsEvolve;
    ok, bytes, prot, regs, debug, counts := *, *, *, *, *, *;
    if && ok && bytes.Keys == prot.Keys && (forall a :: a in bytes ==> a < USER_LIMIT) && TrapsIntact(p, bytes)
       && regs.Keys == debug.Keys == counts.Keys
       && ThreadsEvolve(p.kernel.seen, p.kernel.regs, p.kernel.debug, p.kernel.suspensions, regs, debug, counts)
    {
      return;
    }
    ok := !p.kernel.fallible;
    OwnMemoryFits(p);
    NothingEvolves(p.kernel.seen, p.kernel.regs, p.kernel.debug, p.kernel.suspensions);
    bytes, prot := p.task.bytes, p.task.prot;
    regs, debug, counts := p.kernel.regs, p.kernel.debug, p.kernel.suspensions;
  }

  /** PT_STEP or PT_CONTINUE up to the next stop. */
  method LetRun(p: Process) returns (ok: bool)
    requires p.Valid()
    modifies p.task`bytes, p.task`prot, p.kernel, p`orig
    ensures p.Valid()
    ensures p.kernel.runs == if ok then old(p.kernel.runs) + [RunOf(p)] else old(p.kernel.runs)
    ensures old(p.kernel.seen) <= p.kernel.seen
    ensures ThreadsEvolve(old(p.kernel.seen), old(p.kernel.regs), old(p.kernel.debug), old(p.kernel.suspensions),
                          p.kernel.regs, p.kernel.debug, p.kernel.suspensions)
    ensures !ok ==> p.Fallible()
  {
    hide p.StoppointsValid, p.TrapSet, TrapsIntact, ThreadsEvolve;
    var bytes, prot, regs, debug, counts;
    ok, bytes, prot, regs, debug, counts := NextStop(p);
    if !ok {
      NothingEvolves(p.kernel.seen, p.kernel.regs, p.kernel.debug, p.kernel.suspensions);
      return;
    }
    var kernel := p.kernel;
    ghost var run := Run(p.task.bytes, kernel.regs, kernel.debug, kernel.suspensions, p.current, p.stepping, regs);
    ChangeMemory(p, bytes, prot);
    p.kernel.regs, p.kernel.debug, p.kernel.suspensions := regs, debug, counts;
    p.kernel.seen, p.kernel.runs := p.kernel.seen + regs.Keys, p.kernel.runs + [run];
  }

  // ---------- waiting ----------

  /** find_by_address and is_enabled: the index of the enabled site at an address, if there is one. */
  method EnabledSiteAt(p: Process, address: U64) returns (i: nat)
    ensures i <= |p.sites|
    ensures i < |p.sites| ==> p.sites[i].address == address && p.sites[i].enabled
    ensures p.StoppointsValid() && i == |p.sites| ==> forall s :: s in p.sites && s.address == address ==> !s.enabled
  {
    i := p.FindByAddress(address);
    if i < |p.sites| && !p.sites[i].enabled {
      assert p.StoppointsValid() ==> forall j :: 0 <= j < |p.sites| && p.sites[j].address == address ==> j == i;
      i := |p.sites|;
    }
  }

  ghost predicate EnabledAt(p: Process, a: nat)
    reads p`sites, p.sites`enabled
  {
    exists s :: s in p.sites && s.enabled && s.address == a
  }

  /** The thread stands at an enabled site. */
  ghost predicate AtSite(p: Process, u: nat)
    reads p`threads, p`sites, p.sites`enabled
  {
    u in p.threads && EnabledAt(p, p.threads[u].pc)
  }

  /** Some thread that stands at an enabled site, else the given one. */
  method ThreadAtSite(p: Process, otherwise: nat) returns (tid: nat)
    requires otherwise in p.threads
    ensures tid in p.threads
    ensures p.StoppointsValid() && (exists u :: AtSite(p, u)) ==> AtSite(p, tid)
  {
    var todo := p.threads.Keys;
    while todo != {}
      invariant todo <= p.threads.Keys
      invariant p.StoppointsValid() ==> forall u :: AtSite(p, u) ==> u in todo
      decreases todo
    {
      var u :| u in todo;
      var i := EnabledSiteAt(p, p.threads[u].pc);
      if i < |p.sites| {
        assert p.sites[i] in p.sites;
        return u;
      }
      todo := todo - {u};
    }
    tid := otherwise;
  }

  /** populate_existing_threads: rereads the threads and keeps the current one if it is still there. */
  method PopulateThreads(p: Process) returns (ok: bool)
    modifies p`threads, p`current
    ensures p.threads == p.kernel.regs
    ensures ok <==> p.threads != map[]
    ensures ok ==> p.current in p.threads && (old(p.current) in p.threads ==> p.current == old(p.current))
  {
    p.threads := p.kernel.regs;
    ok := p.threads != map[];
    if ok && p.current !in p.threads {
      var first :| first in p.threads;
      p.current := first;
    }
  }

  /** After a SIGTRAP the current thread is one that stands at an enabled site, if there is one. */
  method PickCurrent(p: Process)
    requires p.current in p.threads
    modifies p`current
    ensures p.current in p.threads
    ensures p.StoppointsValid() && (exists u :: AtSite(p, u)) ==> AtSite(p, p.current)
  {
    hide p.StoppointsValid;
    var hit: nat := *;
    if hit in p.threads { p.current := hit; }
    p.current := ThreadAtSite(p, p.current);
  }

  /** What waitpid reports: a stop, by a trap or not, or an end. */
  datatype Status = StopReport(trapped: bool) | ExitReport | SignalReport

  /** Continues the process until it stops or ends.  On a stop the threads are reread; after a trap the current one
      becomes one at an enabled site, if there is one, and otherwise stays if it lives. */
  method WaitOnSignal(p: Process) returns (r: Outcome, status: Status)
    requires p.Valid()
    modifies p.task`bytes, p.task`prot, p.kernel, p`orig, p`threads, p`current, p`state, p`faulted
    ensures r == Done || r == HalfDone
    ensures r == HalfDone ==> p.faulted
    ensures r == Done ==> p.faulted == old(p.faulted) && p.kernel.runs == old(p.kernel.runs) + [RunOf(p)]
    ensures p.Valid()
    ensures old(p.kernel.seen) <= p.kernel.seen
    ensures ThreadsEvolve(old(p.kernel.seen), old(p.kernel.regs), old(p.kernel.debug), old(p.kernel.suspensions),
                          p.kernel.regs, p.kernel.debug, p.kernel.suspensions)
    ensures r == Done && p.state == Stopped ==> p.threads == p.kernel.regs && p.current in p.threads
    ensures p.state == if status.StopReport? then Stopped else if status.ExitReport? then Exited else Terminated
    ensures r == Done && status == StopReport(true) && (exists u :: AtSite(p, u)) ==> AtSite(p, p.current)
    ensures r == Done && status == StopReport(false) && old(p.current) in p.threads ==> p.current == old(p.current)
    ensures r == HalfDone ==> p.Fallible() || p.kernel.regs == map[]
  {
    hide p.StoppointsValid, ThreadsEvolve;
    status := *;
    var ok := LetRun(p);
    p.state := match status case StopReport(_) => Stopped case ExitReport => Exited case SignalReport => Terminated;
    if ok && p.state == Stopped { ok := PopulateThreads(p); }
    if !ok {
      p.faulted := true;
      return HalfDone, status;
    }
    if status == StopReport(true) { PickCurrent(p); }
    r := Done;
  }

  // ---------- single steps ----------

  /** Suspend counts with one more, or one less, for each thread of a set. */
  function OneMore(counts: map<nat, nat>, us: set<nat>): map<nat, nat>
  {
    map u | u in counts :: if u in us then counts[u] + 1 else counts[u]
  }

  function OneLess(counts: map<nat, nat>, us: set<nat>): map<nat, nat>
  {
    map u | u in counts :: if u in us && counts[u] > 0 then counts[u] - 1 else counts[u]
  }

  /** Every thread that survived is suspended as often as before; new threads are not suspended. */
  predicate CountsRestored(before: map<nat, nat>, after: map<nat, nat>)
  {
    forall u :: u in after ==> after[u] == if u in before then before[u] else 0
  }

  /** The program has unmapped the instruction of a site. */
  ghost predicate SiteUnmapped(p: Process)
    reads p`sites, p`orig
  {
    exists s :: s in p.sites && !Covered(p.orig, s.address, 4)
  }

  /** Why a step may be cut short: the kernel is fallible, a thread was gone before, all are gone now, or a site's
      instruction is. */
  ghost predicate Hindered(p: Process, attached: bool)
    reads p.kernel`regs, p`orig, p`sites
  {
    p.Fallible() || !attached || p.kernel.regs == map[] || SiteUnmapped(p)
  }

  /** Why a call may be cut short: a step may be, or the process may end. */
  ghost predicate CallHindered(p: Process, attached: bool)
    reads p.kernel`regs, p`orig, p`sites, p`state
  {
    Hindered(p, attached) || p.state != Stopped
  }

  /** Why a site may not be enabled: the kernel is fallible, a thread is gone, or a site's instruction is. */
  ghost predicate SiteHindered(p: Process)
    reads p.kernel`regs, p`threads, p`orig, p`sites
  {
    p.Fallible() || !p.Attached() || SiteUnmapped(p)
  }

  /** Suspends every thread but t. */
  method SuspendOthers(p: Process, t: nat) returns (ok: bool, suspended: set<nat>)
    requires p.kernel.Valid()
    modifies p.kernel`suspensions
    ensures p.kernel.suspensions.Keys == old(p.kernel.suspensions).Keys
    ensures ok ==> suspended == p.threads.Keys - {t} && suspended <= p.kernel.suspensions.Keys
    ensures ok ==> p.kernel.suspensions == OneMore(old(p.kernel.suspensions), suspended)
    ensures !ok ==> p.Fallible() || !p.Attached()
  {
    suspended := {};
    var todo := p.threads.Keys - {t};
    while todo != {}
      invariant p.kernel.Valid()
      invariant todo !! suspended && todo + suspended == p.threads.Keys - {t} && suspended <= p.kernel.suspensions.Keys
      invariant p.kernel.suspensions == OneMore(old(p.kernel.suspensions), suspended)
      decreases todo
    {
      var u :| u in todo;
      ok := p.kernel.Suspend(u);
      if !ok { return; }
      todo, suspended := todo - {u}, suspended + {u};
    }
    ok := true;
  }

  /** Resumes the threads of a set; the ones that are gone do not matter. */
  method ResumeThreads(p: Process, us: set<nat>) returns (ok: bool)
    requires p.kernel.Valid()
    modifies p.kernel`suspensions
    ensures p.kernel.suspensions.Keys == old(p.kernel.suspensions).Keys
    ensures ok ==> p.kernel.suspensions == OneLess(old(p.kernel.suspensions), us)
    ensures !ok ==> p.Fallible()
  {
    ok := true;
    var todo := us;
    while todo != {}
      invariant p.kernel.Valid() && p.kernel.suspensions.Keys == old(p.kernel.suspensions).Keys && todo <= us
      invariant !ok ==> p.Fallible()
      invariant ok ==> p.kernel.suspensions == OneLess(old(p.kernel.suspensions), us - todo)
      decreases todo
    {
      var u :| u in todo;
      var resumed := p.kernel.Resume(u);
      ok := ok && resumed;
      todo := todo - {u};
    }
    assert us - todo == us;
  }

  /** The breakpoint pair held by the enabled hardware site at an address. */
  ghost function HardwareSlotAt(p: Process, a: U64): Option<nat>
    reads p`sites, p.sites
  {
    if exists s :: s in p.sites && s.enabled && s.hardware && s.address == a
    then var s :| s in p.sites && s.enabled && s.hardware && s.address == a; Some(s.slot)
    else None
  }

  lemma HardwareSlotOf(p: Process, s: BreakpointSite)
    requires p.StoppointsValid() && s in p.sites && s.enabled
    ensures HardwareSlotAt(p, s.address) == if s.hardware then Some(s.slot) else None
    ensures forall o :: o in p.sites && o.address == s.address ==> o == s
  {
    forall o | o in p.sites && o.address == s.address
      ensures o == s
    {
      var i, j :| 0 <= i < |p.sites| && 0 <= j < |p.sites| && p.sites[i] == o && p.sites[j] == s;
    }
  }

  lemma EnabledAligned(p: Process, s: BreakpointSite)
    requires p.Valid() && s in p.sites && s.enabled
    ensures s.address % 4 == 0 && p.debug.Valid() && (s.hardware ==> s.slot < SLOTS)
  {
    hide Overlaid, Loaded, Covered, ControlValue, Armed, p.WatchpointOwns;
    if s.hardware {
      assert p.SiteOwns(s);
    } else {
      assert s.address in p.TrapSet();
    }
  }

  /** What a step or a call keeps: the list of sites and which of them are enabled. */
  twostate predicate SitesKept(p: Process)
    reads p`sites, p.sites
  {
    p.sites == old(p.sites) && forall s :: s in p.sites ==> s.enabled == old(s.enabled)
  }

  /** What a step is measured against: the runs so far, the kernel's registers and suspensions, and the threads of the
      process. */
  datatype Before = Before(runs: seq<Run>, regs: map<nat, Registers>, counts: map<nat, nat>, threads: set<nat>)

  ghost function Now(p: Process): Before
    reads p.kernel`runs, p.kernel`regs, p.kernel`suspensions, p`threads
  {
    Before(p.kernel.runs, p.kernel.regs, p.kernel.suspensions, p.threads.Keys)
  }

  /** The threads of the process that have its debug registers, if all have. */
  ghost function SyncedThreads(p: Process): set<nat>
    reads p`threads, p`debug, p.kernel`debug
  {
    if p.InSync() then p.threads.Keys else {}
  }

  /** Thread t has the process's debug registers; so have the threads there were, if they had before. */
  ghost predicate ThreadsInStep(p: Process, synced: set<nat>, t: nat)
    reads p`threads, p`debug, p.kernel`debug
  {
    && (t in p.threads ==> t in p.kernel.debug && p.kernel.debug[t] == p.debug)
    && forall u :: u in p.threads && u in synced ==> u in p.kernel.debug && p.kernel.debug[u] == p.debug
  }

  lemma NoSlotNoChange(d: DebugState, pc: U64)
    ensures StepDebug(d, None, pc) == d
  {}

  /** Disarming a pair makes it free, and arming the lowest free pair then is what rearming means. */
  lemma ClearedIsFree(d: DebugState, slot: nat, pc: U64)
    requires d.Valid() && slot < SLOTS
    ensures Cleared(d, slot).bcr[slot] % 2 == 0
    ensures StepSlot(d, slot) == FirstFree(Cleared(d, slot).bcr).value
    ensures FirstFree(Cleared(d, slot).bcr).Some? && ControlValue(ExecuteMode, pc, 4) < TWO64
    ensures StepDebug(d, Some(slot), pc) == Placed(Cleared(d, slot), ExecuteMode, pc, 4,
              FirstFree(Cleared(d, slot).bcr).value)
  {
    hide ControlValue, Placed;
    assert Cleared(d, slot).bcr[slot] == 0;
    ExecuteControl(pc, 4);
  }

  /** Suspends the other threads, sets t's single-step bit and notes that a step is under way. */
  method PrepareStep(p: Process, t: nat) returns (ok: bool, suspended: set<nat>)
    requires p.Valid()
    modifies p.kernel`suspensions, p.kernel`debug, p`stepping
    ensures p.Valid()
    ensures ok ==> suspended == p.threads.Keys - {t} && suspended <= old(p.kernel.suspensions).Keys
    ensures ok ==> t in old(p.kernel.debug)
    ensures ok ==> p.kernel.suspensions == OneMore(old(p.kernel.suspensions), suspended)
    ensures ok ==> p.kernel.debug == old(p.kernel.debug)[t := p.debug.(singleStep := true)]
    ensures ok ==> p.stepping
    ensures !ok ==> p.Fallible() || !p.Attached() || t !in p.kernel.regs
  {
    hide p.StoppointsValid;
    ok, suspended := SuspendOthers(p, t);
    if ok { ok := p.kernel.SetDebug(t, p.debug.(singleStep := true)); }
    if ok { p.stepping := true; }
  }

  /** The step is over: gives t the process's debug registers back if it is still there, and resumes the others. */
  method SettleStep(p: Process, t: nat, suspended: set<nat>) returns (ok: bool)
    requires p.Valid()
    modifies p.kernel`suspensions, p.kernel`debug, p`stepping
    ensures p.Valid() && !p.stepping
    ensures ok ==> p.kernel.suspensions == OneLess(old(p.kernel.suspensions), suspended)
    ensures ok ==> p.kernel.debug == if p.state == Stopped && t in p.threads then old(p.kernel.debug)[t := p.debug]
                                     else old(p.kernel.debug)
    ensures !ok ==> p.Fallible() || (p.state == Stopped && !p.Attached())
  {
    hide p.StoppointsValid;
    ok, p.stepping := true, false;
    if p.state == Stopped && t in p.threads { ok := p.kernel.SetDebug(t, p.debug); }
    if ok { ok := ResumeThreads(p, suspended); }
  }

  /** Stepping t alone disturbs neither the suspensions nor the debug registers of the other threads. */
  lemma OthersUndisturbed(seen: set<nat>, regs: map<nat, Registers>, debug: map<nat, DebugState>,
                          counts: map<nat, nat>, us: set<nat>, t: nat, d: DebugState,
                          regs': map<nat, Registers>, debug': map<nat, DebugState>, counts': map<nat, nat>)
    requires regs.Keys == debug.Keys == counts.Keys && regs'.Keys == debug'.Keys == counts'.Keys
    requires us <= counts.Keys && t in debug
    requires ThreadsEvolve(seen, regs, debug[t := d], OneMore(counts, us), regs', debug', counts')
    ensures CountsRestored(counts, OneLess(counts', us))
    ensures forall u :: u in regs' && u in debug && u != t ==> debug'[u] == debug[u]
  {}

  /** A run that steps thread t alone: it starts from the given memory and registers, with the single-step bit in t's
      debug registers, every other thread of the process suspended once more, and those still there stand still. */
  predicate StepRun(run: Run, t: nat, threads: set<nat>, bytes: Bytes, d: DebugState, regs: map<nat, Registers>,
                    counts: map<nat, nat>)
  {
    && run.current == t && run.stepping && run.bytes == bytes && run.regs == regs
    && t in run.debug && run.debug[t] == d.(singleStep := true)
    && run.counts.Keys == counts.Keys
    && (forall u :: u in counts ==> run.counts[u] == if u in threads && u != t then counts[u] + 1 else counts[u])
    && forall u :: u in run.after && u in threads && u != t ==> u in regs && run.after[u] == regs[u]
  }

  lemma AloneIsStepRun(seen: set<nat>, regs: map<nat, Registers>, debug: map<nat, DebugState>, counts: map<nat, nat>,
                       threads: set<nat>, t: nat, d: DebugState, bytes: Bytes,
                       regs': map<nat, Registers>, debug': map<nat, DebugState>, counts': map<nat, nat>)
    requires regs.Keys == debug.Keys == counts.Keys && regs'.Keys == debug'.Keys == counts'.Keys
    requires t in debug && threads - {t} <= counts.Keys
    requires ThreadsEvolve(seen, regs, debug[t := d.(singleStep := true)], OneMore(counts, threads - {t}),
                           regs', debug', counts')
    ensures StepRun(Run(bytes, regs, debug[t := d.(singleStep := true)], OneMore(counts, threads - {t}), t, true,
                        regs'),
                    t, threads, bytes, d, regs, counts)
  {}

  lemma AloneSettles(seen: set<nat>, b: Before, debug: map<nat, DebugState>, t: nat, d: DebugState, bytes: Bytes,
                     regs': map<nat, Registers>, debug': map<nat, DebugState>, counts': map<nat, nat>)
    requires b.regs.Keys == debug.Keys == b.counts.Keys && regs'.Keys == debug'.Keys == counts'.Keys
    requires t in debug && b.threads - {t} <= b.counts.Keys
    requires ThreadsEvolve(seen, b.regs, debug[t := d.(singleStep := true)], OneMore(b.counts, b.threads - {t}),
                           regs', debug', counts')
    ensures CountsRestored(b.counts, OneLess(counts', b.threads - {t}))
    ensures forall u :: u in regs' && u in debug && u != t ==> debug'[u] == debug[u]
    ensures StepRun(Run(bytes, b.regs, debug[t := d.(singleStep := true)], OneMore(b.counts, b.threads - {t}), t, true,
                        regs'),
                    t, b.threads, bytes, d, b.regs, b.counts)
  {
    hide ThreadsEvolve, OneMore, OneLess, CountsRestored, StepRun;
    var others := b.threads - {t};
    OthersUndisturbed(seen, b.regs, debug, b.counts, others, t, d.(singleStep := true), regs', debug', counts');
    AloneIsStepRun(seen, b.regs, debug, b.counts, b.threads, t, d, bytes, regs', debug', counts');
  }

  /** Prepares the step and lets the process run until it stops. */
  method StepAndWait(p: Process, t: nat) returns (r: Outcome, suspended: set<nat>)
    requires p.Valid() && t in p.threads && p.current == t
    modifies p.task`bytes, p.task`prot, p.kernel, p`orig, p`threads, p`current, p`state, p`stepping, p`faulted
    ensures r == Done || r == HalfDone
    ensures r == HalfDone ==> p.faulted
    ensures p.Valid()
    ensures r == Done ==>
              && p.faulted == old(p.faulted) && old(p.kernel.seen) <= p.kernel.seen
              && CountsRestored(old(p.kernel.suspensions), OneLess(p.kernel.suspensions, suspended))
              && (forall u :: u in p.kernel.regs && u in old(p.kernel.debug) && u != t ==>
                    p.kernel.debug[u] == old(p.kernel.debug)[u])
              && (p.state == Stopped ==> p.threads == p.kernel.regs && p.current in p.threads)
    ensures r == Done ==> SteppedAlone(p, old(Now(p)), t, old(p.task.bytes), p.debug)
    ensures r == HalfDone ==> p.Fallible() || !old(p.Attached()) || p.kernel.regs == map[]
  {
    hide p.StoppointsValid, ThreadsEvolve, OneMore, OneLess, CountsRestored, StepRun, SteppedAlone;
    var ok;
    ok, suspended := PrepareStep(p, t);
    if !ok {
      p.faulted := true;
      return HalfDone, suspended;
    }
    var status;
    r, status := WaitOnSignal(p);
    if r != Done { return; }
    AloneSettles(old(p.kernel.seen), old(Now(p)), old(p.kernel.debug), t, p.debug, old(p.task.bytes),
                 p.kernel.regs, p.kernel.debug, p.kernel.suspensions);
    LastIsAlone(p, old(Now(p)), p.kernel.runs[|old(p.kernel.runs)|], t, old(p.task.bytes), p.debug);
  }

  lemma LastIsAlone(p: Process, before: Before, run: Run, t: nat, bytes: Bytes, d: DebugState)
    requires p.kernel.runs == before.runs + [run] && run.after == p.kernel.regs
    requires StepRun(run, t, before.threads, bytes, d, before.regs, before.counts)
    ensures SteppedAlone(p, before, t, bytes, d)
  {
    hide StepRun;
  }

  /** Exactly one run more, a step of thread t alone from the given memory and debug registers, whose registers the
      kernel has now. */
  ghost predicate SteppedAlone(p: Process, before: Before, t: nat, bytes: Bytes, d: DebugState)
    reads p.kernel`runs, p.kernel`regs
  {
    var (n, runs) := (|before.runs|, p.kernel.runs);
    && |runs| == n + 1 && runs[..n] == before.runs && p.kernel.regs == runs[n].after
    && StepRun(runs[n], t, before.threads, bytes, d, before.regs, before.counts)
  }

  /** Runs thread t alone for one step, with the single-step bit set in its debug registers. */
  method RunAlone(p: Process, t: nat) returns (r: Outcome)
    requires p.Valid() && t in p.threads && p.current == t
    modifies p.task`bytes, p.task`prot, p.kernel, p`orig, p`threads, p`current, p`state, p`stepping, p`faulted
    ensures r == Done || r == HalfDone
    ensures r == HalfDone ==> p.faulted
    ensures r == Done ==> p.faulted == old(p.faulted) && p.Valid() && old(p.kernel.seen) <= p.kernel.seen
    ensures r == Done ==> CountsRestored(old(p.kernel.suspensions), p.kernel.suspensions)
    ensures r == Done ==> SteppedAlone(p, old(Now(p)), t, old(p.task.bytes), p.debug)
    ensures r == Done && p.state == Stopped ==>
              && p.threads == p.kernel.regs && p.current in p.threads && !p.stepping
              && ThreadsInStep(p, old(SyncedThreads(p)), t)
    ensures r == HalfDone ==> p.Fallible() || !old(p.Attached()) || p.kernel.regs == map[]
  {
    hide p.StoppointsValid, OneLess, CountsRestored, ThreadsInStep, StepRun;
    var suspended;
    r, suspended := StepAndWait(p, t);
    if r != Done { return; }
    var ok := SettleStep(p, t, suspended);
    if !ok {
      p.faulted := true;
      return HalfDone;
    }
    if p.state == Stopped { StillInStep(p, t); }
  }

  twostate lemma StillInStep(p: Process, new t: nat)
    requires p.debug == old(p.debug)
    requires forall u :: u in p.threads ==> u in p.kernel.debug
    requires t in p.threads ==> p.kernel.debug[t] == p.debug
    requires forall u :: u in p.threads && u in old(p.kernel.debug) && u != t ==>
               p.kernel.debug[u] == old(p.kernel.debug)[u]
    ensures ThreadsInStep(p, old(SyncedThreads(p)), t)
  {}

  /** Memory with every trap but the one at an address. */
  ghost function WithoutTrap(p: Process, a: nat): Bytes
    reads p`orig, p`sites, p.sites`enabled
  {
    Overlaid(p.orig, p.TrapSet() - {a})
  }

  lemma NoTrapThere(p: Process, a: nat)
    requires p.StoppointsValid() && forall s :: s in p.sites && s.address == a ==> !s.enabled
    ensures p.task.bytes == WithoutTrap(p, a)
  {
    hide Overlaid, Loaded, p.SlotsConsistent;
    assert p.TrapSet() - {a} == p.TrapSet();
  }

  /** Disabling a site takes its trap, and no other, out of memory. */
  twostate lemma TrapGone(p: Process, new bp: BreakpointSite)
    requires p.StoppointsValid() && p.sites == old(p.sites) && p.orig == old(p.orig) && bp in p.sites && !bp.enabled
    requires forall s :: s in p.sites && s != bp ==> s.enabled == old(s.enabled)
    ensures p.task.bytes == old(WithoutTrap(p, bp.address))
  {
    hide Overlaid, Loaded, p.SlotsConsistent;
    assert forall s, o :: s in p.sites && o in p.sites && s.address == o.address ==> s == o;
    assert p.TrapSet() == old(p.TrapSet()) - {bp.address};
  }

  /** Disables the site thread t stands on and steps t alone. */
  method StepDisarmed(p: Process, t: nat, bp: BreakpointSite) returns (r: Outcome)
    requires p.Valid() && t in p.threads && p.current == t && bp in p.sites && bp.enabled
    modifies p.task`bytes, p.task`prot, p.kernel, p`orig, p`threads, p`current, p`state, p`stepping, p`faulted
    modifies p`debug, p`owner, bp`enabled
    ensures r == Done || r == HalfDone
    ensures r == HalfDone ==> p.faulted
    ensures r == Done ==>
              && p.Valid() && !bp.enabled && p.faulted == old(p.faulted) && old(p.kernel.seen) <= p.kernel.seen
              && p.debug == Disarmed(old(p.debug), if bp.hardware then Some(old(bp.slot)) else None)
    ensures r == Done ==> CountsRestored(old(p.kernel.suspensions), p.kernel.suspensions)
    ensures r == Done ==> SteppedAlone(p, old(Now(p)), t, old(WithoutTrap(p, bp.address)), p.debug)
    ensures r == Done && p.state == Stopped ==>
              && p.threads == p.kernel.regs && p.current in p.threads && !p.stepping
              && ThreadsInStep(p, old(SyncedThreads(p)), t)
    ensures r == HalfDone ==> p.Fallible() || !old(p.Attached()) || p.kernel.regs == map[]
  {
    hide p.StoppointsValid, ThreadsEvolve, CountsRestored, Cleared, StepRun, WithoutTrap;
    EnabledAligned(p, bp);
    r := p.DisableSite(bp);
    if r != Done { return; }
    TrapGone(p, bp);
    r := RunAlone(p, t);
  }

  /** Enables the site again, in the lowest free pair if it is a hardware one. */
  method PutBack(p: Process, bp: BreakpointSite) returns (r: Outcome)
    requires p.Valid() && bp in p.sites && !bp.enabled && bp.address % 4 == 0
    requires bp.hardware ==> p.debug.Valid() && FirstFree(p.debug.bcr).Some?
    modifies p.task`bytes, p.task`prot, bp`enabled, bp`saved, bp`slot, p`debug, p`owner, p`faulted, p.kernel`debug
    ensures r == Done || r == HalfDone
    ensures r == HalfDone ==> p.faulted
    ensures r == Done ==> p.Valid() && bp.enabled && p.faulted == old(p.faulted)
    ensures r == Done ==> forall us: set<nat>, u: nat :: old(ThreadsInStep(p, us, u)) ==> ThreadsInStep(p, us, u)
    ensures r == Done && !bp.hardware ==> p.debug == old(p.debug)
    ensures r == Done && bp.hardware ==>
              && ControlValue(ExecuteMode, bp.address, 4) < TWO64
              && bp.slot < SLOTS && bp.slot == FirstFree(old(p.debug.bcr)).value
              && p.debug == Placed(old(p.debug), ExecuteMode, bp.address, 4, bp.slot)
    ensures r == HalfDone ==> p.Fallible() || (bp.hardware && !p.Attached()) || SiteUnmapped(p)
  {
    hide p.StoppointsValid, Cleared, Placed, ControlValue;
    r := p.EnableSite(bp);
    if r == KernelError {
      p.faulted := true;
      r := HalfDone;
    }
  }

  /** Steps t alone with the site it stands on disabled. */
  method StepOver(p: Process, t: nat, bp: BreakpointSite) returns (r: Outcome)
    requires p.Valid() && t in p.threads && p.current == t && bp in p.sites && bp.enabled
    modifies p.task`bytes, p.task`prot, p.kernel, p`orig, p`threads, p`current, p`state, p`stepping, p`faulted
    modifies p`debug, p`owner, bp
    ensures r == Done || r == HalfDone
    ensures r == HalfDone ==> p.faulted
    ensures r == Done ==> p.faulted == old(p.faulted) && old(p.kernel.seen) <= p.kernel.seen
    ensures r == Done ==> CountsRestored(old(p.kernel.suspensions), p.kernel.suspensions)
    ensures r == Done && p.state == Stopped ==>
              && p.Valid() && bp.enabled && p.threads == p.kernel.regs && p.current in p.threads && !p.stepping
              && p.debug == StepDebug(old(p.debug), if bp.hardware then Some(old(bp.slot)) else None, bp.address)
              && (bp.hardware ==> bp.slot == StepSlot(old(p.debug), old(bp.slot)))
              && ThreadsInStep(p, old(SyncedThreads(p)), t)
    ensures r == Done ==>
              SteppedAlone(p, old(Now(p)), t, old(WithoutTrap(p, bp.address)),
                           Disarmed(old(p.debug), if bp.hardware then Some(old(bp.slot)) else None))
    ensures r == HalfDone ==> Hindered(p, old(p.Attached()))
  {
    hide p.StoppointsValid, ThreadsEvolve, CountsRestored, Cleared, Placed, FirstFree, ControlValue, StepDebug,
        StepSlot, SteppedAlone, WithoutTrap, ThreadsInStep, Now, SyncedThreads, p.TrapSet, p.Valid;
    EnabledAligned(p, bp);
    ghost var d, slot := p.debug, bp.slot;
    r := StepDisarmed(p, t, bp);
    if r != Done || p.state != Stopped { return; }
    if bp.hardware { ClearedIsFree(d, slot, bp.address); } else { NoSlotNoChange(d, bp.address); }
    r := PutBack(p, bp);
  }

  /** What one step of thread t does to the sites and the debug registers. */
  twostate predicate Stepped(p: Process, new t: nat)
    reads p`sites, p.sites, p`debug, p`threads
  {
    && t in old(p.threads) && SitesKept(p)
    && p.debug == old(StepDebug(p.debug, HardwareSlotAt(p, p.threads[t].pc), p.threads[t].pc))
    && forall s :: s in p.sites ==>
         if s.address != old(p.threads[t].pc) then s.Same()
         else s.hardware && s.enabled ==> s.slot == StepSlot(old(p.debug), old(s.slot))
  }

  /** The process has run once: thread t alone, with the single-step bit and with the trap at its pc out of memory, and
      the site there, if it is a hardware one, out of the debug registers. */
  twostate predicate SingleStep(p: Process, new t: nat)
    reads p.kernel`runs, p.kernel`regs
  {
    && t in old(p.threads)
    && var pc := old(p.threads[t].pc);
    SteppedAlone(p, old(Now(p)), t, old(WithoutTrap(p, pc)), old(Disarmed(p.debug, HardwareSlotAt(p, pc))))
  }

  /** The other threads stand still. */
  twostate lemma OthersStandStill(p: Process, new t: nat)
    requires SingleStep(p, t)
    ensures forall u :: u in p.kernel.regs && u in old(p.threads) && u != t ==>
              u in old(p.kernel.regs) && p.kernel.regs[u] == old(p.kernel.regs)[u]
  {}

  /** Makes thread t the current one and steps it, with the site it stands on disabled if there is one. */
  method StepThread(p: Process, t: nat) returns (r: Outcome)
    requires p.Valid()
    modifies p.task`bytes, p.task`prot, p.kernel, p`orig, p`threads, p`current, p`state, p`stepping, p`faulted
    modifies p`debug, p`owner, p.sites
    ensures r == Done || r == HalfDone || r == NoThread
    ensures r == NoThread <==> t !in old(p.threads)
    ensures r == NoThread ==>
              && p.Valid() && SitesKept(p) && p.debug == old(p.debug) && p.state == old(p.state)
              && (old(p.Attached()) ==> p.Attached())
    ensures r == HalfDone ==> p.faulted
    ensures r != HalfDone ==> p.faulted == old(p.faulted)
    ensures r == Done ==> old(p.kernel.seen) <= p.kernel.seen && SingleStep(p, t)
    ensures r == Done ==> CountsRestored(old(p.kernel.suspensions), p.kernel.suspensions)
    ensures r == Done && p.state == Stopped ==>
              && p.Valid() && Stepped(p, t) && ThreadsInStep(p, old(SyncedThreads(p)), t)
              && p.threads == p.kernel.regs && p.current in p.threads && !p.stepping
    ensures r == HalfDone ==> Hindered(p, old(p.Attached()))
  {
    hide p.StoppointsValid, ThreadsEvolve, CountsRestored, StepDebug, StepSlot, HardwareSlotAt, SteppedAlone;
    hide Disarmed, ThreadsInStep, Now, SyncedThreads, WithoutTrap, p.TrapSet;
    p.current := t;
    if t !in p.threads { return NoThread; }
    var i := EnabledSiteAt(p, p.threads[t].pc);
    if i < |p.sites| {
      HardwareSlotOf(p, p.sites[i]);
      r := StepOver(p, t, p.sites[i]);
    } else {
      NoHardwareSlot(p, p.threads[t].pc);
      NoTrapThere(p, p.threads[t].pc);
      r := RunAlone(p, t);
    }
  }

  /** step_instruction.  Thread t runs alone, with the single-step bit; every other thread that is still there has the
      registers it had.  A step that ends stopped leaves the sites and suspensions as they were.  It leaves the
      debug registers as they were too, unless it steps over a hardware site: then it arms that site anew. */
  method StepInstruction(p: Process, t: nat) returns (r: Outcome)
    requires p.Valid()
    modifies p.task`bytes, p.task`prot, p.kernel, p`orig, p`threads, p`current, p`state, p`stepping, p`faulted
    modifies p`debug, p`owner, p.sites
    ensures r == Done || r == HalfDone || r == NoThread
    ensures r == NoThread <==> t !in old(p.threads)
    ensures r == NoThread ==>
              && p.Valid() && SitesKept(p) && p.debug == old(p.debug) && p.state == old(p.state)
              && (old(p.Attached()) ==> p.Attached())
    ensures r == HalfDone ==> p.faulted
    ensures r != HalfDone ==> p.faulted == old(p.faulted)
    ensures r == Done ==> old(p.kernel.seen) <= p.kernel.seen && SingleStep(p, t)
    ensures r == Done ==> forall u :: u in p.kernel.regs && u in old(p.threads) && u != t ==>
              u in old(p.kernel.regs) && p.kernel.regs[u] == old(p.kernel.regs)[u]
    ensures r == Done ==> CountsRestored(old(p.kernel.suspensions), p.kernel.suspensions)
    ensures r == Done && p.state == Stopped ==>
              && p.Valid() && Stepped(p, t) && ThreadsInStep(p, old(SyncedThreads(p)), t) && !p.debug.singleStep
              && p.threads == p.kernel.regs && p.current in p.threads && !p.stepping
    ensures r == HalfDone ==> Hindered(p, old(p.Attached()))
  {
    hide p.StoppointsValid, CountsRestored, SingleStep, Stepped, ThreadsInStep, SitesKept;
    r := StepThread(p, t);
    if r == Done { OthersStandStill(p, t); }
    if r == Done && p.state == Stopped { BitOff(p); }
  }

  lemma BitOff(p: Process)
    requires p.StoppointsValid()
    ensures !p.debug.singleStep
  {}

  lemma NoHardwareSlot(p: Process, a: U64)
    requires forall s :: s in p.sites && s.address == a ==> !s.enabled
    ensures HardwareSlotAt(p, a) == None
    ensures StepDebug(p.debug, HardwareSlotAt(p, a), a) == p.debug
    ensures Disarmed(p.debug, HardwareSlotAt(p, a)) == p.debug
  {}

  // ---------- resuming and calling ----------

  /** No site is enabled where none is found. */
  lemma NoneFound(p: Process, a: U64)
    requires p.Valid()
    requires p.StoppointsValid() ==> forall s :: s in p.sites && s.address == a ==> !s.enabled
    ensures !EnabledAt(p, a)
    ensures StepDebug(p.debug, HardwareSlotAt(p, a), a) == p.debug
    ensures Disarmed(p.debug, HardwareSlotAt(p, a)) == p.debug
  {}

  lemma FallibleHinders(p: Process, attached: bool)
    requires p.kernel.fallible
    ensures CallHindered(p, attached)
  {}

  lemma StepHinders(p: Process, attached: bool)
    requires Hindered(p, attached) || p.state != Stopped
    ensures CallHindered(p, attached)
  {}

  /** resume: step over an enabled site at the pc, and only then, and continue. */
  method Resume(p: Process, t: nat) returns (r: Outcome)
    requires p.Valid()
    modifies p.task`bytes, p.task`prot, p.kernel, p`orig, p`threads, p`current, p`state, p`stepping, p`faulted
    modifies p`debug, p`owner, p.sites
    ensures r == Done || r == HalfDone || r == NotStopped || r == NoThread
    ensures r == NotStopped <==> old(p.state) != Stopped
    ensures r == HalfDone ==> p.faulted
    ensures r != HalfDone ==> p.faulted == old(p.faulted) && p.Valid()
    ensures r == NotStopped || r == NoThread ==> p.state == old(p.state) && p.debug == old(p.debug) && SitesKept(p)
    ensures r == NoThread ==> t !in old(p.threads)
    ensures r == Done ==>
              && p.state == Running && Stepped(p, t)
              && CountsRestored(old(p.kernel.suspensions), p.kernel.suspensions) && old(p.kernel.seen) <= p.kernel.seen
    ensures r == Done && old(AtSite(p, t)) ==> SingleStep(p, t)
    ensures r == Done && !old(AtSite(p, t)) ==>
              && Now(p) == old(Now(p)) && p.task.bytes == old(p.task.bytes) && p.kernel.debug == old(p.kernel.debug)
    ensures r == HalfDone ==> CallHindered(p, old(p.Attached()))
  {
    hide p.StoppointsValid, StepDebug, StepSlot, HardwareSlotAt, ThreadsInStep, SteppedAlone, WithoutTrap, p.TrapSet;
    hide Disarmed, p.Valid, p.kernel.Valid, Hindered, CallHindered, p.Fallible, SyncedThreads;
    if p.state != Stopped { return NotStopped; }
    if t !in p.threads { return NoThread; }
    var i := EnabledSiteAt(p, p.threads[t].pc);
    if i < |p.sites| {
      r := StepInstruction(p, t);
      if r != Done || p.state != Stopped { StepHinders(p, old(p.Attached())); }
      if r != Done { return; }
    } else {
      NoneFound(p, p.threads[t].pc);
    }
    if p.state != Stopped {
      p.faulted := true;
      return HalfDone;
    }
    var ok := p.kernel.Continue();
    if !ok {
      FallibleHinders(p, old(p.Attached()));
      p.faulted := true;
      return HalfDone;
    }
    p.state := Running;
    r := Done;
  }

  /** The return site is enabled; the other sites are as they were. */
  twostate predicate ReturnSiteEnabled(p: Process, ret: U64)
    reads p`sites, p.sites
  {
    && (exists s :: s in p.sites && s.address == ret && s.enabled)
    && forall s :: s in old(p.sites) && s.address != ret ==> s in p.sites && s.enabled == old(s.enabled)
  }

  /** Every site is as it was; if there was none at the return address, a disabled one has been added. */
  twostate predicate ReturnSiteRefused(p: Process, ret: U64)
    reads p`sites, p.sites
  {
    var n := |old(p.sites)|;
    && n <= |p.sites| && p.sites[..n] == old(p.sites)
    && (forall i :: 0 <= i < n ==> p.sites[i].enabled == old(p.sites[i].enabled))
    && if exists i :: 0 <= i < n && p.sites[i].address == ret then |p.sites| == n
       else |p.sites| == n + 1 && p.sites[n].address == ret && !p.sites[n].enabled
  }

  /** The site at the return address, created if there is none, and enabled. */
  method ReturnSite(p: Process, ret: U64) returns (r: Outcome, bp: BreakpointSite, created: bool, was: bool)
    requires p.Valid()
    modifies p`sites, p.sites, p.task`bytes, p.task`prot, p`debug, p`owner, p`faulted, p.kernel`debug
    ensures r == HalfDone ==> p.faulted
    ensures r != HalfDone ==> p.Valid() && p.faulted == old(p.faulted)
    ensures created <==> forall s :: s in old(p.sites) ==> s.address != ret
    ensures bp in p.sites && bp.address == ret
    ensures created ==> fresh(bp) && !was && !bp.hardware && p.sites == old(p.sites) + [bp]
    ensures !created ==> bp in old(p.sites) && p.sites == old(p.sites) && was == old(bp.enabled)
    ensures forall s :: s in p.sites && s != bp ==> s in old(p.sites) && s.Same()
    ensures was ==> bp.Same()
    ensures r == Done ==> bp.enabled
    ensures r != Done ==> !bp.enabled && !was && p.debug == old(p.debug)
    ensures r != Done && r != HalfDone ==> ReturnSiteRefused(p, ret)
    ensures ret % 4 != 0 ==> r == Misaligned || r == BadRequest
    ensures ret % 4 == 0 ==> r == Done || r == NoSlot || r == KernelError || r == HalfDone
    ensures r == NoSlot ==> bp.hardware && forall i :: 0 <= i < SLOTS ==> old(p.debug).bcr[i] % 2 == 1
    ensures r == Done && (was || !bp.hardware) ==> p.debug == old(p.debug)
    ensures r == Done && !was && bp.hardware ==>
              && FirstFree(old(p.debug).bcr).Some? && ControlValue(ExecuteMode, ret, 4) < TWO64
              && bp.slot < SLOTS && bp.slot == FirstFree(old(p.debug).bcr).value
              && p.debug == Placed(old(p.debug), ExecuteMode, ret, 4, bp.slot)
    ensures r == HalfDone ==> p.Fallible()
    ensures r == KernelError ==> SiteHindered(p)
  {
    hide p.StoppointsValid, ControlValue;
    var i := p.FindByAddress(ret);
    created := i == |p.sites|;
    if created {
      var site;
      r, site := p.CreateSite(ret, false, true);
      bp := site;
    } else {
      bp := p.sites[i];
    }
    was := bp.enabled;
    if was { EnabledAligned(p, bp); }
    r := p.EnableSite(bp);
  }

  /** Every trap is in memory. */
  predicate TrapsIn(bytes: Bytes, traps: set<nat>)
  {
    forall a, i :: a in traps && 0 <= i < 4 ==> a + i in bytes && bytes[a + i] == TRAP[i]
  }

  lemma TrapsPresent(p: Process)
    requires p.StoppointsValid()
    ensures TrapsIn(p.task.bytes, p.TrapSet())
  {
    hide p.SlotsConsistent, p.SitesDistinct;
    forall a, i | a in p.TrapSet() && 0 <= i < 4
      ensures a + i in p.task.bytes && p.task.bytes[a + i] == TRAP[i]
    {
      var s :| s in p.sites && s.Patched() && s.address == a;
      WordUnique(a + i, a);
    }
  }

  /** The memory in which thread t steps off the function, if a site is enabled there. */
  ghost function LoneStep(p: Process, func: nat): Option<Bytes>
    reads p`orig, p`sites, p.sites`enabled
  {
    if EnabledAt(p, func) then Some(WithoutTrap(p, func)) else None
  }

  /** The runs of a call: it starts with thread t at the function, with its registers as `entry`; a step of t alone, if
      one is needed, comes first; then all threads that were not suspended before run, over every trap. */
  predicate CallRan(runs: seq<Run>, before: Before, t: nat, entry: Registers, lone: Option<Bytes>, traps: set<nat>)
  {
    var (n, m) := (|before.runs|, |runs| - 1);
    && m == (if lone.Some? then n + 1 else n) && runs[..n] == before.runs
    && runs[n].regs == before.regs[t := entry]
    && (lone.Some? ==>
          && t in runs[n].debug && runs[m].regs == runs[n].after
          && StepRun(runs[n], t, before.threads, lone.value, runs[n].debug[t], before.regs[t := entry], before.counts))
    && CountsRestored(before.counts, runs[m].counts) && TrapsIn(runs[m].bytes, traps)
  }

  /** The call has begun: the step off the function, if one is needed, has been taken. */
  predicate CallBegun(now: Before, before: Before, t: nat, entry: Registers, lone: Option<Bytes>)
  {
    var n := |before.runs|;
    match lone
    case None => now.runs == before.runs && now.regs == before.regs[t := entry] && now.counts == before.counts
    case Some(bytes) =>
      && |now.runs| == n + 1 && now.runs[..n] == before.runs && now.regs == now.runs[n].after && t in now.runs[n].debug
      && StepRun(now.runs[n], t, before.threads, bytes, now.runs[n].debug[t], before.regs[t := entry], before.counts)
  }

  lemma BegunWithStep(now: Before, before: Before, t: nat, entry: Registers, bytes: Bytes, d: DebugState)
    requires |now.runs| == |before.runs| + 1 && now.runs[..|before.runs|] == before.runs
    requires now.regs == now.runs[|before.runs|].after
    requires StepRun(now.runs[|before.runs|], t, before.threads, bytes, d, before.regs[t := entry], before.counts)
    ensures CallBegun(now, before, t, entry, Some(bytes))
  {}

  lemma CallRuns(now: Before, runs: seq<Run>, last: Run, before: Before, t: nat, entry: Registers, lone: Option<Bytes>,
                 traps: set<nat>)
    requires CallBegun(now, before, t, entry, lone) && runs == now.runs + [last]
    requires last.regs == now.regs && last.counts == now.counts
    requires CountsRestored(before.counts, last.counts) && TrapsIn(last.bytes, traps)
    ensures CallRan(runs, before, t, entry, lone, traps)
  {
    hide CountsRestored, TrapsIn;
    var n := |before.runs|;
    assert runs[..n] == now.runs[..n] && (lone.Some? ==> runs[n] == now.runs[n]);
  }

  /** Sets the link register and the pc of thread t. */
  method EnterCall(p: Process, t: nat, func: U64, ret: U64) returns (ok: bool)
    requires p.Valid() && t in p.threads
    modifies p`threads, p.kernel`regs
    ensures ok ==> p.Valid() && p.threads == old(p.threads[t := p.threads[t].(lr := ret, pc := func)])
    ensures ok ==> p.kernel.regs == old(p.kernel.regs[t := p.threads[t].(lr := ret, pc := func)])
    ensures !ok ==> p.Fallible() || t !in p.kernel.regs
    ensures p.kernel.regs.Keys == old(p.kernel.regs).Keys
  {
    hide p.StoppointsValid;
    ok := SetThread(p, t, p.threads[t].(lr := ret));
    if ok { ok := SetThread(p, t, p.threads[t].(pc := func)); }
  }

  /** Points thread t at the function and resumes. */
  method BeginCall(p: Process, t: nat, func: U64, ret: U64) returns (r: Outcome)
    requires p.Valid() && t in p.threads
    modifies p.task`bytes, p.task`prot, p.kernel, p`orig, p`threads, p`current, p`state, p`stepping, p`faulted
    modifies p`debug, p`owner, p.sites
    ensures r == Done || r == HalfDone || r == NotStopped
    ensures r == NotStopped ==> old(p.state) != Stopped && p.state == old(p.state)
    ensures r == HalfDone ==> p.faulted
    ensures r != HalfDone ==> p.faulted == old(p.faulted) && p.Valid() && SitesKept(p)
    ensures r == Done ==>
              && p.debug == StepDebug(old(p.debug), old(HardwareSlotAt(p, func)), func)
              && (forall s :: s in p.sites ==>
                    if s.address != func then s.Same()
                    else s.hardware && s.enabled ==> s.slot == StepSlot(old(p.debug), old(s.slot)))
    ensures r == Done ==>
              CountsRestored(old(p.kernel.suspensions), p.kernel.suspensions) && old(p.kernel.seen) <= p.kernel.seen
    ensures r == Done ==>
              CallBegun(Now(p), old(Now(p)), t, old(p.threads[t].(lr := ret, pc := func)), old(LoneStep(p, func)))
    ensures r == HalfDone ==> CallHindered(p, old(p.Attached()))
  {
    hide p.StoppointsValid, StepDebug, StepSlot, HardwareSlotAt, CountsRestored, StepRun, WithoutTrap, p.TrapSet;
    hide Disarmed, p.Valid;
    ghost var before, entry, lone := Now(p), p.threads[t].(lr := ret, pc := func), LoneStep(p, func);
    var ok := EnterCall(p, t, func, ret);
    if !ok {
      p.faulted := true;
      return HalfDone;
    }
    ghost var now := Now(p);
    ghost var d := Disarmed(p.debug, HardwareSlotAt(p, func));
    assert now.threads == before.threads && lone == LoneStep(p, func);
    r := Resume(p, t);
    if r == Done && lone.Some? { BegunWithStep(Now(p), before, t, entry, lone.value, d); }
  }

  /** Points thread t at the function, lets it run and waits for the stop. */
  method RunCall(p: Process, t: nat, func: U64, ret: U64) returns (r: Outcome)
    requires p.Valid() && t in p.threads
    modifies p.task`bytes, p.task`prot, p.kernel, p`orig, p`threads, p`current, p`state, p`stepping, p`faulted
    modifies p`debug, p`owner, p.sites
    ensures r == Done || r == HalfDone || r == NotStopped
    ensures r == NotStopped ==> old(p.state) != Stopped
    ensures r == HalfDone ==> p.faulted
    ensures r != HalfDone ==> p.faulted == old(p.faulted) && p.Valid()
    ensures r == NotStopped ==> p.state == old(p.state)
    ensures r != HalfDone ==> SitesKept(p)
    ensures r == Done ==>
              && CallRan(p.kernel.runs, old(Now(p)), t, old(p.threads[t].(lr := ret, pc := func)),
                         old(LoneStep(p, func)), old(p.TrapSet()))
              && p.kernel.runs != [] && p.kernel.regs == p.kernel.runs[|p.kernel.runs| - 1].after
    ensures r == Done && p.state == Stopped ==>
              && p.threads == p.kernel.regs
              && p.debug == StepDebug(old(p.debug), old(HardwareSlotAt(p, func)), func)
              && (forall s :: s in p.sites ==>
                    if s.address != func then s.Same()
                    else s.hardware && s.enabled ==> s.slot == StepSlot(old(p.debug), old(s.slot)))
              && CountsRestored(old(p.kernel.suspensions), p.kernel.suspensions)
    ensures r == HalfDone ==> CallHindered(p, old(p.Attached()))
  {
    hide p.StoppointsValid, StepDebug, StepSlot, HardwareSlotAt, CountsRestored, ThreadsEvolve, LoneStep, CallBegun;
    hide CallRan, TrapsIn, p.TrapSet;
    ghost var before, entry, lone := Now(p), p.threads[t].(lr := ret, pc := func), LoneStep(p, func);
    r := BeginCall(p, t, func, ret);
    if r != Done { return; }
    ghost var now := Now(p);
    ghost var seen, debug := p.kernel.seen, p.kernel.debug;
    TrapsPresent(p);
    SameTraps(p);
    var status;
    r, status := WaitOnSignal(p);
    if r != Done { return; }
    ghost var last := p.kernel.runs[|p.kernel.runs| - 1];
    CallRuns(now, p.kernel.runs, last, before, t, entry, lone, old(p.TrapSet()));
    CountsChain(old(p.kernel.seen), old(p.kernel.suspensions), seen, now.regs, debug, now.counts,
                p.kernel.regs, p.kernel.debug, p.kernel.suspensions);
  }

  twostate lemma SameTraps(p: Process)
    requires SitesKept(p)
    ensures p.TrapSet() == old(p.TrapSet())
  {}

  /** Suspensions restored by a step stay restored until the next stop. */
  lemma CountsChain(before: set<nat>, counts0: map<nat, nat>,
                    seen: set<nat>, regs: map<nat, Registers>, debug: map<nat, DebugState>, counts: map<nat, nat>,
                    regs': map<nat, Registers>, debug': map<nat, DebugState>, counts': map<nat, nat>)
    requires regs.Keys == debug.Keys == counts.Keys && regs'.Keys == debug'.Keys == counts'.Keys
    requires counts0.Keys <= before <= seen && CountsRestored(counts0, counts)
    requires ThreadsEvolve(seen, regs, debug, counts, regs', debug', counts')
    ensures CountsRestored(counts0, counts')
  {}

  /** Writes a thread's registers, in the process's copy and in the kernel. */
  method SetThread(p: Process, t: nat, regs: Registers) returns (ok: bool)
    requires p.Valid() && t in p.threads
    modifies p`threads, p.kernel`regs
    ensures p.Valid() && p.threads == old(p.threads)[t := regs]
    ensures ok ==> t in p.kernel.regs && p.kernel.regs == old(p.kernel.regs)[t := regs]
    ensures !ok ==> p.Fallible() || t !in p.kernel.regs
    ensures p.kernel.regs.Keys == old(p.kernel.regs).Keys
  {
    hide p.StoppointsValid;
    p.threads := p.threads[t := regs];
    ok := p.kernel.SetRegs(t, regs);
  }

  /** The last run stopped with these registers of thread t. */
  predicate StoppedWith(runs: seq<Run>, t: nat, result: Registers)
  {
    runs != [] && t in runs[|runs| - 1].after && runs[|runs| - 1].after[t] == result
  }

  /** The return site is gone if the call made it, else as it was; its pair is free again. */
  twostate predicate SitePutBack(p: Process, bp: BreakpointSite, created: bool, was: bool)
    requires created ==> old(p.sites) != []
    reads p`sites, p.sites, bp, p`debug
  {
    && p.sites == (if created then old(p.sites)[..|old(p.sites)| - 1] else old(p.sites))
    && (forall s :: s in p.sites && s != bp ==> s in old(p.sites) && s.Same())
    && (!created ==> bp.enabled == was && bp.slot == old(bp.slot))
    && if !was && bp.hardware
       then old(bp.slot) < SLOTS && old(p.debug).Valid() && p.debug == Cleared(old(p.debug), old(bp.slot))
       else p.debug == old(p.debug)
  }

  /** Takes the return site away if the call made it, else back to how it was. */
  method PutSiteBack(p: Process, bp: BreakpointSite, created: bool, was: bool) returns (r: Outcome)
    requires p.Valid() && bp in p.sites && bp.enabled
    requires created ==> !was && !bp.hardware && p.sites[|p.sites| - 1] == bp
    modifies p`sites, p.sites, p.task`bytes, p.task`prot, p`debug, p`owner, p`faulted, p.kernel`debug
    ensures r == Done || r == HalfDone
    ensures r == HalfDone ==> p.faulted
    ensures forall s :: s in p.sites ==> s in old(p.sites)
    ensures r == Done ==>
              && p.Valid() && p.faulted == old(p.faulted)
              && SitePutBack(p, bp, created, was)
    ensures r == HalfDone ==> p.Fallible() || !old(p.Attached())
  {
    hide p.StoppointsValid, Cleared;
    p.Owned();
    if created {
      ghost var i;
      LastAlone(p);
      r, i := p.RemoveSite(bp.address);
      assert r != NotFound;
    } else if !was {
      r := p.DisableSite(bp);
    } else {
      r := Done;
    }
  }

  /** Gives the registers back and takes the return site away, or back to how it was. */
  method FinishCall(p: Process, t: nat, restore: Registers, bp: BreakpointSite, created: bool, was: bool)
      returns (r: Outcome)
    requires p.Valid() && t in p.threads && bp in p.sites && bp.enabled
    requires created ==> !was && !bp.hardware && p.sites[|p.sites| - 1] == bp
    modifies p`threads, p.kernel`regs, p`sites, p.sites, p.task`bytes, p.task`prot, p`debug, p`owner, p`faulted,
               p.kernel`debug
    ensures r == Done || r == HalfDone
    ensures r == HalfDone ==> p.faulted
    ensures forall s :: s in p.sites ==> s in old(p.sites)
    ensures r == Done ==>
              && p.Valid() && p.faulted == old(p.faulted) && (old(p.Attached()) ==> p.Attached())
              && t in p.threads && p.threads[t] == restore && t in p.kernel.regs && p.kernel.regs[t] == restore
              && SitePutBack(p, bp, created, was)
    ensures r == HalfDone ==> p.Fallible() || !old(p.Attached())
  {
    hide p.StoppointsValid, Cleared;
    var ok := SetThread(p, t, restore);
    if !ok {
      p.faulted := true;
      return HalfDone;
    }
    r := PutSiteBack(p, bp, created, was);
  }

  /** No other site shares the last one's address. */
  lemma LastAlone(p: Process)
    requires p.StoppointsValid() && p.sites != []
    ensures var n := |p.sites| - 1;
            && (forall i :: 0 <= i < |p.sites| && p.sites[i].address == p.sites[n].address ==> i == n)
            && Process.Without(p.sites, n) == p.sites[..n]
            && forall s :: s in p.sites && s != p.sites[n] ==> s.address != p.sites[n].address
  {}

  /** The pair the return site holds when the call is over. */
  ghost function LastSlot(d: DebugState, slot: nat, bp: BreakpointSite, func: U64): nat
  {
    if func == bp.address && bp.hardware then StepSlot(d, slot) else slot
  }

  /** The thread has its registers back, and is suspended as often as before, like all others. */
  twostate predicate ThreadRestored(p: Process, new t: nat, new restore: Registers)
    reads p`threads, p.kernel`regs, p.kernel`suspensions
  {
    && t in p.threads && p.threads[t] == restore && t in p.kernel.regs && p.kernel.regs[t] == restore
    && CountsRestored(old(p.kernel.suspensions), p.kernel.suspensions)
  }

  /** The return site is gone, or as it was before the call, and so are the others and the debug registers, up to what
      stepping off the function does to them. */
  twostate predicate CallFinished(p: Process, new bp: BreakpointSite, new created: bool, new was: bool, new func: U64,
                                   new slot: nat)
    requires created ==> old(p.sites) != []
    reads p`sites, p.sites, p`debug, bp
  {
    && p.sites == (if created then old(p.sites)[..|old(p.sites)| - 1] else old(p.sites))
    && (forall s :: s in p.sites && s != bp ==> s.enabled == old(s.enabled))
    && (!created ==> bp.enabled == was)
    && var stepped := StepDebug(old(p.debug), old(HardwareSlotAt(p, func)), func);
    if !was && bp.hardware then
      && LastSlot(old(p.debug), slot, bp, func) < SLOTS && stepped.Valid()
      && p.debug == Cleared(stepped, LastSlot(old(p.debug), slot, bp, func))
    else p.debug == stepped
  }

  /** The call proper, with the return site enabled: run, compare the pc, and clean up either way. */
  method CallAndReturn(p: Process, t: nat, func: U64, restore: Registers, bp: BreakpointSite, created: bool, was: bool)
    returns (r: Outcome, result: Registers)
    requires p.Valid() && t in p.threads && bp in p.sites && bp.enabled
    requires created ==> !was && !bp.hardware && p.sites[|p.sites| - 1] == bp
    modifies p.task`bytes, p.task`prot, p.kernel, p`orig, p`threads, p`current, p`state, p`stepping, p`faulted
    modifies p`debug, p`owner, p`sites, p.sites
    ensures r in {Done, NotReached, ThreadGone, NotStopped, HalfDone}
    ensures r == HalfDone ==> p.faulted
    ensures r != HalfDone ==> p.faulted == old(p.faulted)
    ensures forall s :: s in p.sites ==> s in old(p.sites)
    ensures r == Done || (r == NotReached && p.state == Stopped) ==>
              && p.state == Stopped && (r == Done <==> result.pc == bp.address)
              && CallRan(p.kernel.runs, old(Now(p)), t, old(p.threads[t].(lr := bp.address, pc := func)),
                         old(LoneStep(p, func)), old(p.TrapSet()))
              && StoppedWith(p.kernel.runs, t, result)
    ensures r == ThreadGone ==> p.state == Stopped && t !in p.threads
    ensures r == ThreadGone || r == NotStopped || (r == NotReached && p.state != Stopped) ==>
              p.Valid() && SitesKept(p)
    ensures r == NotStopped ==> p.state == old(p.state) && p.state != Stopped
    ensures p.state == Stopped && (r == Done || r == NotReached) ==>
              && p.Valid() && p.Attached() && ThreadRestored(p, t, restore)
              && CallFinished(p, bp, created, was, func, old(bp.slot))
    ensures r == HalfDone ==> CallHindered(p, old(p.Attached()))
  {
    hide p.StoppointsValid, StepDebug, StepSlot, CountsRestored, Cleared, HardwareSlotAt, CallRan, LoneStep, p.TrapSet;
    hide p.Valid, p.kernel.Valid, Now;
    result := restore;
    r := RunCall(p, t, func, bp.address);
    if r != Done { return; }
    if p.state != Stopped { return NotReached, result; }
    if t !in p.threads { return ThreadGone, result; }
    var reached := p.threads[t].pc == bp.address;
    result := p.threads[t];
    r := FinishCall(p, t, restore, bp, created, was);
    if r == Done && !reached { r := NotReached; }
  }

  /** A disabled hardware site stands at the address: enabling it will take a pair. */
  ghost predicate Idle(p: Process, a: U64)
    reads p`sites, p.sites
  {
    exists s :: s in p.sites && s.address == a && s.hardware && !s.enabled
  }

  /** Enabling the return site lends it a pair if it is an idle hardware site, and concerns no other site. */
  twostate lemma LentSlot(p: Process, new bp: BreakpointSite, new created: bool, new was: bool, new ret: U64,
      new func: U64)
    requires old(p.Valid()) && p.Valid() && bp in p.sites && bp.enabled && bp.address == ret
    requires created ==> bp !in old(p.sites) && !was && !bp.hardware && p.sites == old(p.sites) + [bp]
    requires !created ==> bp in old(p.sites) && p.sites == old(p.sites) && was == old(bp.enabled) && (was ==> bp.Same())
    requires forall s :: s in p.sites && s != bp ==> s in old(p.sites) && s.Same()
    ensures old(p.debug).Valid() && old(Idle(p, ret)) == (!was && bp.hardware)
    ensures HardwareSlotAt(p, func) ==
              if func == ret && !was && bp.hardware then Some(bp.slot) else old(HardwareSlotAt(p, func))
  {
    hide p.StoppointsValid, HardwareSlotAt;
    HardwareSlotOf(p, bp);
    if func == ret {
      SlotBefore(p, bp, func);
    } else {
      SlotElsewhere(p, bp, func);
    }
    assert forall s :: s in old(p.sites) ==> s in p.sites;
    assert forall s :: s in old(p.sites) && s.address == ret ==> s == bp;
    assert old(p.debug).Valid() by { DebugValid(p); }
  }

  twostate lemma DebugValid(p: Process)
    requires old(p.StoppointsValid())
    ensures old(p.debug).Valid()
  {}

  /** The slot at the return address before the site there was enabled. */
  twostate lemma SlotBefore(p: Process, new bp: BreakpointSite, new func: U64)
    requires old(p.StoppointsValid()) && bp.address == func
    requires forall s :: s in old(p.sites) && s.address == func ==> s == bp
    ensures old(HardwareSlotAt(p, func)) == if bp in old(p.sites) && old(bp.enabled) && bp.hardware
              then Some(old(bp.slot)) else None
  {
    hide p.StoppointsValid;
  }

  twostate lemma SlotElsewhere(p: Process, new bp: BreakpointSite, new func: U64)
    requires old(p.StoppointsValid()) && p.StoppointsValid() && bp.address != func
    requires forall s :: s in p.sites && s != bp ==> s in old(p.sites) && s.Same()
    requires forall s :: s in old(p.sites) ==> s in p.sites
    ensures HardwareSlotAt(p, func) == old(HardwareSlotAt(p, func))
  {
    hide p.StoppointsValid, HardwareSlotAt;
    if s :| s in p.sites && s.enabled && s.address == func {
      HardwareSlotOf(p, s);
      SlotBefore(p, s, func);
    } else {
      NoHardwareSlot(p, func);
      NoHardwareSlotBefore(p, func);
    }
  }

  twostate lemma NoHardwareSlotBefore(p: Process, new func: U64)
    requires forall s :: s in old(p.sites) && s.address == func ==> !old(s.enabled)
    ensures old(HardwareSlotAt(p, func)) == None
  {}

  lemma CallDebugIs(d: DebugState, arming: bool, ret: U64, atFunc: Option<nat>, func: U64, armed: DebugState, slot: nat,
                    lent: Option<nat>, bp: BreakpointSite, final: DebugState)
    requires Lent(d, arming, ret, atFunc, func, armed, slot, lent) && bp.address == ret && (arming ==> bp.hardware)
    requires var (stepped, last) := (StepDebug(armed, lent, func), LastSlot(armed, slot, bp, func));
             if arming then last < SLOTS && stepped.Valid() && final == Cleared(stepped, last) else final == stepped
    ensures final == CallDebug(d, arming, ret, atFunc, func)
  {
    hide ControlValue;
    if arming && func == ret {
      var cleared := Cleared(armed, slot);
      assert cleared.bcr[slot] == 0 && forall k :: 0 <= k < slot ==> cleared.bcr[k] == d.bcr[k];
      assert StepSlot(armed, slot) == slot;
    }
  }

  /** The traps in memory during a call: a software return site is among them. */
  ghost function CallTraps(p: Process, ret: nat): set<nat>
    reads p`sites, p.sites`enabled
  {
    p.TrapSet() + if exists s :: s in p.sites && s.address == ret && s.hardware then {} else {ret}
  }

  /** The memory in which the called thread steps off the function, if a site is enabled there for the call. */
  ghost function CallStep(p: Process, func: nat, ret: nat): Option<Bytes>
    reads p`orig, p`sites, p.sites`enabled
  {
    if func == ret || EnabledAt(p, func) then Some(Overlaid(p.orig, CallTraps(p, ret) - {func})) else None
  }

  /** Enabling the return site gives the traps and the first step of the call. */
  twostate lemma ReturnTraps(p: Process, new bp: BreakpointSite, new created: bool, new ret: nat, new func: nat)
    requires old(p.Valid()) && bp in p.sites && bp.enabled && bp.address == ret && p.orig == old(p.orig)
    requires created ==> bp !in old(p.sites) && !bp.hardware && p.sites == old(p.sites) + [bp]
    requires created ==> forall s :: s in old(p.sites) ==> s.address != ret
    requires !created ==> bp in old(p.sites) && p.sites == old(p.sites)
    requires forall s :: s in p.sites && s != bp ==> s in old(p.sites) && s.enabled == old(s.enabled)
    ensures p.TrapSet() == old(CallTraps(p, ret)) && LoneStep(p, func) == old(CallStep(p, func, ret))
  {
    hide p.TrapsConsistent, p.SlotsConsistent, Overlaid;
    assert forall s :: s in old(p.sites) ==> s in p.sites;
    assert forall s, o :: s in old(p.sites) && o in old(p.sites) && s.address == o.address ==> s == o;
    assert p.TrapSet() == old(CallTraps(p, ret));
    assert EnabledAt(p, func) <==> func == ret || old(EnabledAt(p, func));
  }

  /** The return site enabled, and what that makes of the traps, the first step and the pair the function's site
      holds. */
  method EnableReturnSite(p: Process, ret: U64, func: U64)
    returns (r: Outcome, bp: BreakpointSite, created: bool, was: bool)
    requires p.Valid()
    modifies p`sites, p.sites, p.task`bytes, p.task`prot, p`debug, p`owner, p`faulted, p.kernel`debug
    ensures r == HalfDone ==> p.faulted
    ensures r != HalfDone ==> p.Valid() && p.faulted == old(p.faulted)
    ensures r in {Done, Misaligned, BadRequest, NoSlot, KernelError, HalfDone}
    ensures ret % 4 != 0 ==> r == Misaligned || r == BadRequest
    ensures bp in p.sites && bp.address == ret
    ensures created ==> fresh(bp) && !was && !bp.hardware && p.sites == old(p.sites) + [bp]
    ensures !created ==> bp in old(p.sites) && p.sites == old(p.sites) && was == old(bp.enabled)
    ensures forall s :: s in p.sites && s != bp ==> s in old(p.sites) && s.Same()
    ensures r != Done ==> p.debug == old(p.debug)
    ensures r != Done && r != HalfDone ==> ReturnSiteRefused(p, ret)
    ensures r == Done ==>
              && bp.enabled && p.TrapSet() == old(CallTraps(p, ret)) && LoneStep(p, func) == old(CallStep(p, func, ret))
              && Lent(old(p.debug), old(Idle(p, ret)), ret, old(HardwareSlotAt(p, func)), func, p.debug, bp.slot,
                      HardwareSlotAt(p, func))
              && old(Idle(p, ret)) == (!was && bp.hardware)
    ensures r == HalfDone ==> forall attached: bool :: CallHindered(p, attached)
    ensures r == KernelError ==> SiteHindered(p)
  {
    hide p.StoppointsValid, Placed, FirstFree, ControlValue, HardwareSlotAt, ReturnSiteRefused, Idle, CallTraps;
    hide CallStep, LoneStep, p.TrapSet, p.Valid;
    r, bp, created, was := ReturnSite(p, ret);
    if r != Done { return; }
    LentSlot(p, bp, created, was, ret, func);
    ReturnTraps(p, bp, created, ret, func);
  }

  /** Enabling the return site has lent it the lowest free pair, if it was idle, and the function's site holds the pair
      it held, unless it is the return site. */
  ghost predicate Lent(d: DebugState, arming: bool, ret: U64, atFunc: Option<nat>, func: U64, armed: DebugState,
                       slot: nat, lent: Option<nat>)
  {
    && d.Valid()
    && (!arming ==> armed == d && lent == atFunc)
    && (arming ==>
          && FirstFree(d.bcr) == Some(slot) && slot < SLOTS && ControlValue(ExecuteMode, ret, 4) < TWO64
          && armed == Placed(d, ExecuteMode, ret, 4, slot)
          && lent == if func == ret then Some(slot) else atFunc)
  }

  /** The runs since then are those of the call. */
  twostate predicate CallMade(p: Process, new t: nat, new func: U64, new ret: U64)
    reads p.kernel`runs
  {
    && t in old(p.threads)
    && CallRan(p.kernel.runs, old(Now(p)), t, old(p.threads[t].(lr := ret, pc := func)), old(CallStep(p, func, ret)),
               old(CallTraps(p, ret)))
  }

  /** A call that has stopped: the result is what thread t stopped with, and the thread, the sites, the suspensions and
      the debug registers are as they have to be. */
  twostate predicate CallStopped(p: Process, new t: nat, new func: U64, new ret: U64, new restore: Registers,
                                 new result: Registers)
    reads p.kernel`runs, p`sites, p.sites, p`threads, p.kernel`regs, p.kernel`suspensions, p`debug
  {
    && CallMade(p, t, func, ret) && StoppedWith(p.kernel.runs, t, result)
    && SitesKept(p) && ThreadRestored(p, t, restore) && p.debug == old(DebugAfterCall(p, func, ret))
  }

  /** A call refused at the start has changed nothing but the return site. */
  twostate predicate CallRefused(p: Process, new ret: U64)
    reads p`debug, p`state, p`threads, p.kernel`runs, p.kernel`regs, p`sites, p.sites
  {
    && p.debug == old(p.debug) && p.state == old(p.state) && p.threads == old(p.threads)
    && p.kernel.runs == old(p.kernel.runs) && p.kernel.regs == old(p.kernel.regs) && ReturnSiteRefused(p, ret)
  }

  /** The debug registers after a call. */
  ghost function DebugAfterCall(p: Process, func: U64, ret: U64): DebugState
    reads p`debug, p`sites, p.sites
  {
    CallDebug(p.debug, Idle(p, ret), ret, HardwareSlotAt(p, func), func)
  }

  /** inferior_call.  The thread starts at the function with the return address in its link register, over the traps of
      all enabled sites and of the return site; the result is what it stopped with.  A call that ends stopped, with a
      result or with an error, has put everything back: the sites and which of them are enabled, the suspensions, the
      registers of the thread, and, up to the pairs lent and rearmed on the way, the debug registers.  A return site
      that cannot be enabled ends the call at the start, but a site made for it stays behind; a call that does not end
      stopped leaves its return site enabled. */
  method InferiorCall(p: Process, func: U64, ret: U64, restore: Registers, t: nat)
      returns (r: Outcome, result: Registers)
    requires p.Valid()
    modifies p.task`bytes, p.task`prot, p.kernel, p`orig, p`threads, p`current, p`state, p`stepping, p`faulted
    modifies p`debug, p`owner, p`sites, p.sites
    ensures r == NoThread <==> t !in old(p.threads)
    ensures r == NoThread ==>
              p.Valid() && SitesKept(p) && p.state == old(p.state) && (old(p.Attached()) ==> p.Attached())
    ensures r == HalfDone ==> p.faulted
    ensures r != HalfDone ==> p.faulted == old(p.faulted)
    ensures forall s :: s in p.sites ==> s in old(p.sites) || fresh(s)
    ensures r == Done ==> p.state == Stopped
    ensures p.state == Stopped && (r == Done || r == NotReached) ==>
              && p.Valid() && p.Attached() && (r == Done <==> result.pc == ret)
              && CallStopped(p, t, func, ret, restore, result)
    ensures r in {Done, NotReached, ThreadGone, NotStopped, Misaligned, BadRequest, NoSlot, NoThread, KernelError,
              HalfDone}
    ensures r == ThreadGone ==> p.state == Stopped && t !in p.threads
    ensures r == NotStopped ==> p.state == old(p.state) && p.state != Stopped
    ensures r == ThreadGone || r == NotStopped || (r == NotReached && p.state != Stopped) ==>
              p.Valid() && ReturnSiteEnabled(p, ret)
    ensures t in old(p.threads) && ret % 4 != 0 ==> r == Misaligned || r == BadRequest
    ensures r in {Misaligned, BadRequest, NoSlot, KernelError} ==> p.Valid() && CallRefused(p, ret)
    ensures r == HalfDone ==> CallHindered(p, old(p.Attached()))
    ensures r == KernelError ==> SiteHindered(p)
  {
    hide p.StoppointsValid, StepDebug, StepSlot, CallDebug, CountsRestored, Placed, Cleared, FirstFree, ControlValue;
    hide HardwareSlotAt, ReturnSiteRefused, Idle, CallRan, CallStep, CallTraps, LoneStep, StoppedWith, p.TrapSet;
    hide p.Valid, p.kernel.Valid, SyncedThreads, Lent, LastSlot, CallHindered, SiteHindered, Now;
    hide p.Fallible, p.Attached;
    result := restore;
    if t !in p.threads { return NoThread, result; }
    var bp, created, was;
    ghost var d, atFunc := p.debug, HardwareSlotAt(p, func);
    r, bp, created, was := EnableReturnSite(p, ret, func);
    if r == Done {
      ghost var armed, slot, lent := p.debug, bp.slot, HardwareSlotAt(p, func);
      r, result := CallAndReturn(p, t, func, restore, bp, created, was);
      if r == Done || (r == NotReached && p.state == Stopped) {
        CallDebugIs(d, !was && bp.hardware, ret, atFunc, func, armed, slot, lent, bp, p.debug);
      }
    }
  }

  // ---------- when the debug registers come back unchanged ----------

  /** The pair found for an address holds it. */
  lemma SlotHolds(p: Process, a: U64)
    requires p.StoppointsValid()
    ensures p.debug.Valid() && (HardwareSlotAt(p, a).Some? ==> Holding(p.debug, HardwareSlotAt(p, a).value, a))
  {
    hide p.StoppointsValid, ControlValue;
    p.Owned();
    if HardwareSlotAt(p, a).Some? {
      var s :| s in p.sites && s.enabled && s.hardware && s.address == a && s.slot == HardwareSlotAt(p, a).value;
      assert p.SiteOwns(s);
    }
  }

  /** A step leaves the debug registers unchanged exactly when the thread does not stand at an enabled hardware site, or
      every pair below that site's is armed. */
  lemma StepUnchangedIff(p: Process, a: U64)
    requires p.StoppointsValid()
    ensures p.debug.Valid()
    ensures StepDebug(p.debug, HardwareSlotAt(p, a), a) == p.debug <==>
              (HardwareSlotAt(p, a).Some? ==> forall i :: 0 <= i < HardwareSlotAt(p, a).value && i < SLOTS ==>
                  p.debug.bcr[i] % 2 == 1)
  {
    hide p.StoppointsValid, HardwareSlotAt, ControlValue, Rearmed;
    SlotHolds(p, a);
    if HardwareSlotAt(p, a).Some? { RearmedSameIff(p.debug, HardwareSlotAt(p, a).value, a); }
  }

  /** A call leaves them unchanged exactly when stepping off the function does, with the lent pair counted as armed, and
      the pair lent to an idle return site held that address, disarmed. */
  lemma CallUnchangedIff(p: Process, ret: U64, func: U64)
    requires p.StoppointsValid() && (Idle(p, ret) ==> FirstFree(p.debug.bcr).Some?)
    ensures p.debug.Valid()
    ensures var atFunc, lent := HardwareSlotAt(p, func), FirstFree(p.debug.bcr);
            CallDebug(p.debug, Idle(p, ret), ret, atFunc, func) == p.debug <==>
              && (atFunc.Some? ==> forall k :: 0 <= k < atFunc.value && k < SLOTS ==>
                    p.debug.bcr[k] % 2 == 1 || (Idle(p, ret) && k == lent.value))
              && (Idle(p, ret) ==> p.debug.bvr[lent.value] == ret && p.debug.bcr[lent.value] == 0)
  {
    hide p.StoppointsValid, ControlValue, CallDebug;
    SlotHolds(p, func);
    if Idle(p, ret) && func == ret { IdleHoldsNone(p, ret); }
    CallDebugSameIff(p.debug, Idle(p, ret), ret, HardwareSlotAt(p, func), func);
  }

  lemma IdleHoldsNone(p: Process, a: U64)
    requires p.StoppointsValid() && Idle(p, a)
    ensures HardwareSlotAt(p, a) == None
  {
    hide p.StoppointsValid;
    if s :| s in p.sites && s.enabled && s.address == a { HardwareSlotOf(p, s); }
  }

  // ---------- whole sessions ----------

  datatype Command =
    | Stoppoint(op: Op)
    | Step(tid: nat)
    | Call(func: U64, ret: U64, restore: Registers, tid: nat)

  /** Why a session may end early: the kernel is fallible, the process is not stopped any more, its threads or the
      instruction of a site are gone, a write does not spare the traps, or the thread that ran a call is gone. */
  ghost predicate MayEnd(p: Process, c: Command)
    reads p.kernel`regs, p`orig, p`state, p`sites, p.sites, p`threads
  {
    || CallHindered(p, true)
    || (c.Stoppoint? && Tramples(p, c.op))
    || (c.Call? && c.tid !in p.threads)
  }

  /** What a session can follow of a process: the memory without traps, the software sites and the traps. */
  datatype View = View(orig: Bytes, sites: set<nat>, traps: set<nat>)

  ghost function ViewOf(p: Process): View
    reads p`orig, p`sites, p.sites`enabled
  {
    View(p.orig, SoftwareSites(p), p.TrapSet())
  }

  /** What a command does to the view.  Stoppoint operations change sites and traps as they say and memory only by
      writing; steps and calls leave the traps alone, and a call at most leaves a disabled site behind. */
  ghost predicate Evolves(c: Command, v: View, v': View)
  {
    match c
    case Stoppoint(op) =>
      && ChangesAllowed(op, v.sites, v.traps, v'.sites, v'.traps)
      && if op.WriteOp? then Spares(v.traps, op.at, op.data) && exists n :: WritesPart(op, n, v, v')
         else v'.orig == v.orig
    case Step(_) => v'.sites == v.sites && v'.traps == v.traps
    case Call(_, ret, _, _) => v'.traps == v.traps && v.sites <= v'.sites <= v.sites + {ret}
  }

  /** The first n bytes of the data have been stored, except below the traps. */
  ghost predicate WritesPart(op: Op, n: nat, v: View, v': View)
    requires op.WriteOp?
  {
    n <= |op.data| && v'.orig == Under(v.orig, v.traps, op.at, op.data[..n])
  }

  /** Any session of stoppoint operations, steps and calls.  At every stop between two commands memory is the overlay of
      the enabled sites' traps, the armed pairs are those of the enabled hardware stoppoints, and the commands so far
      have done to the view what each may do. */
  method RunSession(p: Process, commands: seq<Command>) returns (completed: nat, ghost views: seq<View>)
    requires p.Valid() && !p.faulted && p.state == Stopped && p.Attached()
    modifies p`sites, p`watchpoints, p`debug, p`orig, p`owner, p`faulted, p.task, p.kernel, Objects(p)
    modifies p`threads, p`current, p`state, p`stepping
    ensures completed <= |commands|
    ensures |views| == completed + 1 && views[0] == old(ViewOf(p))
    ensures forall i :: 0 <= i < completed ==> Evolves(commands[i], views[i], views[i + 1])
    ensures completed == |commands| ==>
              p.Valid() && !p.faulted && p.state == Stopped && p.Attached() && ViewOf(p) == views[completed]
    ensures completed < |commands| ==> MayEnd(p, commands[completed])
  {
    hide p.StoppointsValid, MayEnd, ViewOf, Evolves;
    completed, views := 0, [ViewOf(p)];
    while completed < |commands|
      invariant completed <= |commands| && p.Valid() && !p.faulted && p.state == Stopped && p.Attached()
      invariant |views| == completed + 1 && views[0] == old(ViewOf(p)) && views[completed] == ViewOf(p)
      invariant forall i :: 0 <= i < completed ==> Evolves(commands[i], views[i], views[i + 1])
      invariant fresh(Objects(p) - old(Objects(p)))
    {
      var ok := RunCommand(p, commands[completed]);
      if !ok { return; }
      views := views + [ViewOf(p)];
      completed := completed + 1;
    }
  }

  twostate lemma SameView(p: Process)
    requires SitesKept(p)
    ensures SoftwareSites(p) == old(SoftwareSites(p)) && p.TrapSet() == old(p.TrapSet())
  {}

  twostate lemma RefusedView(p: Process, new ret: U64)
    requires ReturnSiteRefused(p, ret)
    ensures p.TrapSet() == old(p.TrapSet())
    ensures old(SoftwareSites(p)) <= SoftwareSites(p) <= old(SoftwareSites(p)) + {ret}
  {
    var n := |old(p.sites)|;
    assert forall i :: 0 <= i < n ==> p.sites[i] == p.sites[..n][i] == old(p.sites)[i];
    forall s | s in p.sites
      ensures s in old(p.sites) || (s.address == ret && !s.enabled)
    {
      var i :| 0 <= i < |p.sites| && p.sites[i] == s;
      if i < n { assert old(p.sites)[i] == s; }
    }
    forall s | s in old(p.sites)
      ensures s in p.sites && s.enabled == old(s.enabled)
    {
      var i :| 0 <= i < n && old(p.sites)[i] == s;
      assert p.sites[i] == s;
    }
  }

  method RunCommand(p: Process, c: Command) returns (ok: bool)
    requires p.Valid() && !p.faulted && p.state == Stopped && p.Attached()
    modifies p`sites, p`watchpoints, p`debug, p`orig, p`owner, p`faulted, p.task, p.kernel, Objects(p)
    modifies p`threads, p`current, p`state, p`stepping
    ensures ok ==>
              && p.Valid() && !p.faulted && p.state == Stopped && p.Attached()
              && Evolves(c, old(ViewOf(p)), ViewOf(p))
    ensures !ok ==> MayEnd(p, c)
    ensures fresh(Objects(p) - old(Objects(p)))
  {
    hide p.StoppointsValid, SoftwareSites, p.TrapSet, ChangesAllowed, Spares, Under;
    if c.Stoppoint? {
      var r;
      ghost var w;
      ok, r, w := RunOp(p, c.op);
      if ok && c.op.WriteOp? {
        ghost var n := |w.part|;
        assert c.op.data[..n] == w.part;
        assert WritesPart(c.op, n, old(ViewOf(p)), ViewOf(p));
      }
    } else {
      ok := RunThread(p, c);
    }
  }

  /** A step or a call. */
  method RunThread(p: Process, c: Command) returns (ok: bool)
    requires p.Valid() && !p.faulted && p.state == Stopped && p.Attached() && !c.Stoppoint?
    modifies p`sites, p.sites, p`debug, p`orig, p`owner, p`faulted, p.task`bytes, p.task`prot, p.kernel
    modifies p`threads, p`current, p`state, p`stepping
    ensures ok ==>
              && p.Valid() && !p.faulted && p.state == Stopped && p.Attached()
              && Evolves(c, old(ViewOf(p)), ViewOf(p))
    ensures !ok ==> MayEnd(p, c)
    ensures forall s :: s in p.sites ==> s in old(p.sites) || fresh(s)
  {
    hide p.StoppointsValid, CountsRestored, CallDebug, StepDebug, HardwareSlotAt, ThreadsInStep;
    hide SoftwareSites, p.TrapSet, ReturnSiteRefused, SitesKept;
    match c {
      case Step(tid) =>
        var r := StepInstruction(p, tid);
        ok := r != HalfDone && p.state == Stopped;
        if ok { SameView(p); }
      case Call(func, ret, restore, tid) =>
        var r, result := InferiorCall(p, func, ret, restore, tid);
        ok := r != HalfDone && r != ThreadGone && p.state == Stopped;
        if r in {Misaligned, BadRequest, NoSlot, KernelError} { RefusedView(p, ret); }
        else if ok { SameView(p); }
    }
  }

  // ---------- a step that moves a breakpoint ----------

  /** With two hardware breakpoints enabled and the first disabled again, a step off the second leaves it enabled in
      pair 0 instead of pair 1. */
  method StepMovesSite(p: Process, a: U64, b: U64, t: nat) returns (shown: bool, ghost before: DebugState)
    requires p.Valid() && !p.faulted && p.sites == [] && p.watchpoints == []
    requires a % 4 == 0 && b % 4 == 0 && a != b && t in p.threads && p.threads[t].pc == b
    modifies p.task`bytes, p.task`prot, p.kernel, p`orig, p`threads, p`current, p`state, p`stepping, p`faulted
    modifies p`debug, p`owner, p`sites
    ensures shown ==>
              && |p.sites| == 2 && p.sites[1].address == b && p.sites[1].enabled && p.sites[1].slot == 0
              && before.Valid() && before.bvr[1] == b && before.bcr[1] % 2 == 1 && p.debug != before
    ensures !shown ==> CallHindered(p, old(p.Attached()))
  {
    hide p.StoppointsValid, ControlValue, StepDebug, StepSlot, HardwareSlotAt, CountsRestored;
    shown := HoldSecondPair(p, a, b);
    before := p.debug;
    if !shown { return; }
    HardwareSlotOf(p, p.sites[1]);
    var r := StepInstruction(p, t);
    shown := r == Done && p.state == Stopped;
  }

  /** Two hardware breakpoints, the first disabled again: the second holds pair 1, pair 0 is free. */
  method HoldSecondPair(p: Process, a: U64, b: U64) returns (ok: bool)
    requires p.Valid() && !p.faulted && p.sites == [] && p.watchpoints == []
    requires a % 4 == 0 && b % 4 == 0 && a != b
    modifies p.task`bytes, p.task`prot, p.kernel`debug, p`faulted, p`debug, p`owner, p`sites
    ensures fresh(set s | s in p.sites)
    ensures ok ==>
              && p.Valid() && |p.sites| == 2 && p.sites[1].address == b && p.sites[1].hardware && p.sites[1].enabled
              && p.sites[1].slot == 1 && p.debug.Valid() && p.debug.bvr[1] == b && p.debug.bcr[1] % 2 == 1
              && StepSlot(p.debug, 1) == 0 && StepDebug(p.debug, Some(1), b) != p.debug
    ensures !ok ==> p.Fallible() || !old(p.Attached())
  {
    hide p.StoppointsValid, ControlValue, Placed, Cleared, FirstFree, StepDebug, StepSlot;
    ok := false;
    NoneArmed(p);
    SecondMovesDown(p.debug, a, b, 0);
    ControlOdd(ExecuteMode, b, 4);
    var r, first := p.CreateSite(a, true, false);
    var q, second := p.CreateSite(b, true, false);
    if r != Done || q != Done { return; }
    r := p.EnableSite(first);
    if r != Done { return; }
    r := p.EnableSite(second);
    if r != Done { return; }
    r := p.DisableSite(first);
    ok := r == Done;
  }

  lemma NoneArmed(p: Process)
    requires p.StoppointsValid() && p.sites == [] && p.watchpoints == []
    ensures p.debug.Valid() && forall i :: 0 <= i < SLOTS ==> p.debug.bcr[i] % 2 == 0
  {
    hide p.StoppointsValid;
    p.Owned();
    p.SlotsExclusive();
    forall i | 0 <= i < SLOTS
      ensures p.debug.bcr[i] % 2 == 0
    {
      assert !Armed(p.debug, i);
    }
  }
}
