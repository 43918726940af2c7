/** Breakpoint sites and watchpoints of a traced process: trap patching and debug-register slots. */
module Stoppoints {
  import opened Results
  import opened Bits
  import opened Memory
  import opened Traps
  import opened DebugRegisters

  class BreakpointSite {
    const address: U64
    const hardware: bool
    const internal: bool
    var enabled: bool
    var saved: seq<Byte>
    var slot: nat

    constructor (address: U64, hardware: bool, internal: bool)
      ensures this.address == address && this.hardware == hardware && this.internal == internal && !enabled
    {
      this.address, this.hardware, this.internal := address, hardware, internal;
      enabled, saved, slot := false, [], 0;
    }

    twostate predicate Same()
      reads this
    {
      enabled == old(enabled) && saved == old(saved) && slot == old(slot)
    }

    /** The site has a trap word in memory. */
    ghost predicate Patched()
      reads this`enabled
    {
      enabled && !hardware
    }
  }

  class Watchpoint {
    const address: U64
    const mode: Mode
    const size: nat
    var enabled: bool
    var slot: nat

    constructor (address: U64, mode: Mode, size: nat)
      ensures this.address == address && this.mode == mode && this.size == size && !enabled
    {
      this.address, this.mode, this.size := address, mode, size;
      enabled, slot := false, 0;
    }

    twostate predicate Same()
      reads this
    {
      enabled == old(enabled) && slot == old(slot)
    }
  }

  datatype Registers = Registers(pc: U64, lr: U64, others: seq<U64>)

  /** One time the process was let run: the memory and the threads it was started with, the current one, whether a step
      was under way, and the registers it stopped with. */
  datatype Run = Run(bytes: Bytes, regs: map<nat, Registers>, debug: map<nat, DebugState>, counts: map<nat, nat>,
      current: nat, stepping: bool, after: map<nat, Registers>)

  /** The kernel's side of the threads: saved registers, debug registers and suspend counts. */
  class ThreadTable {
    const fallible: bool              // the kernel may refuse calls that it could carry out
    var regs: map<nat, Registers>
    var debug: map<nat, DebugState>
    var suspensions: map<nat, nat>
    var seen: set<nat>                // every id there has been: ids are not used again
    ghost var runs: seq<Run>          // every time the process was let run, in order

    ghost predicate Valid()
      reads this`regs, this`debug, this`suspensions, this`seen
    {
      regs.Keys == debug.Keys == suspensions.Keys <= seen
    }

    constructor (regs: map<nat, Registers>, initial: DebugState, fallible: bool)
      ensures Valid() && this.regs == regs && runs == [] && this.fallible == fallible
    {
      this.regs, this.fallible, runs := regs, fallible, [];
      debug := map t | t in regs :: initial;
      suspensions := map t | t in regs :: 0;
      seen := regs.Keys;
    }

    /** thread_set_state(ARM_DEBUG_STATE64) */
    method SetDebug(tid: nat, d: DebugState) returns (ok: bool)
      modifies this`debug
      ensures debug.Keys == old(debug).Keys
      ensures ok ==> tid in old(debug) && debug == old(debug)[tid := d]
      ensures !ok ==> debug == old(debug) && (fallible || tid !in debug)
    {
      ok := *;
      ok := (ok || !fallible) && tid in debug;
      if ok { debug := debug[tid := d]; }
    }

    /** thread_set_state for the general and vector registers */
    method SetRegs(tid: nat, r: Registers) returns (ok: bool)
      modifies this`regs
      ensures regs.Keys == old(regs).Keys
      ensures ok ==> tid in old(regs) && regs == old(regs)[tid := r]
      ensures !ok ==> regs == old(regs) && (fallible || tid !in regs)
    {
      ok := *;
      ok := (ok || !fallible) && tid in regs;
      if ok { regs := regs[tid := r]; }
    }

    /** thread_suspend */
    method Suspend(tid: nat) returns (ok: bool)
      modifies this`suspensions
      ensures suspensions.Keys == old(suspensions).Keys
      ensures ok ==> tid in old(suspensions) && suspensions == old(suspensions)[tid := old(suspensions)[tid] + 1]
      ensures !ok ==> suspensions == old(suspensions) && (fallible || tid !in suspensions)
    {
      ok := *;
      ok := (ok || !fallible) && tid in suspensions;
      if ok { suspensions := suspensions[tid := suspensions[tid] + 1]; }
    }

    /** PT_CONTINUE */
    method Continue() returns (ok: bool)
      ensures !ok ==> fallible
    {
      ok := *;
      ok := ok || !fallible;
    }

    /** thread_resume; resuming a thread that is gone does nothing. */
    method Resume(tid: nat) returns (ok: bool)
      modifies this`suspensions
      ensures suspensions.Keys == old(suspensions).Keys
      ensures ok ==> suspensions == Resumed(old(suspensions), tid)
      ensures !ok ==> suspensions == old(suspensions) && fallible
    {
      ok := *;
      ok := ok || !fallible;
      if ok { suspensions := Resumed(suspensions, tid); }
    }
  }

  function Resumed(counts: map<nat, nat>, tid: nat): map<nat, nat>
  {
    if tid in counts && counts[tid] > 0 then counts[tid := counts[tid] - 1] else counts
  }

  datatype State = Stopped | Running | Exited | Terminated

  datatype Outcome =
    | Done
    | KernelError        // a kernel call failed and nothing has changed
    | HalfDone           // a kernel call failed part way: a trap word half written, a pair not cleared everywhere
    | Misaligned         // "ARM64 breakpoints require a 4-byte aligned address"
    | BadRequest         // size or alignment refused
    | NoSlot             // "No hardware stoppoint slots available"
    | Duplicate          // "already created at address"
    | Unmapped           // "Write crosses unmapped memory"
    | NotFound           // "Stoppoint with given address not found"
    | NoThread           // std::out_of_range from the thread table
    | NotStopped         // "Process is not stopped"
    | NotReached         // "Inferior call did not reach its return breakpoint"
    | ThreadGone         // the called thread died, leaving its register reference dangling

  class Process {
    const task: Task
    const kernel: ThreadTable
    var sites: seq<BreakpointSite>
    var watchpoints: seq<Watchpoint>
    var debug: DebugState
    var threads: map<nat, Registers>
    var current: nat
    var state: State
    var stepping: bool

    ghost var orig: Bytes               // memory as it would be without traps
    ghost var owner: map<nat, object>   // who holds each armed slot
    ghost var faulted: bool             // some operation was left half done

    // ---------- invariants ----------

    /** Addresses with a trap word in memory. */
    ghost function TrapSet(): set<nat>
      reads this`sites, sites`enabled
    {
      set s | s in sites && s.Patched() :: s.address
    }

    ghost predicate SitesDistinct()
      reads this`sites, this`watchpoints
    {
      && (forall i, j :: 0 <= i < j < |sites| ==> sites[i].address != sites[j].address)
      && (forall i, j :: 0 <= i < j < |watchpoints| ==> watchpoints[i].address != watchpoints[j].address)
    }

    /** Raw memory is the original memory with a trap at each patched site, which has saved the original word. */
    ghost predicate TrapsConsistent()
      reads this`sites, this`orig, task`bytes, task`prot, sites`enabled, sites`saved
    {
      && task.Valid() && Aligned(TrapSet())
      && task.bytes == Overlaid(orig, TrapSet())
      && forall s :: s in sites && s.Patched() ==>
           Covered(orig, s.address, 4) && s.saved == Loaded(orig, s.address, 4)
    }

    ghost predicate SiteOwns(s: BreakpointSite)
      reads this`owner, this`debug, s`slot
    {
      && s.address % 4 == 0 && s.slot < SLOTS && s.slot in owner && owner[s.slot] == s
      && debug.Valid() && debug.bvr[s.slot] == s.address
      && debug.bcr[s.slot] == ControlValue(ExecuteMode, s.address, 4)
    }

    ghost predicate WatchpointOwns(w: Watchpoint)
      reads this`owner, this`debug, w`slot
    {
      && w.slot < 2 * SLOTS && w.slot in owner && owner[w.slot] == w
      && debug.Valid() && ValidRequest(w.mode, w.address, w.size)
      && if w.mode.ExecuteMode? then w.slot < SLOTS && debug.bvr[w.slot] == w.address
         else && SLOTS <= w.slot
              && debug.wvr[w.slot - SLOTS] == ValueFor(w.mode, w.address)
              && debug.wcr[w.slot - SLOTS] == ControlValue(w.mode, w.address, w.size)
    }

    /** The object that owns a slot is an enabled hardware stoppoint of this process. */
    ghost predicate Holds(slot: nat, o: object)
      reads this`sites, this`watchpoints, sites`enabled, sites`slot, watchpoints`enabled, watchpoints`slot
    {
      || (exists s :: s in sites && s == o && s.enabled && s.hardware && s.slot == slot)
      || (exists w :: w in watchpoints && w == o && w.enabled && w.slot == slot)
    }

    /** Enabled hardware stoppoints own distinct slots, programmed for them; a slot is armed exactly when owned. */
    ghost predicate SlotsConsistent()
      reads this`sites, this`watchpoints, this`owner, this`debug
      reads sites`enabled, sites`slot, watchpoints`enabled, watchpoints`slot
    {
      && debug.Valid()
      && (forall s :: s in sites && s.enabled && s.hardware ==> SiteOwns(s))
      && (forall w :: w in watchpoints && w.enabled ==> WatchpointOwns(w))
      && (forall k :: k in owner ==> Holds(k, owner[k]))
      && (forall k: nat :: k < 2 * SLOTS ==> (Armed(debug, k) <==> k in owner))
    }

    ghost predicate StoppointsValid()
      reads this`sites, this`watchpoints, this`owner, this`debug, this`orig, task`bytes, task`prot
      reads sites`enabled, sites`saved, sites`slot, watchpoints`enabled, watchpoints`slot
    {
      debug.Valid() && !debug.singleStep && SitesDistinct() && TrapsConsistent() && SlotsConsistent()
    }

    /** Every thread the process knows is still there. */
    ghost predicate Attached()
      reads this`threads, kernel`regs
    {
      threads.Keys <= kernel.regs.Keys
    }

    /** The kernel may refuse calls that it could carry out. */
    predicate Fallible() { task.fallible || kernel.fallible }

    ghost predicate Valid()
      reads this`sites, this`watchpoints, this`owner, this`debug, this`orig, task`bytes, task`prot
      reads kernel`regs, kernel`debug, kernel`suspensions, kernel`seen
      reads sites`enabled, sites`saved, sites`slot, watchpoints`enabled, watchpoints`slot
    {
      kernel.Valid() && StoppointsValid()
    }

    constructor (task: Task, kernel: ThreadTable, initial: DebugState)
      requires task.Valid() && kernel.Valid() && initial.Valid() && !initial.singleStep
      requires forall k: nat :: k < 2 * SLOTS ==> !Armed(initial, k)
      ensures Valid() && this.task == task && this.kernel == kernel && sites == [] && watchpoints == []
      ensures orig == task.bytes && debug == initial && state == Stopped && !faulted && threads == kernel.regs
    {
      this.task, this.kernel, sites, watchpoints, debug := task, kernel, [], [], initial;
      threads, current, state, stepping := kernel.regs, 0, Stopped, false;
      orig, owner, faulted := task.bytes, map[], false;
      new;
      NoTraps(orig);
      assert TrapSet() == {};
    }

    // ---------- the collection ----------

    /** find_by_address: the index of the first site at the address. */
    method FindByAddress(address: U64) returns (i: nat)
      ensures i <= |sites|
      ensures i < |sites| ==> sites[i].address == address
      ensures forall j :: 0 <= j < i ==> sites[j].address != address
    {
      i := 0;
      while i < |sites| && sites[i].address != address
        invariant i <= |sites|
        invariant forall j :: 0 <= j < i ==> sites[j].address != address
      {
        i := i + 1;
      }
    }

    /** Creates a disabled site, unless there is one at the address already. */
    method CreateSite(address: U64, hardware: bool, internal: bool) returns (r: Outcome, bp: BreakpointSite?)
      requires Valid()
      modifies this`sites
      ensures Valid()
      ensures r == Duplicate <==> exists s :: s in old(sites) && s.address == address
      ensures r == Duplicate ==> sites == old(sites)
      ensures r != Duplicate ==>
                && r == Done && bp != null && fresh(bp) && sites == old(sites) + [bp] && !bp.enabled
                && bp.address == address && bp.hardware == hardware && bp.internal == internal
    {
      hide Overlaid, Loaded, Covered, Aligned, SlotsConsistent;
      var i := FindByAddress(address);
      if i < |sites| {
        assert sites[i] in sites;
        return Duplicate, null;
      }
      bp := new BreakpointSite(address, hardware, internal);
      sites := sites + [bp];
      assert TrapSet() == old(TrapSet());
      SlotsUnclaimed();
      r := Done;
    }

    /** A stoppoint that held a slot and has not changed holds it still. */
    twostate lemma StillHolds(new k: nat, o: object)
      requires old(Holds(k, o))
      requires forall s :: s in old(sites) && s == o && old(s.enabled) && s.hardware && old(s.slot) == k ==>
                 s in sites && s.Same()
      requires forall w :: w in old(watchpoints) && w == o && old(w.enabled) && old(w.slot) == k ==>
                 w in watchpoints && w.Same()
      ensures Holds(k, o)
    {
      if s :| s in old(sites) && s == o && old(s.enabled) && s.hardware && old(s.slot) == k {
        assert s.Same();
      } else {
        var w :| w in old(watchpoints) && w == o && old(w.enabled) && old(w.slot) == k;
        assert w.Same();
      }
    }

    /** New stoppoints that are disabled do not concern the slots. */
    twostate lemma SlotsUnclaimed()
      requires old(SlotsConsistent()) && debug == old(debug) && owner == old(owner)
      requires forall s :: s in old(sites) ==> s in sites && s.Same()
      requires forall w :: w in old(watchpoints) ==> w in watchpoints && w.Same()
      requires forall s :: s in sites && s !in old(sites) ==> !s.enabled
      requires forall w :: w in watchpoints && w !in old(watchpoints) ==> !w.enabled
      ensures SlotsConsistent()
    {
      hide ValueFor, ControlValue, Armed, ValidRequest;
      forall k | k in owner
        ensures Holds(k, owner[k])
      {
        StillHolds(k, owner[k]);
      }
    }

    // ---------- software sites ----------

    /** breakpoint_site::enable for a software site: save the word, write the trap. */
    method Patch(bp: BreakpointSite) returns (r: Outcome)
      requires Valid() && bp in sites && !bp.hardware && !bp.enabled
      modifies task`bytes, task`prot, bp`enabled, bp`saved, this`faulted
      ensures r == Done ==> Valid() && bp.enabled && TrapSet() == old(TrapSet()) + {bp.address}
      ensures r != Done ==> !bp.enabled
      ensures r == Misaligned <==> bp.address % 4 != 0
      ensures r == Done || r == Misaligned || r == KernelError || r == HalfDone
      ensures r != HalfDone ==> Valid() && faulted == old(faulted)
      ensures r == HalfDone ==> faulted
      ensures r == KernelError ==> Fallible() || !Covered(orig, bp.address, 4)
      ensures r == HalfDone ==> Fallible()
    {
      hide Overlaid, Loaded, Stored, StoppointsValid;
      RawIsOverlay();
      if bp.address % 4 != 0 { return Misaligned; }
      var ok, word := task.Read(bp.address, 4);
      if !ok { return KernelError; }
      ghost var raw, before := task.bytes, TrapSet();
      assert bp.address !in before by { NotPatched(bp); }
      bp.saved := word;
      UnpatchedWord(orig, before, bp.address);
      PatchAddsTrap(orig, before, bp.address);
      var w;
      ghost var stored;
      w, stored := WriteMemory(task, bp.address, TRAP);
      if w != Written {
        faulted := true;
        return HalfDone;
      }
      assert TRAP[..stored] == TRAP;
      bp.enabled := true;
      assert TrapSet() == before + {bp.address};
      StillOverlaid(bp);
      r := Done;
    }

    /** Changing a software site does not concern the slots. */
    twostate lemma SlotsKept(bp: BreakpointSite)
      requires old(SlotsConsistent()) && !bp.hardware
      requires sites == old(sites) && watchpoints == old(watchpoints) && debug == old(debug) && owner == old(owner)
      requires forall s :: s in sites && s != bp ==> s.Same()
      requires forall w :: w in watchpoints ==> w.Same()
      ensures SlotsConsistent()
    {
      hide ValueFor, ControlValue, Armed, ValidRequest;
      forall k | k in owner
        ensures Holds(k, owner[k])
      {
        StillHolds(k, owner[k]);
      }
    }

    lemma RawIsOverlay()
      requires StoppointsValid()
      ensures SitesDistinct() && task.Valid() && Aligned(TrapSet())
      ensures task.bytes == Overlaid(orig, TrapSet()) && task.bytes.Keys == orig.Keys
      ensures forall s :: s in sites && s.Patched() ==>
                Covered(orig, s.address, 4) && s.saved == Loaded(orig, s.address, 4)
    {
      hide Overlaid, Loaded, Covered;
    }

    /** One software site patched or restored: the overlay and the slots still hold. */
    twostate lemma StillOverlaid(bp: BreakpointSite)
      requires old(StoppointsValid()) && !bp.hardware && task.Valid()
      requires sites == old(sites) && watchpoints == old(watchpoints) && debug == old(debug) && owner == old(owner)
      requires orig == old(orig) && task.bytes == Overlaid(orig, TrapSet())
      requires forall s :: s in sites && s != bp ==> s.Same()
      requires forall w :: w in watchpoints ==> w.Same()
      requires bp.Patched() ==>
                 bp.address % 4 == 0 && Covered(orig, bp.address, 4) && bp.saved == Loaded(orig, bp.address, 4)
      ensures StoppointsValid()
    {
      hide Overlaid, Loaded, Covered, SlotsConsistent;
      forall s | s in sites && s.Patched()
        ensures s.address % 4 == 0 && Covered(orig, s.address, 4) && s.saved == Loaded(orig, s.address, 4)
      {
        if s != bp { assert s.Same() && s.address in old(TrapSet()); }
      }
      SlotsKept(bp);
    }

    /** A disabled site's address is not patched: no other site shares it. */
    lemma NotPatched(bp: BreakpointSite)
      requires SitesDistinct() && bp in sites && !bp.Patched()
      ensures bp.address !in TrapSet()
    {
      forall s | s in sites && s.Patched()
        ensures s.address != bp.address
      {
        var i, j :| 0 <= i < |sites| && 0 <= j < |sites| && sites[i] == s && sites[j] == bp;
      }
    }

    /** breakpoint_site::disable for a software site: write the saved word back. */
    method Unpatch(bp: BreakpointSite) returns (r: Outcome)
      requires Valid() && bp in sites && !bp.hardware && bp.enabled
      modifies task`bytes, task`prot, bp`enabled, this`faulted
      ensures r == Done ==>
                Valid() && !bp.enabled && TrapSet() == old(TrapSet()) - {bp.address} && faulted == old(faulted)
      ensures r != Done ==> r == HalfDone && bp.enabled && faulted
      ensures r != Done ==> Fallible()
    {
      hide Overlaid, Loaded, Stored, StoppointsValid;
      RawIsOverlay();
      ghost var before := TrapSet();
      assert bp.address in before && bp.address % 4 == 0;
      UnpatchRemovesTrap(orig, before, bp.address);
      var w;
      ghost var stored;
      w, stored := WriteMemory(task, bp.address, bp.saved);
      if w != Written {
        faulted := true;
        return HalfDone;
      }
      assert bp.saved[..stored] == bp.saved;
      bp.enabled := false;
      assert TrapSet() == before - {bp.address} by { NotPatched(bp); }
      StillOverlaid(bp);
      r := Done;
    }

    // ---------- debug registers ----------

    /** Every thread has the process's debug registers. */
    ghost predicate InSync()
      reads this`threads, this`debug, kernel`debug
    {
      forall t :: t in threads ==> t in kernel.debug && kernel.debug[t] == debug
    }

    /** Gives every thread the process's debug registers. */
    method PushDebug() returns (ok: bool)
      requires kernel.Valid()
      modifies kernel`debug
      ensures kernel.Valid()
      ensures ok ==> InSync()
      ensures !ok ==> kernel.fallible || !Attached()
    {
      var todo := threads.Keys;
      while todo != {}
        invariant kernel.Valid() && todo <= threads.Keys
        invariant forall t :: t in threads && t !in todo ==> t in kernel.debug && kernel.debug[t] == debug
        decreases todo
      {
        var t :| t in todo;
        ok := kernel.SetDebug(t, debug);
        if !ok { return; }
        todo := todo - {t};
      }
      ok := true;
    }

    /** set_hardware_stoppoint: program the lowest free pair of the kind, or change nothing. */
    method SetHardwareStoppoint(address: U64, mode: Mode, size: nat) returns (r: Outcome, slot: nat)
      requires debug.Valid() && kernel.Valid()
      modifies this`debug, kernel`debug
      ensures kernel.Valid() && debug.Valid()
      ensures r == BadRequest <==>
                !(size in {1, 2, 4, 8} && address % (if mode.ExecuteMode? then 4 else size) == 0)
      ensures r == BadRequest <==> !ValidRequest(mode, address, size)
      ensures r == Done ==>
                && FirstFree(Controls(old(debug), mode)).Some?
                && var i := FirstFree(Controls(old(debug), mode)).value;
                && i < SLOTS && ControlValue(mode, address, size) < TWO64
                && slot == SlotNumber(mode, i) && debug == Placed(old(debug), mode, address, size, i)
                && InSync()
      ensures r == NoSlot ==> forall i :: 0 <= i < SLOTS ==> Controls(old(debug), mode)[i] % 2 == 1
      ensures r != Done ==> debug == old(debug)
      ensures r == Done || r == BadRequest || r == NoSlot || r == KernelError
      ensures r == KernelError ==> kernel.fallible || !Attached()
    {
      hide ControlValue, ValueFor, ValidRequest;
      slot := 0;
      ValidRequestIff(mode, address, size);
      if !ValidRequest(mode, address, size) { return BadRequest, slot; }
      ControlFits(mode, address, size);
      var i := 0;
      while i < SLOTS
        invariant i <= SLOTS && debug == old(debug) && kernel.Valid()
        invariant forall j :: 0 <= j < i ==> Controls(debug, mode)[j] % 2 == 1
      {
        if Controls(debug, mode)[i] % 2 == 0 {
          var before := debug;
          debug := Placed(debug, mode, address, size, i);
          var ok := PushDebug();
          if !ok {
            debug := before;
            var again := PushDebug();
            return KernelError, slot;
          }
          return Done, SlotNumber(mode, i);
        }
        i := i + 1;
      }
      r := NoSlot;
    }

    /** clear_hardware_stoppoint: disarm the slot in the process's registers, then in every thread. */
    method ClearHardwareStoppoint(slot: nat) returns (r: Outcome)
      requires debug.Valid() && kernel.Valid()
      modifies this`debug, kernel`debug, this`faulted
      ensures kernel.Valid() && debug.Valid()
      ensures r == BadRequest <==> slot >= 2 * SLOTS
      ensures r == BadRequest ==> debug == old(debug)
      ensures r != BadRequest ==> debug == Cleared(old(debug), slot)
      ensures r == Done ==> faulted == old(faulted) && InSync()
      ensures r == HalfDone ==> faulted
      ensures r == Done || r == BadRequest || r == HalfDone
      ensures r == HalfDone ==> kernel.fallible || !Attached()
    {
      if slot >= 2 * SLOTS { return BadRequest; }
      debug := Cleared(debug, slot);
      var ok := PushDebug();
      if !ok { faulted := true; }
      r := if ok then Done else HalfDone;
    }

    /** A new owner in a slot that was free leaves every other owner as it was. */
    twostate lemma NewOwner(new mode: Mode, new address: U64, new size: nat, new i: nat, new o: object)
      requires old(SlotsConsistent()) && i < SLOTS && ControlValue(mode, address, size) < TWO64
      requires !Armed(old(debug), SlotNumber(mode, i))
      requires debug == Placed(old(debug), mode, address, size, i)
      requires owner == old(owner)[SlotNumber(mode, i) := o]
      requires sites == old(sites) && watchpoints == old(watchpoints)
      requires forall s :: s in sites && s != o ==> s.Same()
      requires forall w :: w in watchpoints && w != o ==> w.Same()
      requires forall s :: s in sites && s == o ==> !old(s.enabled) && SiteOwns(s)
      requires forall w :: w in watchpoints && w == o ==> !old(w.enabled) && WatchpointOwns(w)
      requires Holds(SlotNumber(mode, i), o)
      ensures SlotsConsistent()
    {
      hide ValueFor, ControlValue, ValidRequest, Placed, Holds, SiteOwns, WatchpointOwns;
      var slot := SlotNumber(mode, i);
      assert slot !in old(owner);
      forall s | s in sites && s != o && s.enabled && s.hardware
        ensures SiteOwns(s)
      {
        SiteStillOwns(mode, address, size, i, o, s);
      }
      forall w | w in watchpoints && w != o && w.enabled
        ensures WatchpointOwns(w)
      {
        WatchpointStillOwns(mode, address, size, i, o, w);
      }
      forall k | k in owner && k != slot
        ensures Holds(k, owner[k])
      {
        StillHolds(k, owner[k]);
      }
      forall k: nat | k < 2 * SLOTS
        ensures Armed(debug, k) <==> k in owner
      {
        PlacedArms(old(debug), mode, address, size, i, k);
      }
    }

    /** A site that owned another pair owns it still. */
    twostate lemma SiteStillOwns(new mode: Mode, new address: U64, new size: nat, new i: nat, new o: object,
                                 s: BreakpointSite)
      requires old(debug).Valid() && i < SLOTS && ControlValue(mode, address, size) < TWO64
      requires debug == Placed(old(debug), mode, address, size, i)
      requires SlotNumber(mode, i) !in old(owner) && owner == old(owner)[SlotNumber(mode, i) := o]
      requires s.Same() && old(SiteOwns(s))
      ensures SiteOwns(s)
    {
      hide ValueFor, ControlValue;
    }

    twostate lemma WatchpointStillOwns(new mode: Mode, new address: U64, new size: nat, new i: nat, new o: object,
                                       w: Watchpoint)
      requires old(debug).Valid() && i < SLOTS && ControlValue(mode, address, size) < TWO64
      requires debug == Placed(old(debug), mode, address, size, i)
      requires SlotNumber(mode, i) !in old(owner) && owner == old(owner)[SlotNumber(mode, i) := o]
      requires w.Same() && old(WatchpointOwns(w))
      ensures WatchpointOwns(w)
    {
      hide ValueFor, ControlValue, ValidRequest;
    }

    /** An owner that gives its slot up leaves every other owner as it was. */
    twostate lemma OwnerGone(new slot: nat, new o: object)
      requires old(SlotsConsistent()) && slot < 2 * SLOTS && slot in old(owner) && old(owner)[slot] == o
      requires debug == Cleared(old(debug), slot) && owner == old(owner) - {slot}
      requires sites == old(sites) && watchpoints == old(watchpoints)
      requires forall s :: s in sites && s != o ==> s.Same()
      requires forall w :: w in watchpoints && w != o ==> w.Same()
      requires forall s :: s in sites && s == o ==> !s.enabled && old(s.slot) == slot
      requires forall w :: w in watchpoints && w == o ==> !w.enabled && old(w.slot) == slot
      ensures SlotsConsistent()
    {
      hide ValueFor, ControlValue, ValidRequest;
      forall s | s in sites && s.enabled && s.hardware
        ensures SiteOwns(s)
      {
        assert old(SiteOwns(s));
      }
      forall w | w in watchpoints && w.enabled
        ensures WatchpointOwns(w)
      {
        assert old(WatchpointOwns(w));
      }
      forall k | k in owner
        ensures Holds(k, owner[k])
      {
        StillHolds(k, owner[k]);
      }
      forall k: nat | k < 2 * SLOTS
        ensures Armed(debug, k) <==> k in owner
      {
        ClearedDisarms(old(debug), slot, k);
      }
    }

    /** Changing a hardware stoppoint does not concern the traps. */
    twostate lemma TrapsKept(new o: object)
      requires old(StoppointsValid()) && orig == old(orig) && sites == old(sites)
      requires task.bytes == old(task.bytes) && task.prot == old(task.prot)
      requires forall s :: s in sites && s != o ==> s.Same()
      requires forall s :: s in sites && s == o ==> s.hardware
      ensures TrapSet() == old(TrapSet()) && TrapsConsistent()
    {
      hide Overlaid, Loaded, Covered, Aligned, SlotsConsistent;
      assert TrapSet() == old(TrapSet());
    }

    /** What an enabled stoppoint owns. */
    lemma Owned()
      requires StoppointsValid()
      ensures debug.Valid() && (forall s :: s in sites && s.enabled && s.hardware ==> SiteOwns(s))
      ensures forall w :: w in watchpoints && w.enabled ==> WatchpointOwns(w)
    {
      hide SiteOwns, WatchpointOwns, TrapsConsistent;
    }

    /** Enabled hardware stoppoints hold distinct pairs, and a pair is armed exactly when one of them holds it. */
    lemma SlotsExclusive()
      requires StoppointsValid()
      ensures forall s, t :: s in sites && s.enabled && s.hardware && t in sites && t.enabled && t.hardware ==>
                s.slot == t.slot ==> s == t
      ensures forall v, w :: v in watchpoints && v.enabled && w in watchpoints && w.enabled && v.slot == w.slot ==>
                v == w
      ensures forall s, w :: s in sites && s.enabled && s.hardware && w in watchpoints && w.enabled ==> s.slot != w.slot
      ensures forall k: nat :: k < 2 * SLOTS ==>
                (Armed(debug, k) <==>
                 || (exists s :: s in sites && s.enabled && s.hardware && s.slot == k)
                 || (exists w :: w in watchpoints && w.enabled && w.slot == k))
    {
      hide ControlValue, ValueFor, ValidRequest, TrapsConsistent, Armed;
      forall s, w | s in sites && s.enabled && s.hardware && w in watchpoints && w.enabled
        ensures s.slot != w.slot
      {
        assert SiteOwns(s) && WatchpointOwns(w);
        assert s as object != w as object;
      }
      forall k: nat | k < 2 * SLOTS && k in owner
        ensures (exists s :: s in sites && s.enabled && s.hardware && s.slot == k)
             || (exists w :: w in watchpoints && w.enabled && w.slot == k)
      {
        assert Holds(k, owner[k]);
      }
    }

    /** An enabled watchpoint makes the hardware stop exactly the stores to its bytes, and loads of them if it is for
        both. */
    lemma EnabledWatches(w: Watchpoint, access: Access, a: nat)
      requires StoppointsValid() && w in watchpoints && w.enabled && !w.mode.ExecuteMode?
      ensures SLOTS <= w.slot < 2 * SLOTS && debug.Valid()
      ensures Catches(debug.wvr[w.slot - SLOTS], debug.wcr[w.slot - SLOTS], access, a) <==>
                w.address <= a < w.address + w.size && (access.Store? || w.mode.ReadWriteMode?)
    {
      hide ControlValue, ValueFor, ValidRequest, TrapsConsistent, Catches;
      Owned();
      assert WatchpointOwns(w);
      CaughtExactly(w.mode, w.address, w.size, access, a);
    }

    /** An enabled hardware site makes it stop exactly the instruction at its address. */
    lemma EnabledBreaks(s: BreakpointSite, pc: nat)
      requires StoppointsValid() && s in sites && s.enabled && s.hardware
      ensures s.slot < SLOTS && debug.Valid() && (Breaks(debug.bvr[s.slot], debug.bcr[s.slot], pc) <==> pc == s.address)
    {
      hide ControlValue, ValidRequest, TrapsConsistent, Breaks;
      Owned();
      assert SiteOwns(s);
      BrokenExactly(s.address, 4, pc);
    }

    /** A stoppoint that was disabled has taken a free slot. */
    twostate lemma Claimed(new mode: Mode, new address: U64, new size: nat, new i: nat, new o: object)
      requires old(StoppointsValid()) && orig == old(orig) && task.bytes == old(task.bytes)
                 && task.prot == old(task.prot)
      requires i < SLOTS && ControlValue(mode, address, size) < TWO64 && old(debug).Valid()
      requires !Armed(old(debug), SlotNumber(mode, i))
      requires debug == Placed(old(debug), mode, address, size, i)
      requires owner == old(owner)[SlotNumber(mode, i) := o]
      requires sites == old(sites) && watchpoints == old(watchpoints)
      requires forall s :: s in sites && s != o ==> s.Same()
      requires forall w :: w in watchpoints && w != o ==> w.Same()
      requires forall s :: s in sites && s == o ==> s.hardware && !old(s.enabled) && SiteOwns(s)
      requires forall w :: w in watchpoints && w == o ==> !old(w.enabled) && WatchpointOwns(w)
      requires Holds(SlotNumber(mode, i), o)
      ensures StoppointsValid() && TrapSet() == old(TrapSet())
    {
      hide TrapsConsistent, SlotsConsistent, SiteOwns, WatchpointOwns, Holds, ControlValue, Armed;
      NewOwner(mode, address, size, i, o);
      TrapsKept(o);
    }

    /** A stoppoint that was enabled has given its slot up. */
    twostate lemma Released(new slot: nat, new o: object)
      requires old(StoppointsValid()) && orig == old(orig) && task.bytes == old(task.bytes)
                 && task.prot == old(task.prot)
      requires slot < 2 * SLOTS && slot in old(owner) && old(owner)[slot] == o && old(debug).Valid()
      requires debug == Cleared(old(debug), slot) && owner == old(owner) - {slot}
      requires sites == old(sites) && watchpoints == old(watchpoints)
      requires forall s :: s in sites && s != o ==> s.Same()
      requires forall w :: w in watchpoints && w != o ==> w.Same()
      requires forall s :: s in sites && s == o ==> s.hardware && !s.enabled && old(s.slot) == slot
      requires forall w :: w in watchpoints && w == o ==> !w.enabled && old(w.slot) == slot
      ensures StoppointsValid() && TrapSet() == old(TrapSet())
    {
      hide TrapsConsistent, SlotsConsistent, Cleared;
      OwnerGone(slot, o);
      TrapsKept(o);
    }

    method ArmSite(bp: BreakpointSite) returns (r: Outcome)
      requires Valid() && bp in sites && bp.hardware && !bp.enabled
      modifies bp`enabled, bp`slot, this`debug, this`owner, kernel`debug
      ensures Valid() && TrapSet() == old(TrapSet()) && bp.enabled == (r == Done)
      ensures r == Done ==>
                && InSync() && FirstFree(old(debug).bcr).Some? && ControlValue(ExecuteMode, bp.address, 4) < TWO64
                && bp.slot < SLOTS && bp.slot == FirstFree(old(debug).bcr).value
                && debug == Placed(old(debug), ExecuteMode, bp.address, 4, bp.slot)
      ensures r != Done ==> debug == old(debug)
      ensures r == NoSlot ==> forall i :: 0 <= i < SLOTS ==> old(debug).bcr[i] % 2 == 1
      ensures r == BadRequest <==> bp.address % 4 != 0
      ensures r == Done || r == NoSlot || r == BadRequest || r == KernelError
      ensures r == KernelError ==> Fallible() || !Attached()
    {
      hide ControlValue, StoppointsValid;
      Owned();
      assert Controls(debug, ExecuteMode) == debug.bcr;
      var slot;
      r, slot := SetHardwareStoppoint(bp.address, ExecuteMode, 4);
      if r == Done {
        bp.slot, bp.enabled := slot, true;
        owner := owner[slot := bp];
      }
      if r == Done {
        assert Holds(slot, bp);
        Claimed(ExecuteMode, bp.address, 4, slot, bp);
      }
    }

    method DisarmSite(bp: BreakpointSite) returns (r: Outcome)
      requires Valid() && bp in sites && bp.hardware && bp.enabled
      modifies bp`enabled, this`debug, this`owner, this`faulted, kernel`debug
      ensures TrapSet() == old(TrapSet()) && bp.slot < SLOTS && debug.Valid() && debug == Cleared(old(debug), bp.slot)
      ensures r == Done ==> Valid() && !bp.enabled && faulted == old(faulted) && InSync()
      ensures r != Done ==> r == HalfDone && bp.enabled && faulted && !SlotsConsistent()
      ensures r == HalfDone ==> Fallible() || !Attached()
    {
      hide ControlValue, ValueFor, StoppointsValid;
      Owned();
      assert SiteOwns(bp);
      ControlOdd(ExecuteMode, bp.address, 4);
      r := ClearHardwareStoppoint(bp.slot);
      if r == Done {
        bp.enabled := false;
        owner := owner - {bp.slot};
      }
      if r == Done { Released(bp.slot, bp); }
    }

    /** breakpoint_site::enable */
    method EnableSite(bp: BreakpointSite) returns (r: Outcome)
      requires Valid() && bp in sites
      modifies task`bytes, task`prot, bp`enabled, bp`saved, bp`slot, this`debug, this`owner, this`faulted, kernel`debug
      ensures bp.enabled == (r == Done)
      ensures r != HalfDone ==> Valid() && faulted == old(faulted)
      ensures r == HalfDone ==> faulted && !bp.hardware
      ensures !bp.hardware ==> debug == old(debug) && kernel.debug == old(kernel.debug)
      ensures bp.hardware && r == Done && !old(bp.enabled) ==>
                && InSync() && FirstFree(old(debug).bcr).Some? && ControlValue(ExecuteMode, bp.address, 4) < TWO64
                && bp.slot < SLOTS && bp.slot == FirstFree(old(debug).bcr).value
                && debug == Placed(old(debug), ExecuteMode, bp.address, 4, bp.slot)
      ensures old(bp.enabled) ==> r == Done && debug == old(debug) && kernel.debug == old(kernel.debug) && bp.Same()
      ensures r != Done ==> debug == old(debug)
      ensures bp.address % 4 != 0 && !old(bp.enabled) ==> r == Misaligned || r == BadRequest
      ensures bp.address % 4 == 0 ==> r == Done || r == NoSlot || r == KernelError || r == HalfDone
      ensures r == NoSlot ==> bp.hardware && forall i :: 0 <= i < SLOTS ==> old(debug).bcr[i] % 2 == 1
      ensures r == KernelError ==> Fallible() || if bp.hardware then !Attached() else !Covered(orig, bp.address, 4)
      ensures r == HalfDone ==> Fallible()
    {
      if bp.enabled { return Done; }
      if bp.hardware { r := ArmSite(bp); } else { r := Patch(bp); }
    }

    /** breakpoint_site::disable */
    method DisableSite(bp: BreakpointSite) returns (r: Outcome)
      requires Valid() && bp in sites
      modifies task`bytes, task`prot, bp`enabled, this`debug, this`owner, this`faulted, kernel`debug
      ensures r == Done ==> Valid() && !bp.enabled && faulted == old(faulted)
      ensures r != Done ==> r == HalfDone && bp.enabled && old(bp.enabled) && faulted
      ensures !bp.hardware || !old(bp.enabled) ==> debug == old(debug) && kernel.debug == old(kernel.debug)
      ensures bp.hardware && old(bp.enabled) ==> bp.slot < SLOTS && debug == Cleared(old(debug), bp.slot)
      ensures bp.hardware && old(bp.enabled) && r == Done ==> InSync()
      ensures r == HalfDone ==> Fallible() || (bp.hardware && !Attached())
    {
      if !bp.enabled { return Done; }
      if bp.hardware { r := DisarmSite(bp); } else { r := Unpatch(bp); }
    }

    // ---------- watchpoints ----------

    /** Creates a disabled watchpoint, unless there is one at the address already, the address has a bit of
        `size - 1` set, or the watched bytes cannot be read. */
    method CreateWatchpoint(address: U64, mode: Mode, size: nat) returns (r: Outcome, w: Watchpoint?)
      requires Valid()
      modifies this`watchpoints
      ensures Valid()
      ensures r == Done || r == Duplicate || r == BadRequest || r == KernelError
      ensures r == Duplicate <==> exists v :: v in old(watchpoints) && v.address == address
      ensures r == BadRequest <==> And(address, Wrap64(size - 1)) != 0 && r != Duplicate
      ensures r != Done ==> watchpoints == old(watchpoints)
      ensures r == Done ==>
                && w != null && fresh(w) && watchpoints == old(watchpoints) + [w] && !w.enabled
                && w.address == address && w.mode == mode && w.size == size && And(address, Wrap64(size - 1)) == 0
      ensures r == KernelError ==> Fallible() || !Covered(task.bytes, address, size)
    {
      hide TrapsConsistent, SlotsConsistent, And;
      if exists v :: v in watchpoints && v.address == address { return Duplicate, null; }
      if And(address, Wrap64(size - 1)) != 0 { return BadRequest, null; }
      var ok, data := task.Read(address, size);
      if !ok { return KernelError, null; }
      w := new Watchpoint(address, mode, size);
      watchpoints := watchpoints + [w];
      SlotsUnclaimed();
      r := Done;
    }

    /** watchpoint::enable */
    method EnableWatchpoint(w: Watchpoint) returns (r: Outcome)
      requires Valid() && w in watchpoints
      modifies w`enabled, w`slot, this`debug, this`owner, kernel`debug
      ensures Valid() && w.enabled == (r == Done) && r in {Done, BadRequest, NoSlot, KernelError}
      ensures r != Done || old(w.enabled) ==> debug == old(debug)
      ensures r == Done && !old(w.enabled) ==>
                && InSync() && FirstFree(Controls(old(debug), w.mode)).Some?
                && var i := FirstFree(Controls(old(debug), w.mode)).value;
                && i < SLOTS && ControlValue(w.mode, w.address, w.size) < TWO64 && w.slot == SlotNumber(w.mode, i)
                && debug == Placed(old(debug), w.mode, w.address, w.size, i)
      ensures r == BadRequest <==> !old(w.enabled) && !ValidRequest(w.mode, w.address, w.size)
      ensures r == NoSlot ==> forall i :: 0 <= i < SLOTS ==> Controls(old(debug), w.mode)[i] % 2 == 1
      ensures r == KernelError ==> Fallible() || !Attached()
    {
      hide ControlValue, ValueFor, StoppointsValid, Placed, Armed, Holds, WatchpointOwns, ValidRequest;
      if w.enabled { return Done; }
      Owned();
      ghost var free := FirstFree(Controls(debug, w.mode));
      if free.Some? { FreeNotArmed(debug, w.mode); }
      var slot;
      r, slot := SetHardwareStoppoint(w.address, w.mode, w.size);
      if r == Done {
        w.slot, w.enabled := slot, true;
        owner := owner[slot := w];
        NowOwns(w, free.value);
        Claimed(w.mode, w.address, w.size, free.value, w);
      }
    }

    /** A watchpoint placed in a pair and entered as its owner owns it. */
    twostate lemma NowOwns(w: Watchpoint, new i: nat)
      requires old(debug).Valid() && i < SLOTS && ControlValue(w.mode, w.address, w.size) < TWO64
      requires debug == Placed(old(debug), w.mode, w.address, w.size, i) && ValidRequest(w.mode, w.address, w.size)
      requires w in watchpoints && w.enabled && w.slot == SlotNumber(w.mode, i) && w.slot in owner && owner[w.slot] == w
      ensures WatchpointOwns(w) && Holds(w.slot, w)
    {
      hide ControlValue, ValidRequest;
    }

    /** watchpoint::disable */
    method DisableWatchpoint(w: Watchpoint) returns (r: Outcome)
      requires Valid() && w in watchpoints
      modifies w`enabled, this`debug, this`owner, this`faulted, kernel`debug
      ensures r == Done ==> Valid() && !w.enabled && faulted == old(faulted)
      ensures r != Done ==> r == HalfDone && w.enabled && faulted
      ensures !old(w.enabled) ==> debug == old(debug)
      ensures old(w.enabled) ==> w.slot < 2 * SLOTS && debug == Cleared(old(debug), w.slot) && (r == Done ==> InSync())
      ensures r == HalfDone ==> Fallible() || !Attached()
    {
      hide ControlValue, ValueFor, StoppointsValid, Armed;
      if !w.enabled { return Done; }
      Owned();
      assert WatchpointOwns(w);
      r := ClearHardwareStoppoint(w.slot);
      if r == Done {
        w.enabled := false;
        owner := owner - {w.slot};
        Released(w.slot, w);
      }
    }

    // ---------- removal, memory access ----------

    /** The sites without the one at index i. */
    static function Without(ss: seq<BreakpointSite>, i: nat): seq<BreakpointSite>
      requires i < |ss|
    {
      ss[..i] + ss[i + 1..]
    }

    /** remove_by_address: disable the site, then erase it. */
    method RemoveSite(address: U64) returns (r: Outcome, ghost index: nat)
      requires Valid()
      modifies this`sites, sites, task`bytes, task`prot, this`debug, this`owner, this`faulted, kernel`debug
      ensures r == Done || r == NotFound || r == HalfDone
      ensures r == NotFound <==> forall s :: s in old(sites) ==> s.address != address
      ensures r != HalfDone ==> Valid() && faulted == old(faulted)
      ensures r == HalfDone ==> faulted
      ensures r != Done ==> sites == old(sites)
      ensures r == Done ==>
                && index < |old(sites)| && old(sites)[index].address == address && sites == Without(old(sites), index)
                && (!old(sites)[index].hardware ==> debug == old(debug) && kernel.debug == old(kernel.debug))
      ensures forall s :: s in old(sites) && s.address != address ==> s.Same()
      ensures r != HalfDone ==> forall s :: s in sites && s.Patched() ==> old(s.Patched())
      ensures r == HalfDone ==> Fallible() || !Attached()
    {
      hide TrapsConsistent, SlotsConsistent;
      index := 0;
      var i := FindByAddress(address);
      if i == |sites| { return NotFound, index; }
      var bp := sites[i];
      index := i;
      assert forall s :: s in sites && s.address != address ==> s != bp;
      r := DisableSite(bp);
      if r != Done { return; }
      Erase(i);
    }

    method Erase(i: nat)
      requires Valid() && i < |sites| && !sites[i].enabled
      modifies this`sites
      ensures Valid() && sites == Without(old(sites), i) && TrapSet() == old(TrapSet())
    {
      hide ControlValue, ValueFor, ValidRequest, Armed, Overlaid, Loaded, Covered, Aligned;
      EraseKeeps(i);
      ghost var traps := TrapSet();
      sites := Without(sites, i);
      assert TrapSet() == traps;
      forall k | k in owner
        ensures Holds(k, owner[k])
      {
        assert old(Holds(k, owner[k]));
      }
    }

    /** Erasing a disabled site changes neither the trap set nor who holds the slots. */
    lemma EraseKeeps(i: nat)
      requires SitesDistinct() && i < |sites| && !sites[i].enabled
      ensures var rest := Without(sites, i);
              && (set s | s in rest && s.Patched() :: s.address) == TrapSet()
              && (forall s :: s in rest ==> s in sites)
              && (forall s :: s in sites && s.enabled ==> s in rest)
              && (forall j, k :: 0 <= j < k < |rest| ==> rest[j].address != rest[k].address)
    {
      var rest := Without(sites, i);
      forall s | s in sites && s.enabled
        ensures s in rest
      {
        var j :| 0 <= j < |sites| && sites[j] == s;
        assert j != i;
        if j < i { assert rest[j] == s; } else { assert rest[j - 1] == s; }
      }
    }

    /** The original bytes of any range, whatever part of it lies under traps. */
    method ReadWithoutTraps(at: U64, n: nat) returns (ok: bool, bytes: seq<Byte>)
      requires Valid()
      ensures ok ==> Covered(orig, at, n) && bytes == Loaded(orig, at, n)
      ensures !ok ==> Fallible() || !Covered(orig, at, n)
    {
      hide SlotsConsistent, Overlaid;
      ok, bytes := task.Read(at, n);
      if !ok { return; }
      var k := 0;
      while k < |sites|
        invariant k <= |sites| && |bytes| == n
        invariant PartlyRestored(bytes, at, k)
      {
        ghost var before := bytes;
        if sites[k].enabled && !sites[k].hardware {
          assert sites[k] in sites;
          bytes := PatchBack(bytes, at, sites[k].address, sites[k].saved);
        }
        RestoreOne(before, bytes, at, k);
        k := k + 1;
      }
      AllRestored(bytes, at);
    }

    /** The buffer has original bytes under the first k sites' traps, raw memory elsewhere. */
    ghost predicate PartlyRestored(bytes: seq<Byte>, at: U64, k: nat)
      requires k <= |sites|
      reads this`sites, this`orig, task, sites
    {
      && Covered(orig, at, |bytes|) && Covered(task.bytes, at, |bytes|)
      && forall j :: 0 <= j < |bytes| ==>
           bytes[j] == if WordOf(at + j) in Restored(k) then orig[at + j] else task.bytes[at + j]
    }

    lemma RestoreOne(before: seq<Byte>, after: seq<Byte>, at: U64, k: nat)
      requires TrapsConsistent() && k < |sites| && PartlyRestored(before, at, k) && |after| == |before|
      requires !sites[k].Patched() ==> after == before
      requires sites[k].Patched() ==> |sites[k].saved| == 4 && forall j :: 0 <= j < |after| ==>
                 after[j] == if sites[k].address <= at + j < sites[k].address + 4
                             then sites[k].saved[at + j - sites[k].address] else before[j]
      ensures PartlyRestored(after, at, k + 1)
    {
      hide Overlaid;
      var s := sites[k];
      assert sites[..k + 1] == sites[..k] + [s];
      if s.Patched() {
        assert Restored(k + 1) == Restored(k) + {s.address};
        assert s in sites && s.address in TrapSet() && s.address % 4 == 0;
        forall j | 0 <= j < |after|
          ensures after[j] == if WordOf(at + j) in Restored(k + 1) then orig[at + j] else task.bytes[at + j]
        {
          if s.address <= at + j < s.address + 4 { WordUnique(at + j, s.address); }
        }
      } else {
        assert Restored(k + 1) == Restored(k);
      }
    }

    lemma AllRestored(bytes: seq<Byte>, at: U64)
      requires TrapsConsistent() && PartlyRestored(bytes, at, |sites|)
      ensures bytes == Loaded(orig, at, |bytes|)
    {
      assert sites[..|sites|] == sites;
      assert Restored(|sites|) == TrapSet();
    }

    /** The traps among the first k sites. */
    ghost function Restored(k: nat): set<nat>
      requires k <= |sites|
      reads this`sites, sites
    {
      set s | s in sites[..k] && s.Patched() :: s.address
    }

    /** Overwrites the part of a buffer that overlaps a four-byte word. */
    static method PatchBack(bytes: seq<Byte>, at: U64, word: U64, saved: seq<Byte>) returns (r: seq<Byte>)
      requires |saved| == 4
      ensures |r| == |bytes|
      ensures forall j :: 0 <= j < |r| ==> r[j] == if word <= at + j < word + 4 then saved[at + j - word] else bytes[j]
    {
      r := bytes;
      var i := 0;
      while i < 4
        invariant i <= 4 && |r| == |bytes|
        invariant forall j :: 0 <= j < |r| ==> r[j] == if word <= at + j < word + i then saved[at + j - word]
                    else bytes[j]
      {
        var p := word + i;
        if p >= at && p - at < |r| { r := r[p - at := saved[i]]; }
        i := i + 1;
      }
    }

    /** The saved words are those of the memory under the traps, before and after a write. */
    twostate lemma StillSaved(new at: nat, new part: seq<Byte>)
      requires old(StoppointsValid()) && sites == old(sites) && (forall s :: s in sites ==> s.Same())
      requires watchpoints == old(watchpoints) && debug == old(debug) && owner == old(owner)
      requires forall w :: w in watchpoints ==> w.Same()
      requires orig == Under(old(orig), TrapSet(), at, part)
      requires task.Valid() && task.bytes == Overlaid(orig, TrapSet())
      ensures StoppointsValid()
    {
      hide Overlaid, Loaded, Covered, Under, SlotsConsistent;
      assert TrapSet() == old(TrapSet());
      forall s | s in sites && s.Patched()
        ensures Covered(orig, s.address, 4) && s.saved == Loaded(orig, s.address, 4)
      {
        assert s.Same() && s.address in TrapSet();
        UnderKeepsWords(old(orig), TrapSet(), at, part, s.address);
      }
      SlotsUnclaimed();
    }

    /** write_memory by a user of the process.  Memory stays an overlay of the same traps exactly when the
        data stored spares the trap bytes; otherwise no memory underneath explains it. */
    method Write(at: U64, data: seq<Byte>) returns (r: Outcome, ghost stored: nat)
      requires Valid()
      modifies task`bytes, task`prot, this`orig
      ensures r == Done || r == Unmapped || r == HalfDone
      ensures r == Done ==> stored == |data|
      ensures stored <= |data| && task.bytes == Stored(old(task.bytes), at, data[..stored])
      ensures Spares(TrapSet(), at, data[..stored]) ==>
                Valid() && orig == Under(old(orig), TrapSet(), at, data[..stored])
      ensures !Spares(TrapSet(), at, data[..stored]) ==> forall under: Bytes :: task.bytes != Overlaid(under, TrapSet())
      ensures r == Unmapped ==> stored < |data| && at + stored !in old(task.bytes)
      ensures r != HalfDone ==> task.prot == old(task.prot)
      ensures r == HalfDone ==> Fallible() || (stored < |data| && at + stored !in old(task.bytes))
    {
      hide StoppointsValid, SitesDistinct, Overlaid, Stored, Loaded, Spares, Under;
      ghost var traps := TrapSet();
      RawIsOverlay();
      var w;
      w, stored := WriteMemory(task, at, data);
      assert Covered(orig, at, stored);
      ghost var part := data[..stored];
      WriteKeepsOverlayIff(orig, traps, at, part);
      if Spares(traps, at, part) {
        orig := Under(orig, traps, at, part);
        UnderExplains(old(orig), traps, at, part);
        StillSaved(at, part);
      }
      r := match w case Written => Done case KernelFailed => HalfDone case CrossesUnmapped => Unmapped;
    }
  }

  /** The memory under the traps after a write: stored everywhere but below the traps. */
  ghost function Under(orig: Bytes, traps: set<nat>, at: nat, data: seq<Byte>): (r: Bytes)
    ensures r.Keys == orig.Keys
  {
    map a | a in orig :: if at <= a < at + |data| && WordOf(a) !in traps then data[a - at] else orig[a]
  }

  lemma UnderExplains(orig: Bytes, traps: set<nat>, at: nat, data: seq<Byte>)
    ensures Overlaid(Under(orig, traps, at, data), traps) == Overlaid(Stored(orig, at, data), traps)
  {}

  lemma UnderKeepsWords(orig: Bytes, traps: set<nat>, at: nat, data: seq<Byte>, t: nat)
    requires t in traps && t % 4 == 0 && Covered(orig, t, 4)
    ensures Covered(Under(orig, traps, at, data), t, 4)
    ensures Loaded(Under(orig, traps, at, data), t, 4) == Loaded(orig, t, 4)
  {
    forall i | 0 <= i < 4
      ensures Loaded(Under(orig, traps, at, data), t, 4)[i] == Loaded(orig, t, 4)[i]
    {
      WordUnique(t + i, t);
    }
  }

  // ---------- whole runs ----------

  /** What a client may ask of the stoppoints of a process. */
  datatype Op =
    | CreateOp(address: U64, hardware: bool)
    | EnableOp(address: U64)
    | DisableOp(address: U64)
    | RemoveOp(address: U64)
    | WatchOp(address: U64, mode: Mode, size: nat)
    | WatchEnableOp(index: nat)
    | WatchDisableOp(index: nat)
    | WriteOp(at: U64, data: seq<Byte>)

  /** A write as it went: the traps there were, and what was stored, and where. */
  datatype WriteRecord = WriteRecord(outcome: Outcome, traps: set<nat>, at: U64, part: seq<Byte>)

  /** The original memory after the writes of a run. */
  ghost function Replayed(orig: Bytes, ws: seq<WriteRecord>): Bytes
  {
    if ws == [] then orig
    else
      var w := ws[|ws| - 1];
      Under(Replayed(orig, ws[..|ws| - 1]), w.traps, w.at, w.part)
  }

  /** The script creates a site at the address. */
  predicate Creates(script: seq<Op>, address: nat)
  {
    exists i :: 0 <= i < |script| && script[i].CreateOp? && script[i].address == address
  }

  predicate CreatesSoftware(script: seq<Op>, address: nat)
  {
    exists i :: 0 <= i < |script| && script[i].CreateOp? && !script[i].hardware && script[i].address == address
  }

  predicate Enables(script: seq<Op>, address: nat)
  {
    exists i :: 0 <= i < |script| && script[i].EnableOp? && script[i].address == address
  }

  /** There can be a trap at the address after the script: there was one at the start, or the script has enabled a
      software site that there was or that it has created. */
  predicate MayTrap(script: seq<Op>, sites: set<nat>, traps: set<nat>, a: nat)
  {
    a in traps || (Enables(script, a) && (a in sites || CreatesSoftware(script, a)))
  }

  /** The writes are those of the script, in order: each stored a prefix of its data, all of it unless it failed,
      and left the traps there were alone; and those were at places where the operations before it can have left
      some. */
  ghost predicate Follows(ws: seq<WriteRecord>, script: seq<Op>, sites: set<nat>, traps: set<nat>)
  {
    if script == [] then ws == []
    else
      var (n, op) := (|script| - 1, script[|script| - 1]);
      if !op.WriteOp? then Follows(ws, script[..n], sites, traps)
      else
        && ws != [] && Follows(ws[..|ws| - 1], script[..n], sites, traps) && Performs(ws[|ws| - 1], op)
        && forall a :: a in ws[|ws| - 1].traps ==> MayTrap(script[..n], sites, traps, a)
  }

  ghost predicate Performs(w: WriteRecord, op: Op)
    requires op.WriteOp?
  {
    && w.at == op.at && w.part <= op.data && (w.outcome == Done ==> w.part == op.data)
    && Aligned(w.traps) && Spares(w.traps, op.at, op.data)
  }

  /** The addresses of the software sites. */
  ghost function SoftwareSites(p: Process): set<nat>
    reads p`sites
  {
    set s | s in p.sites && !s.hardware :: s.address
  }

  /** One more operation can add a software site only by creating it, and a trap only by enabling a site there is. */
  lemma MayTrapNext(script: seq<Op>, n: nat, sites: set<nat>, traps: set<nat>, a: nat)
    requires n < |script|
    ensures MayTrap(script[..n], sites, traps, a) ==> MayTrap(script[..n + 1], sites, traps, a)
    ensures CreatesSoftware(script[..n], a) ==> CreatesSoftware(script[..n + 1], a)
    ensures script[n].CreateOp? && !script[n].hardware && script[n].address == a ==>
              CreatesSoftware(script[..n + 1], a)
    ensures script[n].EnableOp? && script[n].address == a && (a in sites || CreatesSoftware(script[..n], a)) ==>
              MayTrap(script[..n + 1], sites, traps, a)
  {
    var now, next := script[..n], script[..n + 1];
    assert next[n] == script[n] && forall i :: 0 <= i < n ==> next[i] == now[i];
  }

  /** A write clear of the traps stores its data underneath like any store. */
  lemma ClearWriteIsStore(orig: Bytes, traps: set<nat>, at: nat, data: seq<Byte>)
    requires Aligned(traps) && Avoids(traps, at, |data|)
    ensures Under(orig, traps, at, data) == Stored(orig, at, data)
  {
    forall a | at <= a < at + |data|
      ensures WordOf(a) !in traps
    {
      assert WordOf(a) <= a < WordOf(a) + 4;
    }
  }

  lemma {:induction false} NoWrites(ws: seq<WriteRecord>, script: seq<Op>, sites: set<nat>, traps: set<nat>)
    requires Follows(ws, script, sites, traps) && forall i :: 0 <= i < |script| ==> !script[i].WriteOp?
    ensures ws == []
    decreases |script|
  {
    if script != [] { NoWrites(ws, script[..|script| - 1], sites, traps); }
  }

  /** The memory after the writes of a run, all stored plainly. */
  ghost function StoredAll(orig: Bytes, ws: seq<WriteRecord>): Bytes
  {
    if ws == [] then orig
    else Stored(StoredAll(orig, ws[..|ws| - 1]), ws[|ws| - 1].at, ws[|ws| - 1].part)
  }

  /** A script that can have no trap anywhere stores its writes as they are. */
  lemma {:induction false} TrapFreeReplay(orig: Bytes, ws: seq<WriteRecord>, script: seq<Op>, sites: set<nat>,
                                          traps: set<nat>)
    requires Follows(ws, script, sites, traps) && forall a :: !MayTrap(script, sites, traps, a)
    ensures Replayed(orig, ws) == StoredAll(orig, ws)
    decreases |script|
  {
    hide Stored, Under, MayTrap, Performs;
    if script != [] {
      var n := |script| - 1;
      assert script[..n + 1] == script;
      forall a
        ensures !MayTrap(script[..n], sites, traps, a)
      {
        MayTrapNext(script, n, sites, traps, a);
      }
      if script[n].WriteOp? {
        var w := ws[|ws| - 1];
        TrapFreeReplay(orig, ws[..|ws| - 1], script[..n], sites, traps);
        assert forall a :: a in w.traps ==> MayTrap(script[..n], sites, traps, a);
        assert w.traps == {};
        UnderNothing(Replayed(orig, ws[..|ws| - 1]), w);
      } else {
        TrapFreeReplay(orig, ws, script[..n], sites, traps);
      }
    }
  }

  lemma UnderNothing(orig: Bytes, w: WriteRecord)
    requires w.traps == {}
    ensures Under(orig, w.traps, w.at, w.part) == Stored(orig, w.at, w.part)
  {}

  /** Where a script has put no trap, the byte at an address is the one last written there. */
  lemma WrittenByte(orig: Bytes, w: WriteRecord, a: nat)
    requires a in orig && WordOf(a) !in w.traps && w.at <= a < w.at + |w.part|
    ensures Under(orig, w.traps, w.at, w.part)[a] == w.part[a - w.at]
  {}

  /** Runs any script of operations.  The overlay and the slot ownership hold after every operation, whatever fails,
      until an operation is left half done or a write does not spare the traps; the original memory is the one at the
      start with the script's writes stored in it. */
  method RunScript(p: Process, script: seq<Op>) returns (completed: nat, ghost ws: seq<WriteRecord>)
    requires p.Valid() && !p.faulted
    modifies p`sites, p`watchpoints, p`debug, p`orig, p`owner, p`faulted, p.task, p.kernel`debug, Objects(p)
    ensures completed <= |script|
    ensures completed == |script| ==>
              && p.Valid() && !p.faulted && Follows(ws, script, old(SoftwareSites(p)), old(p.TrapSet()))
              && p.orig == Replayed(old(p.orig), ws)
    ensures completed == |script| && (forall i :: 0 <= i < |script| ==> !script[i].WriteOp?) ==> p.orig == old(p.orig)
    ensures completed < |script| ==> p.faulted || Tramples(p, script[completed])
    ensures forall s :: s in p.sites ==> s in old(p.sites) || Creates(script, s.address)
    ensures fresh(Objects(p) - old(Objects(p)))
    ensures completed < |script| ==> p.Fallible() || !p.Attached() || Tramples(p, script[completed])
  {
    hide p.StoppointsValid, Under, p.TrapSet, SoftwareSites, MayTrap, CreatesSoftware, Follows, Performs, Replayed;
    completed, ws := 0, [];
    ghost var sites, traps := SoftwareSites(p), p.TrapSet();
    StartTraps(script, sites, traps, p.orig);
    while completed < |script|
      invariant completed <= |script| && p.Valid() && !p.faulted
      invariant Follows(ws, script[..completed], sites, traps) && p.orig == Replayed(old(p.orig), ws)
      invariant forall s :: s in p.sites ==> s in old(p.sites) || Creates(script, s.address)
      invariant forall a :: a in p.TrapSet() ==> MayTrap(script[..completed], sites, traps, a)
      invariant forall a :: a in SoftwareSites(p) ==> a in sites || CreatesSoftware(script[..completed], a)
      invariant fresh(Objects(p) - old(Objects(p)))
    {
      var op := script[completed];
      assert script[..completed + 1][..completed] == script[..completed];
      ghost var sitesNow, trapsNow := SoftwareSites(p), p.TrapSet();
      var ok, r;
      ghost var w;
      ok, r, w := RunOp(p, op);
      if !ok { return; }
      TrapsNext(script, completed, sites, traps, sitesNow, trapsNow, SoftwareSites(p), p.TrapSet());
      FollowsNext(ws, w, script, completed, sites, traps, old(p.orig));
      if op.WriteOp? { ws := ws + [w]; }
      completed := completed + 1;
    }
    assert script[..completed] == script;
    if forall i :: 0 <= i < |script| ==> !script[i].WriteOp? { NoWrites(ws, script, sites, traps); }
  }

  lemma StartTraps(script: seq<Op>, sites: set<nat>, traps: set<nat>, orig: Bytes)
    ensures Follows([], script[..0], sites, traps) && Replayed(orig, []) == orig
    ensures forall a :: a in traps ==> MayTrap(script[..0], sites, traps, a)
  {}

  lemma FollowsNext(ws: seq<WriteRecord>, w: WriteRecord, script: seq<Op>, n: nat, sites: set<nat>, traps: set<nat>,
                    orig: Bytes)
    requires n < |script| && Follows(ws, script[..n], sites, traps)
    requires script[n].WriteOp? ==>
               Performs(w, script[n]) && forall a :: a in w.traps ==> MayTrap(script[..n], sites, traps, a)
    ensures Follows(if script[n].WriteOp? then ws + [w] else ws, script[..n + 1], sites, traps)
    ensures Replayed(orig, ws + [w]) == Under(Replayed(orig, ws), w.traps, w.at, w.part)
  {
    hide MayTrap, Performs, Under;
    assert (ws + [w])[..|ws|] == ws;
    assert script[..n + 1][..n] == script[..n] && script[..n + 1][n] == script[n];
  }

  /** Sites and traps change as the operation allows. */
  ghost predicate ChangesAllowed(op: Op, sites: set<nat>, traps: set<nat>, sites': set<nat>, traps': set<nat>)
  {
    && (forall a :: a in sites' ==> a in sites || (op.CreateOp? && !op.hardware && op.address == a))
    && (forall a :: a in traps' ==> a in traps || (op.EnableOp? && op.address == a && a in sites))
  }

  lemma TrapsNext(script: seq<Op>, n: nat, sites: set<nat>, traps: set<nat>,
                  sitesNow: set<nat>, trapsNow: set<nat>, sitesNext: set<nat>, trapsNext: set<nat>)
    requires n < |script| && ChangesAllowed(script[n], sitesNow, trapsNow, sitesNext, trapsNext)
    requires forall a :: a in trapsNow ==> MayTrap(script[..n], sites, traps, a)
    requires forall a :: a in sitesNow ==> a in sites || CreatesSoftware(script[..n], a)
    ensures forall a :: a in trapsNext ==> MayTrap(script[..n + 1], sites, traps, a)
    ensures forall a :: a in sitesNext ==> a in sites || CreatesSoftware(script[..n + 1], a)
  {
    hide MayTrap, CreatesSoftware;
    forall a | a in trapsNext
      ensures MayTrap(script[..n + 1], sites, traps, a)
    {
      MayTrapNext(script, n, sites, traps, a);
    }
    forall a | a in sitesNext
      ensures a in sites || CreatesSoftware(script[..n + 1], a)
    {
      MayTrapNext(script, n, sites, traps, a);
    }
  }

  /** A write that does not spare the traps. */
  predicate Tramples(p: Process, op: Op)
    reads p`sites, p.sites
  {
    op.WriteOp? && !SparesAll(p, op.at, op.data)
  }

  /** The stoppoint objects of a process. */
  ghost function Objects(p: Process): (r: set<object>)
    reads p`sites, p`watchpoints
    ensures forall s :: s in p.sites ==> s in r
    ensures forall w :: w in p.watchpoints ==> w in r
  {
    (set s: BreakpointSite | s in p.sites :: s as object) + (set w: Watchpoint | w in p.watchpoints :: w as object)
  }

  /** An operation that is done has done what it is for: the site or watchpoint it names is there, enabled, disabled or
      gone. */
  twostate predicate Performed(p: Process, new op: Op, new r: Outcome)
    reads p`sites, p`watchpoints, Objects(p)
  {
    r == Done ==>
      match op
      case CreateOp(address, hardware) =>
        && (forall s :: s in old(p.sites) ==> s.address != address) && |p.sites| == |old(p.sites)| + 1
        && p.sites[..|old(p.sites)|] == old(p.sites) && Last(p.sites).address == address
        && Last(p.sites).hardware == hardware && !Last(p.sites).enabled
      case EnableOp(address) => exists s :: s in p.sites && s.address == address && s.enabled
      case DisableOp(address) =>
        && (exists s :: s in p.sites && s.address == address)
        && forall s :: s in p.sites && s.address == address ==> !s.enabled
      case RemoveOp(address) =>
        (exists s :: s in old(p.sites) && s.address == address) && forall s :: s in p.sites ==> s.address != address
      case WatchOp(address, mode, size) =>
        && |p.watchpoints| == |old(p.watchpoints)| + 1 && p.watchpoints[..|old(p.watchpoints)|] == old(p.watchpoints)
        && var w := p.watchpoints[|old(p.watchpoints)|];
        w.address == address && w.mode == mode && w.size == size && !w.enabled
      case WatchEnableOp(index) => index < |p.watchpoints| && p.watchpoints[index].enabled
      case WatchDisableOp(index) => index < |p.watchpoints| && !p.watchpoints[index].enabled
      case WriteOp(_, _) => true
  }

  function Last(sites: seq<BreakpointSite>): BreakpointSite
    requires sites != []
  {
    sites[|sites| - 1]
  }

  method RunOp(p: Process, op: Op) returns (ok: bool, r: Outcome, ghost w: WriteRecord)
    requires p.Valid() && !p.faulted
    modifies p`sites, p`watchpoints, p`debug, p`orig, p`owner, p`faulted, p.task, p.kernel`debug, Objects(p)
    ensures ok ==> p.Valid() && !p.faulted && Performed(p, op, r)
    ensures !ok ==> p.faulted || Tramples(p, op)
    ensures forall s :: s in p.sites ==> s in old(p.sites) || (op.CreateOp? && s.address == op.address)
    ensures ok ==> ChangesAllowed(op, old(SoftwareSites(p)), old(p.TrapSet()), SoftwareSites(p), p.TrapSet())
    ensures !op.WriteOp? ==> p.orig == old(p.orig)
    ensures op.WriteOp? && ok ==>
              && Performs(w, op) && w.traps == old(p.TrapSet())
              && p.orig == Under(old(p.orig), w.traps, w.at, w.part)
    ensures fresh(Objects(p) - old(Objects(p)))
    ensures !ok ==> p.Fallible() || !p.Attached() || Tramples(p, op)
  {
    hide p.StoppointsValid, Stored, Overlaid, Under, SparesAll, ChangesAllowed;
    w := WriteRecord(Done, {}, 0, []);
    if op.WriteOp? {
      ok, r, w := WriteSparing(p, op.at, op.data);
      ChangesFollow(p, op);
    } else if op.WatchOp? || op.WatchEnableOp? || op.WatchDisableOp? {
      r := RunWatchOp(p, op);
      ok := r != HalfDone;
      ChangesFollow(p, op);
    } else {
      r := RunSiteOp(p, op);
      ok := r != HalfDone;
    }
  }

  twostate lemma ChangesFollow(p: Process, new op: Op)
    requires forall s :: s in p.sites && s !in old(p.sites) ==>
               op.CreateOp? && s.address == op.address && s.hardware == op.hardware && !s.enabled
    requires forall s :: s in p.sites && s in old(p.sites) && s.Patched() ==>
               old(s.Patched()) || (op.EnableOp? && s.address == op.address)
    ensures ChangesAllowed(op, old(SoftwareSites(p)), old(p.TrapSet()), SoftwareSites(p), p.TrapSet())
  {}

  method RunSiteOp(p: Process, op: Op) returns (r: Outcome)
    requires p.Valid() && !p.faulted && (op.CreateOp? || op.EnableOp? || op.DisableOp? || op.RemoveOp?)
    modifies p`sites, p`debug, p`owner, p`faulted, p.task`bytes, p.task`prot, p.kernel`debug, Objects(p)
    ensures if r != HalfDone then p.Valid() && !p.faulted && Performed(p, op, r) else p.faulted
    ensures forall s :: s in p.sites ==> s in old(p.sites) || (op.CreateOp? && s.address == op.address)
    ensures r != HalfDone ==> ChangesAllowed(op, old(SoftwareSites(p)), old(p.TrapSet()), SoftwareSites(p), p.TrapSet())
    ensures fresh(Objects(p) - old(Objects(p)))
    ensures r == HalfDone ==> p.Fallible() || !p.Attached()
  {
    hide p.StoppointsValid, Stored, Overlaid, ChangesAllowed, p.TrapSet, p.Fallible;
    if op.CreateOp? {
      var bp;
      r, bp := p.CreateSite(op.address, op.hardware, false);
    } else if op.RemoveOp? {
      ghost var i;
      r, i := p.RemoveSite(op.address);
      if r == Done { RemovedIsGone(p, op.address, i); }
    } else {
      var i := p.FindByAddress(op.address);
      if i == |p.sites| {
        r := NotFound;
      } else {
        if op.EnableOp? { r := p.EnableSite(p.sites[i]); } else { r := p.DisableSite(p.sites[i]); }
        if r != HalfDone { NoOtherThere(p, p.sites[i]); }
      }
    }
    if r != HalfDone { ChangesFollow(p, op); }
  }

  lemma NoOtherThere(p: Process, bp: BreakpointSite)
    requires p.StoppointsValid() && bp in p.sites
    ensures forall s :: s in p.sites && s.address == bp.address ==> s == bp
  {}

  twostate lemma RemovedIsGone(p: Process, new address: nat, new i: nat)
    requires old(p.StoppointsValid()) && i < |old(p.sites)| && old(p.sites)[i].address == address
    requires p.sites == Process.Without(old(p.sites), i)
    ensures old(p.sites)[i] in old(p.sites) && forall s :: s in p.sites ==> s.address != address
  {
    hide p.TrapsConsistent, p.SlotsConsistent;
  }

  method RunWatchOp(p: Process, op: Op) returns (r: Outcome)
    requires p.Valid() && !p.faulted && (op.WatchOp? || op.WatchEnableOp? || op.WatchDisableOp?)
    modifies p`watchpoints, p`debug, p`owner, p`faulted, p.kernel`debug, Objects(p)
    ensures if r != HalfDone then p.Valid() && !p.faulted && Performed(p, op, r) else p.faulted
    ensures forall s :: s in p.sites ==> s.Same()
    ensures fresh(Objects(p) - old(Objects(p)))
    ensures r == HalfDone ==> p.Fallible() || !p.Attached()
  {
    hide p.StoppointsValid;
    if op.WatchOp? {
      var watch;
      r, watch := p.CreateWatchpoint(op.address, op.mode, op.size);
    } else if op.index >= |p.watchpoints| {
      r := NotFound;
    } else if op.WatchEnableOp? {
      r := p.EnableWatchpoint(p.watchpoints[op.index]);
    } else {
      r := p.DisableWatchpoint(p.watchpoints[op.index]);
    }
  }

  /** A write that spares the traps goes on whatever becomes of it. */
  method WriteSparing(p: Process, at: U64, data: seq<Byte>) returns (ok: bool, r: Outcome, ghost w: WriteRecord)
    requires p.Valid()
    modifies p.task`bytes, p.task`prot, p`orig
    ensures ok == SparesAll(p, at, data)
    ensures ok ==>
              && p.Valid() && w.traps == old(p.TrapSet())
              && w.at == at && w.outcome == r && w.part <= data && (w.outcome == Done ==> w.part == data)
              && Aligned(w.traps) && Spares(w.traps, at, data) && p.orig == Under(old(p.orig), w.traps, at, w.part)
  {
    hide p.StoppointsValid, Under, Stored, Overlaid;
    p.RawIsOverlay();
    ghost var stored;
    ghost var traps := p.TrapSet();
    r, stored := p.Write(at, data);
    w := WriteRecord(r, traps, at, data[..stored]);
    ok := SparesAll(p, at, data);
    assert r == Done ==> data[..stored] == data;
  }

  /** The data leaves every byte of every enabled software site's trap as it is. */
  predicate SparesAll(p: Process, at: U64, data: seq<Byte>)
    reads p`sites, p.sites
    ensures SparesAll(p, at, data) ==> Spares(p.TrapSet(), at, data)
  {
    forall s, i :: s in p.sites && s.enabled && !s.hardware && 0 <= i < |data| && WordOf(at + i) == s.address ==>
      data[i] == TRAP[(at + i) % 4]
  }

  /** Disabling every stoppoint, as detaching does, restores memory exactly and leaves no pair armed. */
  method DisableAll(p: Process) returns (r: Outcome)
    requires p.Valid()
    modifies Objects(p), p.task`bytes, p.task`prot, p`debug, p`owner, p`faulted, p.kernel`debug
    ensures r == Done ==> p.Valid() && (forall s :: s in p.sites ==> !s.enabled)
    ensures r == Done ==> forall w :: w in p.watchpoints ==> !w.enabled
    ensures r == Done ==> p.task.bytes == p.orig && forall k: nat :: k < 2 * SLOTS ==> !Armed(p.debug, k)
    ensures r != Done ==> r == HalfDone && p.faulted
    ensures p.orig == old(p.orig) && p.sites == old(p.sites) && p.watchpoints == old(p.watchpoints)
    ensures r != Done ==> p.Fallible() || !p.Attached()
  {
    hide p.StoppointsValid, Armed;
    r := DisableSites(p);
    if r != Done { return; }
    var i := 0;
    while i < |p.watchpoints|
      invariant i <= |p.watchpoints| && p.Valid() && p.orig == old(p.orig)
      invariant forall s :: s in p.sites ==> !s.enabled
      invariant forall j :: 0 <= j < i ==> !p.watchpoints[j].enabled
    {
      r := p.DisableWatchpoint(p.watchpoints[i]);
      if r != Done { return; }
      i := i + 1;
    }
    p.RawIsOverlay();
    assert p.TrapSet() == {};
    NoTraps(p.orig);
    p.SlotsExclusive();
    r := Done;
  }

  method DisableSites(p: Process) returns (r: Outcome)
    requires p.Valid()
    modifies Objects(p), p.task`bytes, p.task`prot, p`debug, p`owner, p`faulted, p.kernel`debug
    ensures r == Done ==> p.Valid() && forall s :: s in p.sites ==> !s.enabled
    ensures r != Done ==> r == HalfDone && p.faulted
    ensures r != Done ==> p.Fallible() || !p.Attached()
  {
    hide p.StoppointsValid;
    var i := 0;
    while i < |p.sites|
      invariant i <= |p.sites| && p.Valid()
      invariant forall j :: 0 <= j < i ==> !p.sites[j].enabled
    {
      r := p.DisableSite(p.sites[i]);
      if r != Done { return; }
      i := i + 1;
    }
    r := Done;
  }

  /** A whole session from attaching to detaching: whatever sites came and went, the memory left behind is the memory
      found with the script's writes stored in it. */
  method AttachRunDetach(task: Task, kernel: ThreadTable, initial: DebugState, script: seq<Op>)
    returns (done: bool, ghost ws: seq<WriteRecord>)
    requires task.Valid() && kernel.Valid() && initial.Valid() && !initial.singleStep
    requires forall k: nat :: k < 2 * SLOTS ==> !Armed(initial, k)
    modifies task, kernel`debug
    ensures done ==> Follows(ws, script, {}, {}) && task.bytes == Replayed(old(task.bytes), ws)
    ensures !done ==> task.fallible || kernel.fallible || exists i :: 0 <= i < |script| && script[i].WriteOp?
  {
    hide Armed, Follows;
    var p := new Process(task, kernel, initial);
    assert p.TrapSet() == {} && SoftwareSites(p) == {};
    var completed;
    completed, ws := RunScript(p, script);
    if completed < |script| { return false, ws; }
    var r := DisableAll(p);
    done := r == Done;
  }
}
