/** Where keeping a register's first rule, as the interpreter does, differs from replacing it, as the standard asks. */
module RuleReplacement {
  import opened Results
  import opened Bits
  import opened CallFrames

  // ---------- the standard's interpreter ----------

  /** Section 6.4.2 of DWARF 4: a rule instruction replaces the register's rule; restore goes back to the rule of the
      initial instructions, or to none. */
  function ExecStandard(i: Instr, c: Context): Result<Context>
  {
    match i
    case SetRule(reg, rule) => Ok(c.(rules := c.rules[reg := rule]))
    case Restore(reg) =>
      Ok(c.(rules := if reg in c.cieRules then c.rules[reg := c.cieRules[reg]] else c.rules - {reg}))
    case _ => Exec(i, c)
  }

  function RunStandard(prog: seq<Instr>, c: Context): Result<Context>
    decreases |prog|
  {
    if prog == [] then Ok(c)
    else
      var c' :- ExecStandard(prog[0], c);
      RunStandard(prog[1..], c')
  }

  // ---------- what a program gives ----------

  /** The rules a register set started from, and those given since, in order. */
  datatype Log = Log(base: RuleSet, given: seq<(U32, Rule)>)

  function Given(log: Log, reg: U32, rule: Rule): Log { log.(given := log.given + [(reg, rule)]) }

  /** What one instruction makes of the log and of the logs saved by remember_state. */
  function TraceStep(i: Instr, log: Log, saved: seq<Log>, cieRules: RuleSet): Option<(Log, seq<Log>)>
  {
    match i
    case SetRule(reg, rule) => Some((Given(log, reg, rule), saved))
    case Restore(reg) => if reg in cieRules then Some((Given(log, reg, cieRules[reg]), saved)) else None
    case RememberState => Some((log, saved + [log]))
    case RestoreState => if saved == [] then None else Some((saved[|saved| - 1], saved[..|saved| - 1]))
    case _ => Some((log, saved))
  }

  /** The log at the end of a program, read off its text. */
  function Trace(prog: seq<Instr>, log: Log, saved: seq<Log>, cieRules: RuleSet): Option<Log>
    decreases |prog|
  {
    if prog == [] then Some(log)
    else
      var next := TraceStep(prog[0], log, saved, cieRules);
      if next.None? then None else Trace(prog[1..], next.value.0, next.value.1, cieRules)
  }

  /** The rule set of a log, first rules kept. */
  function Kept(log: Log): RuleSet
    decreases |log.given|
  {
    if log.given == [] then log.base
    else
      var (n, last) := (|log.given| - 1, log.given[|log.given| - 1]);
      Emplace(Kept(log.(given := log.given[..n])), last.0, last.1)
  }

  /** The rule set of a log, rules replaced. */
  function Replaced(log: Log): RuleSet
    decreases |log.given|
  {
    if log.given == [] then log.base
    else
      var (n, last) := (|log.given| - 1, log.given[|log.given| - 1]);
      Replaced(log.(given := log.given[..n]))[last.0 := last.1]
  }

  function FirstGiven(given: seq<(U32, Rule)>, reg: U32): Option<Rule>
  {
    if given == [] then None
    else
      var (n, last) := (|given| - 1, given[|given| - 1]);
      Else(FirstGiven(given[..n], reg), if last.0 == reg then Some(last.1) else None)
  }

  function LastGiven(given: seq<(U32, Rule)>, reg: U32): Option<Rule>
  {
    if given == [] then None
    else
      var (n, last) := (|given| - 1, given[|given| - 1]);
      if last.0 == reg then Some(last.1) else LastGiven(given[..n], reg)
  }

  function Get(rules: RuleSet, reg: U32): Option<Rule> { if reg in rules then Some(rules[reg]) else None }

  function Else(a: Option<Rule>, b: Option<Rule>): Option<Rule> { if a.Some? then a else b }

  lemma {:induction false} RulesOfLog(log: Log, reg: U32)
    ensures Get(Kept(log), reg) == Else(Get(log.base, reg), FirstGiven(log.given, reg))
    ensures Get(Replaced(log), reg) == Else(LastGiven(log.given, reg), Get(log.base, reg))
    ensures FirstGiven(log.given, reg).None? <==> LastGiven(log.given, reg).None?
    decreases |log.given|
  {
    if log.given != [] { RulesOfLog(log.(given := log.given[..|log.given| - 1]), reg); }
  }

  /** Every register given a rule is given, last, the rule it has first. */
  ghost predicate LastIsFirst(log: Log)
  {
    forall reg: U32 :: LastGiven(log.given, reg).Some? ==>
      LastGiven(log.given, reg) == Else(Get(log.base, reg), FirstGiven(log.given, reg))
  }

  lemma SameRulesIff(log: Log)
    ensures Kept(log) == Replaced(log) <==> LastIsFirst(log)
  {
    hide Kept, Replaced, FirstGiven, LastGiven;
    var kept, replaced := Kept(log), Replaced(log);
    forall reg: U32
      ensures Get(kept, reg) == Else(Get(log.base, reg), FirstGiven(log.given, reg))
      ensures Get(replaced, reg) == Else(LastGiven(log.given, reg), Get(log.base, reg))
      ensures FirstGiven(log.given, reg).None? <==> LastGiven(log.given, reg).None?
    {
      RulesOfLog(log, reg);
    }
    if LastIsFirst(log) {
      assert forall reg: U32 :: Get(kept, reg) == Get(replaced, reg);
      assert forall reg: U32 :: reg in kept <==> Get(kept, reg).Some?;
      assert forall reg: U32 :: reg in replaced <==> Get(replaced, reg).Some?;
      assert kept == replaced;
    }
  }

  // ---------- both interpreters follow the log ----------

  /** The interpreter's and the standard's context with the same log: they differ in rules only. */
  ghost predicate Tracked(c: Context, d: Context, log: Log, saved: seq<Log>)
  {
    && c.rules == Kept(log) && d.rules == Replaced(log)
    && c.location == d.location && c.cfa == d.cfa && c.cieRules == d.cieRules
    && |c.stack| == |d.stack| == |saved|
    && forall k :: 0 <= k < |saved| ==>
         c.stack[k].0 == Kept(saved[k]) && d.stack[k].0 == Replaced(saved[k]) && c.stack[k].1 == d.stack[k].1
  }

  /** Every register restored has a rule in the initial instructions. */
  ghost predicate RestoresKnown(prog: seq<Instr>, cieRules: RuleSet)
  {
    forall k :: 0 <= k < |prog| && prog[k].Restore? ==> prog[k].reg in cieRules
  }

  lemma GivenRules(log: Log, reg: U32, rule: Rule)
    ensures Kept(Given(log, reg, rule)) == Emplace(Kept(log), reg, rule)
    ensures Replaced(Given(log, reg, rule)) == Replaced(log)[reg := rule]
  {
    assert (log.given + [(reg, rule)])[..|log.given|] == log.given;
  }

  lemma StepTracked(i: Instr, c: Context, d: Context, log: Log, saved: seq<Log>)
    requires Tracked(c, d, log, saved)
    ensures Exec(i, c).Ok? <==> ExecStandard(i, d).Ok? && (i.Restore? ==> i.reg in c.cieRules)
    ensures Exec(i, c).Ok? ==>
              var next := TraceStep(i, log, saved, c.cieRules);
              && next.Some? && Exec(i, c).value.cieRules == c.cieRules
              && Tracked(Exec(i, c).value, ExecStandard(i, d).value, next.value.0, next.value.1)
  {
    hide Kept, Replaced;
    if i.SetRule? { GivenRules(log, i.reg, i.what); }
    if i.Restore? && i.reg in c.cieRules { GivenRules(log, i.reg, c.cieRules[i.reg]); }
  }

  lemma {:induction false} BothTracked(prog: seq<Instr>, c: Context, d: Context, log: Log, saved: seq<Log>)
    requires Tracked(c, d, log, saved)
    ensures RunInstrs(prog, c).Ok? <==> RunStandard(prog, d).Ok? && RestoresKnown(prog, c.cieRules)
    ensures RunInstrs(prog, c).Ok? ==>
              var (c', d', end) := (RunInstrs(prog, c).value, RunStandard(prog, d).value,
                  Trace(prog, log, saved, c.cieRules));
              && end.Some? && c'.rules == Kept(end.value) && d'.rules == Replaced(end.value)
              && c'.location == d'.location && c'.cfa == d'.cfa
    decreases |prog|
  {
    hide Kept, Replaced, Exec, ExecStandard, TraceStep;
    if prog != [] {
      var i, rest := prog[0], prog[1..];
      StepTracked(i, c, d, log, saved);
      assert RestoresKnown(prog, c.cieRules) <==>
             ((i.Restore? ==> i.reg in c.cieRules) && RestoresKnown(rest, c.cieRules)) by {
        assert forall k :: 1 <= k < |prog| ==> prog[k] == rest[k - 1];
        assert forall k :: 0 <= k < |rest| ==> rest[k] == prog[k + 1];
      }
      if Exec(i, c).Ok? {
        var next := TraceStep(i, log, saved, c.cieRules).value;
        BothTracked(rest, Exec(i, c).value, ExecStandard(i, d).value, next.0, next.1);
      }
    }
  }

  /** The logs of the states on a rule stack. */
  function LogsOf(stack: seq<(RuleSet, CfaRule)>): seq<Log>
  {
    seq(|stack|, k requires 0 <= k < |stack| => Log(stack[k].0, []))
  }

  /** For every program: the interpreter succeeds exactly when the standard's does and every restored register has an
      initial rule; the locations and CFA rules are then the same; and the register rules are the same exactly when
      every register given a rule, outside what restore_state takes back, is given, last, the rule it has first. */
  lemma KeepFirstAgreesIff(prog: seq<Instr>, c: Context)
    ensures RunInstrs(prog, c).Ok? <==> RunStandard(prog, c).Ok? && RestoresKnown(prog, c.cieRules)
    ensures RunInstrs(prog, c).Ok? ==>
              var (kept, asked) := (RunInstrs(prog, c).value, RunStandard(prog, c).value);
              var log := Trace(prog, Log(c.rules, []), LogsOf(c.stack), c.cieRules);
              && kept.location == asked.location && kept.cfa == asked.cfa
              && log.Some? && (kept.rules == asked.rules <==> LastIsFirst(log.value))
  {
    hide LastIsFirst, Trace, RunInstrs, RunStandard;
    BothTracked(prog, c, c, Log(c.rules, []), LogsOf(c.stack));
    var log := Trace(prog, Log(c.rules, []), LogsOf(c.stack), c.cieRules);
    if log.Some? { SameRulesIff(log.value); }
  }

  // ---------- programs where they differ ----------

  /** An epilogue that moves the link register back is ignored. */
  lemma SecondRuleIgnored()
    ensures var c := Context(0, CfaRegister(31, 16), map[], map[], []);
            var prog := [SetRule(30, OffsetRule(-8)), AdvanceLoc(8), SetRule(30, SameRule)];
            && RunInstrs(prog, c) == Ok(c.(location := 8, rules := map[30 := OffsetRule(-8)]))
            && RunStandard(prog, c) == Ok(c.(location := 8, rules := map[30 := SameRule]))
  {
    var c := Context(0, CfaRegister(31, 16), map[], map[], []);
    var prog := [SetRule(30, OffsetRule(-8)), AdvanceLoc(8), SetRule(30, SameRule)];
    assert prog[1..] == [AdvanceLoc(8), SetRule(30, SameRule)] && prog[1..][1..] == [SetRule(30, SameRule)];
    var c1 := c.(rules := map[30 := OffsetRule(-8)]);
    var c2 := c1.(location := 8);
    assert RunInstrs([SetRule(30, SameRule)], c2) == Ok(c2);
    assert RunInstrs(prog[1..], c1) == Ok(c2);
    assert map[30 := OffsetRule(-8)][30 := SameRule] == map[30 := SameRule];
    assert RunStandard([SetRule(30, SameRule)], c2) == Ok(c2.(rules := map[30 := SameRule]));
    assert RunStandard(prog[1..], c1) == Ok(c2.(rules := map[30 := SameRule]));
  }

  /** Restoring a register without an initial rule fails, where the standard drops its rule. */
  lemma UnknownRestoreFails()
    ensures var c := Context(0, CfaRegister(31, 16), map[19 := SameRule], map[], []);
            && RunInstrs([Restore(19)], c) == Err(MissingKey)
            && RunStandard([Restore(19)], c) == Ok(c.(rules := map[]))
  {}
}
