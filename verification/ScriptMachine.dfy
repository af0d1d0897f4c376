/** run_actions and do_action as they run in place on a run_act_ctx, in the build with
    USE_LONGJMP: a call that a longjmp abandons reports `jumped`. */
module ScriptMachine {
  import opened Script
  import J = ScriptJump

  class RunActCtx {
    var recLev: int
    var runFlags: Flags
    var lastRetcode: int
    var trace: seq<Event>

    /** init_run_actions_ctx */
    constructor ()
      ensures State() == INIT
    {
      recLev, runFlags, lastRetcode, trace := 0, NO_FLAGS, 0, [];
    }

    function State(): (h: Ctx)
      reads this
    {
      Ctx(recLev, runFlags, lastRetcode, trace)
    }

    ghost predicate Reports(o: J.Outcome, ret: int, jumped: bool)
      reads this
    {
      if jumped then o.Jumped? && o.h == State() else o == J.Done(State(), ret)
    }

    method RunActions(env: Env, a: seq<Action>) returns (ret: int, jumped: bool)
      requires env.maxLoops != 0 && 0 <= recLev <= env.maxLevel
      modifies this
      ensures Reports(J.Run(env, a, old(State())), ret, jumped)
      ensures old(recLev) == 0 ==> !jumped
      ensures !jumped ==> recLev == old(recLev)
      decreases env.maxLevel - recLev, 0, 0
    {
      ghost var h := State();
      ret, jumped := E_UNSPEC, false;
      recLev := recLev + 1;
      if recLev > env.maxLevel {
        recLev := recLev - 1;
        return;
      }
      var top := recLev == 1;
      if top {
        runFlags, lastRetcode := NO_FLAGS, 0;
      }
      if a == [] {
        ret := 1;
      }
      var level := recLev;
      ghost var all := J.RunList(env, a, Entered(h), ret);
      var t := 0;
      while t < |a|
        invariant 0 <= t <= |a| && !jumped && recLev == level == h.recLev + 1
        invariant all == J.RunList(env, a[t..], State(), ret)
      {
        assert a[t..] != [] && a[t..][0] == a[t] && a[t..][1..] == a[t + 1..];
        ret, jumped := DoAction(env, a[t]);
        if !jumped && runFlags.Stops() {
          if runFlags.exit {
            lastRetcode := ret;
            jumped := true;
          } else {
            break;
          }
        }
        if jumped {
          assert all.Jumped? && all.h == State();
          if top {
            recLev, ret, jumped := 0, lastRetcode, false;
          }
          return;
        }
        t := t + 1;
      }
      recLev := recLev - 1;
    }

    method DoAction(env: Env, a: Action) returns (ret: int, jumped: bool)
      requires env.maxLoops != 0 && 0 <= recLev <= env.maxLevel
      modifies this
      ensures Reports(J.Do(env, a, old(State())), ret, jumped)
      ensures !jumped ==> recLev == old(recLev)
      decreases env.maxLevel - recLev, 1, 1
    {
      ret, jumped := E_BUG, false;
      match a
      case Core(id) =>
        ret := env.code(trace, id);
        trace := trace + [Ran(id)];
      case Call(id) =>
        ret := env.code(trace, id);
        trace := trace + [Called(id)];
        if ret == 0 {
          runFlags := runFlags.(exit := true);
        }
        lastRetcode := ret;
      case Drop(code, raised) =>
        match code {
          case Number(n) => ret := n;
          case Expr(id) =>
            var e := EvalExpr(env, id);
            ret := e.value;
          case LastRetcode => ret := lastRetcode;
          case BadOperand =>
            ret := 0;
            return;
        }
        runFlags := runFlags.Or(raised);
        if ret == 0 && runFlags.ret {
          runFlags := runFlags.(exit := true);
        }
      case Route(target) =>
        ret, jumped := DoRoute(env, target);
      case If(cond, thn, els) =>
        var e := EvalExpr(env, cond);
        var v := if e.status != 0 then 0 else e.value;
        if runFlags.exit {
          ret := 0;
          return;
        }
        runFlags := runFlags.(ret := false, brk := false);
        ret := 1;
        if Truth(env, v) {
          if thn != [] {
            ret, jumped := RunActions(env, thn);
          }
        } else if els != [] {
          ret, jumped := RunActions(env, els);
        }
      case Switch(cond, cases, def) =>
        ret, jumped := DoSwitch(env, cond, cases, def);
      case JumpSwitch(cond, table) =>
        ret, jumped := DoJumpSwitch(env, cond, table);
      case Match(cond, jumps, def) =>
        ret, jumped := DoMatch(env, cond, jumps, def);
      case Evaluate(cond) =>
        var _ := EvalExpr(env, cond);
        if runFlags.exit {
          ret := 0;
          return;
        }
        runFlags := runFlags.(ret := false);
        ret := 1;
      case Block(body) =>
        if body != [] {
          ret, jumped := RunActions(env, body);
          if !jumped {
            runFlags := runFlags.(brk := false);
          }
        }
      case While(cond, body) =>
        ret, jumped := DoWhile(env, cond, body);
    }

    /** rval_expr_eval_long */
    method EvalExpr(env: Env, id: nat) returns (e: ExprResult)
      modifies this
      ensures (State(), e) == Eval(env, id, old(State()))
    {
      e := env.expr(trace, id, runFlags, lastRetcode);
      runFlags, lastRetcode, trace := e.flags, e.lastRet, trace + [Evaluated(id)];
    }

    method DoRoute(env: Env, target: Target) returns (ret: int, jumped: bool)
      requires env.maxLoops != 0 && 0 <= recLev <= env.maxLevel
      modifies this
      ensures Reports(J.Do(env, Route(target), old(State())), ret, jumped)
      ensures !jumped ==> recLev == old(recLev)
      decreases env.maxLevel - recLev, 1, 0
    {
      jumped := false;
      var i;
      if target.Index? {
        i := target.i;
      } else {
        var found := env.lookup(trace, target.id);
        var _ := EvalExpr(env, target.id);
        if !found.Found? {
          ret := if found.NoString? then E_UNSPEC else E_SCRIPT;
          return;
        }
        i := found.i;
      }
      if i >= |env.routes| || i < 0 {
        ret := E_CFG;
        return;
      }
      ret, jumped := RunActions(env, env.routes[i]);
      if !jumped {
        lastRetcode := ret;
        runFlags := runFlags.(ret := false, brk := false);
      }
    }

    method DoSwitch(env: Env, cond: nat, cases: seq<Case>, def: seq<Action>)
      returns (ret: int, jumped: bool)
      requires env.maxLoops != 0 && 0 <= recLev <= env.maxLevel
      modifies this
      ensures Reports(J.Do(env, Switch(cond, cases, def), old(State())), ret, jumped)
      ensures !jumped ==> recLev == old(recLev)
      decreases env.maxLevel - recLev, 1, 0
    {
      jumped := false;
      var e := EvalExpr(env, cond);
      var list := def;
      if e.status < 0 {
        ret := -1;
      } else {
        if runFlags.exit {
          ret := 0;
          return;
        }
        runFlags := runFlags.(ret := false, brk := false);
        ret := 1;
        list := ScanCases(cases, def, e.value);
      }
      ret, jumped := RunCase(env, list, ret);
    }

    /** The scan of a table of cases, and the default after it. */
    method ScanCases(cases: seq<Case>, def: seq<Action>, v: int) returns (list: seq<Action>)
      ensures list == CaseList(cases, def, v)
    {
      var i := 0;
      while i < |cases| && cases[i].value != v
        invariant 0 <= i <= |cases|
        invariant FindCase(cases, v) == i + FindCase(cases[i..], v)
      {
        assert cases[i..][1..] == cases[i + 1..];
        i := i + 1;
      }
      list := if i < |cases| then cases[i].list else def;
    }

    /** Runs the list chosen, if there is one, and catches its breaks. */
    method RunCase(env: Env, list: seq<Action>, ret0: int) returns (ret: int, jumped: bool)
      requires env.maxLoops != 0 && 0 <= recLev <= env.maxLevel
      modifies this
      ensures if list == [] then !jumped && ret == ret0 && State() == old(State())
              else Reports(J.CatchBreak(J.Run(env, list, old(State()))), ret, jumped)
      ensures !jumped ==> recLev == old(recLev)
      decreases env.maxLevel - recLev, 0, 1
    {
      ret, jumped := ret0, false;
      if list != [] {
        ret, jumped := RunActions(env, list);
        if !jumped {
          runFlags := runFlags.(brk := false);
        }
      }
    }

    method DoJumpSwitch(env: Env, cond: nat, t: JumpTable) returns (ret: int, jumped: bool)
      requires env.maxLoops != 0 && 0 <= recLev <= env.maxLevel
      modifies this
      ensures Reports(J.Do(env, JumpSwitch(cond, t), old(State())), ret, jumped)
      ensures !jumped ==> recLev == old(recLev)
      decreases env.maxLevel - recLev, 1, 0
    {
      jumped := false;
      var e := EvalExpr(env, cond);
      var list := t.def;
      if e.status < 0 {
        ret := -1;
      } else {
        if runFlags.exit {
          ret := 0;
          return;
        }
        runFlags := runFlags.(ret := false, brk := false);
        ret := 1;
        if t.first <= e.value <= t.last {
          list := if e.value - t.first < |t.tbl| then t.tbl[e.value - t.first].list else [];
        } else {
          list := ScanCases(t.rest, t.def, e.value);
        }
      }
      ret, jumped := RunCase(env, list, ret);
    }

    method DoMatch(env: Env, cond: nat, jumps: seq<Jump>, def: seq<Action>) returns (ret: int, jumped: bool)
      requires env.maxLoops != 0 && 0 <= recLev <= env.maxLevel
      modifies this
      ensures Reports(J.Do(env, Match(cond, jumps, def), old(State())), ret, jumped)
      ensures !jumped ==> recLev == old(recLev)
      decreases env.maxLevel - recLev, 1, 0
    {
      jumped := false;
      var before := trace;
      var e := EvalExpr(env, cond);
      var list := def;
      if e.status < 0 {
        ret := -1;
      } else {
        if runFlags.exit {
          ret := 0;
          return;
        }
        runFlags := runFlags.(ret := false, brk := false);
        if !env.isString(before, cond) {
          ret := -1;
        } else {
          ret := 1;
          var i := 0;
          while i < |jumps| && !env.matches(before, cond, i)
            invariant 0 <= i <= |jumps|
            invariant FindLabel(env, before, cond, 0, |jumps|) == FindLabel(env, before, cond, i, |jumps|)
          {
            i := i + 1;
          }
          if i < |jumps| {
            list := jumps[i].list;
          }
        }
      }
      ret, jumped := RunCase(env, list, ret);
    }

    method DoWhile(env: Env, cond: nat, body: seq<Action>) returns (ret: int, jumped: bool)
      requires env.maxLoops != 0 && 0 <= recLev <= env.maxLevel
      modifies this
      ensures Reports(J.Do(env, While(cond, body), old(State())), ret, jumped)
      ensures !jumped ==> recLev == old(recLev)
      decreases env.maxLevel - recLev, 1, 0
    {
      ghost var all := J.Loop(env, cond, body, State(), 0, NO_FLAGS, 1);
      var i, flags := 0, NO_FLAGS;
      ret, jumped := 1, false;
      while !flags.Stops()
        invariant !jumped && recLev == old(recLev) && i >= 0
        invariant all == J.Loop(env, cond, body, State(), i, flags, ret)
        decreases !flags.Stops(), if env.maxLoops > i then env.maxLoops - i else 0
      {
        var e := EvalExpr(env, cond);
        if e.status != 0 || !Truth(env, e.value) {
          return;
        }
        if env.maxLoops > 0 {
          i := i + 1;
        }
        if i > env.maxLoops {
          ret := -1;
          return;
        }
        if body != [] {
          ret, jumped := RunActions(env, body);
          if jumped {
            return;
          }
          flags := flags.Or(runFlags);
          runFlags := runFlags.(brk := false);
        }
      }
    }
  }
}
