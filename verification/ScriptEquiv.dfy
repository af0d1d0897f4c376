/** The two builds of the interpreter agree, and what each control-flow statement lets out. */
module ScriptEquiv {
  import opened Seqs
  import opened Script
  import U = ScriptUnwind
  import J = ScriptJump

  /** Below the outermost frame: a call that returns is matched exactly; a call abandoned by a
      longjmp is matched by one that returns with EXIT still raised and the same code remembered,
      without the RETURN and BREAK that the statements it left have absorbed. */
  ghost predicate Matches(u: (Ctx, int), j: J.Outcome)
  {
    match j
    case Done(h, ret) => u == (h, ret)
    case Jumped(h, route, scope) =>
      && u.0.flags.exit && h.flags.exit
      && u.0.flags.drop == h.flags.drop
      && u.0.flags.ret == (h.flags.ret && !route)
      && u.0.flags.brk == (h.flags.brk && !scope)
      && u.0.trace == h.trace
      && u.1 == u.0.lastRet == h.lastRet
  }

  lemma {:induction false} RunMatches(env: Env, list: seq<Action>, h: Ctx)
    requires env.maxLoops != 0 && 0 < h.recLev <= env.maxLevel
    ensures Matches(U.Run(env, list, h), J.Run(env, list, h))
    decreases env.maxLevel - h.recLev, 0, 0
  {
    if h.recLev < env.maxLevel {
      ListMatches(env, list, Entered(h), if list == [] then 1 else E_UNSPEC);
    }
  }

  lemma {:induction false} ListMatches(env: Env, list: seq<Action>, h: Ctx, ret: int)
    requires env.maxLoops != 0 && 0 < h.recLev <= env.maxLevel
    ensures Matches(U.RunList(env, list, h, ret), J.RunList(env, list, h, ret))
    decreases env.maxLevel - h.recLev, 2, |list|
  {
    if list != [] {
      DoMatches(env, list[0], h);
      var u := U.Do(env, list[0], h);
      if !u.0.flags.Stops() {
        ListMatches(env, list[1..], u.0, u.1);
      }
    }
  }

  lemma {:induction false} DoMatches(env: Env, a: Action, h: Ctx)
    requires env.maxLoops != 0 && 0 < h.recLev <= env.maxLevel
    ensures Matches(U.Do(env, a, h), J.Do(env, a, h))
    decreases env.maxLevel - h.recLev, 1, 1
  {
    hide SwitchBranch, DoDrop, DoEvaluate, IfBranch, StartRoute;
    match a
    case Core(id) =>
    case Call(id) =>
    case Drop(code, raised) =>
    case Route(target) =>
      var (h1, start) := StartRoute(env, target, h);
      if start.Enter? {
        RunMatches(env, start.list, h1);
      }
    case If(cond, thn, els) =>
      var (h1, b) := IfBranch(env, cond, thn, els, h);
      if b.Take? {
        RunMatches(env, b.list, h1);
      }
    case Evaluate(cond) =>
    case Block(body) =>
      RunMatches(env, body, h);
    case While(cond, body) =>
      LoopMatches(env, cond, body, h, 0, NO_FLAGS, 1);
    case _ =>
      var (h1, b) := SwitchBranch(env, a, h);
      if b.Take? {
        RunMatches(env, b.list, h1);
      }
  }

  lemma {:induction false} LoopMatches(env: Env, cond: nat, body: seq<Action>, h: Ctx, i: nat, seen: Flags, ret: int)
    requires env.maxLoops != 0 && 0 < h.recLev <= env.maxLevel
    ensures Matches(U.Loop(env, cond, body, h, i, seen, ret), J.Loop(env, cond, body, h, i, seen, ret))
    decreases env.maxLevel - h.recLev, 1, 0, if env.maxLoops > i then env.maxLoops - i else 0
  {
    if !seen.Stops() {
      var (h1, e) := Eval(env, cond, h);
      var n := CountTurn(env, i);
      if e.status == 0 && Truth(env, e.value) && n != -1 {
        if body == [] {
          LoopMatches(env, cond, body, h1, n, seen, ret);
        } else {
          RunMatches(env, body, h1);
          var (h2, r2) := U.Run(env, body, h1);
          LoopMatches(env, cond, body, NoBreak(h2), n, seen.Or(h2.flags), r2);
        }
      }
    }
  }

  /** Every script, route table and outside world: leaving by longjmp and leaving frame by frame do
      the same things in the same order, return the same code, remember the same code, agree on
      EXIT and DROP, and end at recursion level 0. */
  lemma JumpEqualsUnwind(env: Env, list: seq<Action>, h: Ctx)
    requires env.maxLoops != 0 && h.recLev == 0
    ensures var j := J.Run(env, list, h); var u := U.Run(env, list, h);
            && j.Done?
            && j.ret == u.1
            && j.h.trace == u.0.trace
            && j.h.lastRet == u.0.lastRet
            && j.h.flags.exit == u.0.flags.exit && j.h.flags.drop == u.0.flags.drop
            && j.h.recLev == u.0.recLev == 0
  {
    if env.maxLevel > 0 {
      ListMatches(env, list, Entered(h), if list == [] then 1 else E_UNSPEC);
    }
  }

  /** How the outermost list ends before its own frame is left. */
  function Inner(env: Env, list: seq<Action>, h: Ctx): (o: J.Outcome)
    requires env.maxLoops != 0 && h.recLev == 0 < env.maxLevel
  {
    J.RunList(env, list, Entered(h), if list == [] then 1 else E_UNSPEC)
  }

  /** RETURN and BREAK as well: unwinding loses exactly what the statements left by the jump absorb.
      So the two builds agree on RETURN if and only if it was not raised when the exit left a route
      statement, and on BREAK if and only if it was not raised when the exit left a route, a switch,
      a block or a loop. */
  lemma FlagsExactly(env: Env, list: seq<Action>, h: Ctx)
    requires env.maxLoops != 0 && h.recLev == 0 < env.maxLevel
    ensures var o, j, u := Inner(env, list, h), J.Run(env, list, h).h.flags, U.Run(env, list, h).0.flags;
            && u.ret == (j.ret && !(o.Jumped? && o.route))
            && u.brk == (j.brk && !(o.Jumped? && o.scope))
            && (u.ret == j.ret <==> !(o.Jumped? && o.route && o.h.flags.ret))
            && (u.brk == j.brk <==> !(o.Jumped? && o.scope && o.h.flags.brk))
  {
    ListMatches(env, list, Entered(h), if list == [] then 1 else E_UNSPEC);
  }

  /** A script whose lists hold no route statement, at any depth. */
  predicate RouteFree(list: seq<Action>)
    decreases list
  {
    forall i :: 0 <= i < |list| ==> RouteFreeAction(list[i])
  }

  predicate RouteFreeAction(a: Action)
    decreases a
  {
    match a
    case Route(_) => false
    case If(_, thn, els) => RouteFree(thn) && RouteFree(els)
    case Switch(_, cases, def) => RouteFree(def) && RouteFreeCases(cases)
    case JumpSwitch(_, t) => RouteFree(t.def) && RouteFreeCases(t.rest) && RouteFreeJumps(t.tbl)
    case Match(_, jumps, def) => RouteFree(def) && RouteFreeJumps(jumps)
    case Block(body) => RouteFree(body)
    case While(_, body) => RouteFree(body)
    case _ => true
  }

  predicate RouteFreeCases(cases: seq<Case>)
    decreases cases
  {
    forall i :: 0 <= i < |cases| ==> RouteFree(cases[i].list)
  }

  predicate RouteFreeJumps(jumps: seq<Jump>)
    decreases jumps
  {
    forall i :: 0 <= i < |jumps| ==> RouteFree(jumps[i].list)
  }

  ghost predicate StaysInRoute(o: J.Outcome)
  {
    o.Jumped? ==> !o.route
  }

  lemma {:induction false} RouteFreeList(env: Env, list: seq<Action>, h: Ctx, ret: int)
    requires env.maxLoops != 0 && 0 < h.recLev <= env.maxLevel && RouteFree(list)
    ensures StaysInRoute(J.RunList(env, list, h, ret))
    decreases env.maxLevel - h.recLev, 2, |list|
  {
    if list != [] {
      RouteFreeDo(env, list[0], h);
      var o := J.Do(env, list[0], h);
      if o.Done? && !o.h.flags.Stops() {
        RouteFreeList(env, list[1..], o.h, o.ret);
      }
    }
  }

  lemma {:induction false} RouteFreeRun(env: Env, list: seq<Action>, h: Ctx)
    requires env.maxLoops != 0 && 0 < h.recLev <= env.maxLevel && RouteFree(list)
    ensures StaysInRoute(J.Run(env, list, h))
    decreases env.maxLevel - h.recLev, 0, 0
  {
    if h.recLev < env.maxLevel {
      RouteFreeList(env, list, Entered(h), if list == [] then 1 else E_UNSPEC);
    }
  }

  lemma {:induction false} RouteFreeDo(env: Env, a: Action, h: Ctx)
    requires env.maxLoops != 0 && 0 < h.recLev <= env.maxLevel && RouteFreeAction(a)
    ensures StaysInRoute(J.Do(env, a, h))
    decreases env.maxLevel - h.recLev, 1, 1
  {
    match a
    case If(cond, thn, els) =>
      var (h1, b) := IfBranch(env, cond, thn, els, h);
      if b.Take? {
        RouteFreeRun(env, b.list, h1);
      }
    case Block(body) => RouteFreeRun(env, body, h);
    case While(cond, body) => RouteFreeLoop(env, cond, body, h, 0, NO_FLAGS, 1);
    case Switch(_, _, _) => RouteFreeSwitch(env, a, h);
    case JumpSwitch(_, _) => RouteFreeSwitch(env, a, h);
    case Match(_, _, _) => RouteFreeSwitch(env, a, h);
    case _ =>
  }

  lemma {:induction false} RouteFreeSwitch(env: Env, a: Action, h: Ctx)
    requires env.maxLoops != 0 && 0 < h.recLev <= env.maxLevel && IsSwitch(a) && RouteFreeAction(a)
    ensures StaysInRoute(J.Do(env, a, h))
    decreases env.maxLevel - h.recLev, 1, 0
  {
    var (h1, b) := SwitchBranch(env, a, h);
    if b.Take? {
      RouteFreeRun(env, b.list, h1);
    }
  }

  lemma {:induction false} RouteFreeLoop(env: Env, cond: nat, body: seq<Action>, h: Ctx, i: nat, seen: Flags, ret: int)
    requires env.maxLoops != 0 && 0 < h.recLev <= env.maxLevel && RouteFree(body)
    ensures StaysInRoute(J.Loop(env, cond, body, h, i, seen, ret))
    decreases env.maxLevel - h.recLev, 1, 0, if env.maxLoops > i then env.maxLoops - i else 0
  {
    if !seen.Stops() {
      var (h1, e) := Eval(env, cond, h);
      var n := CountTurn(env, i);
      if e.status == 0 && Truth(env, e.value) && n != -1 {
        if body == [] {
          RouteFreeLoop(env, cond, body, h1, n, seen, ret);
        } else {
          RouteFreeRun(env, body, h1);
          var o := J.Run(env, body, h1);
          if o.Done? {
            RouteFreeLoop(env, cond, body, NoBreak(o.h), n, seen.Or(o.h.flags), o.ret);
          }
        }
      }
    }
  }

  /** A script without route statements leaves the same RETURN flag under both exits, in every world. */
  lemma RouteFreeAgrees(env: Env, list: seq<Action>, h: Ctx)
    requires env.maxLoops != 0 && h.recLev == 0 < env.maxLevel && RouteFree(list)
    ensures J.Run(env, list, h).h.flags.ret == U.Run(env, list, h).0.flags.ret
  {
    hide J.RunList, U.RunList;
    FlagsExactly(env, list, h);
    RouteFreeList(env, list, Entered(h), if list == [] then 1 else E_UNSPEC);
  }

  /** The smallest script on which they differ: a `return 0` inside a route is left raised by the
      longjmp and absorbed by the unwinding route statement. */
  lemma ReturnFlagDiffers(env: Env)
    requires env.maxLoops != 0 && env.maxLevel >= 2
    requires env.routes == [[Drop(Number(0), NO_FLAGS.(ret := true))]]
    ensures J.Run(env, [Route(Index(0))], INIT).h.flags.ret
    ensures !U.Run(env, [Route(Index(0))], INIT).0.flags.ret
  {
    var list, ret0 := env.routes[0], NO_FLAGS.(ret := true);
    var h1 := Entered(INIT);
    var h2 := Entered(h1);
    var h3 := h2.(flags := Flags(true, true, false, false));
    assert DoDrop(env, Number(0), ret0, h2) == (h3, 0);
    assert U.RunList(env, list, h2, E_UNSPEC) == (h3.(lastRet := 0), 0);
    assert J.RunList(env, list, h2, E_UNSPEC) == J.Jumped(h3.(lastRet := 0), false, false);
    assert U.Run(env, list, h1) == (Left(h3.(lastRet := 0)), 0);
    assert J.Run(env, list, h1) == J.Jumped(h3.(lastRet := 0), false, false);
    assert U.Do(env, Route(Index(0)), h1) == (AfterRoute(Left(h3.(lastRet := 0)), 0), 0);
    assert J.Do(env, Route(Index(0)), h1) == J.Jumped(h3.(lastRet := 0), true, true);
  }

  // ----- what a statement lets out -----

  /** A block lets BREAK out only if it had nothing to run and BREAK was already raised. */
  lemma BlockScope(env: Env, body: seq<Action>, h: Ctx)
    requires env.maxLoops != 0 && 0 <= h.recLev <= env.maxLevel
    ensures U.Do(env, Block(body), h).0.flags.brk <==> body == [] && h.flags.brk
  {
  }

  /** A switch lets BREAK out exactly when its own expression raised it and then either failed
      with no default to run, or raised EXIT too. */
  lemma SwitchScope(env: Env, a: Action, h: Ctx)
    requires env.maxLoops != 0 && 0 <= h.recLev <= env.maxLevel && IsSwitch(a)
    ensures var e := Eval(env, a.cond, h).1;
            U.Do(env, a, h).0.flags.brk == (e.flags.brk && if e.status < 0 then DefaultOf(a) == [] else e.flags.exit)
  {
  }

  /** A route that was entered lets neither BREAK nor RETURN out. */
  lemma RouteScope(env: Env, target: Target, h: Ctx)
    requires env.maxLoops != 0 && 0 <= h.recLev <= env.maxLevel
    ensures var (h1, start) := StartRoute(env, target, h); var r := U.Do(env, Route(target), h);
            if start.Enter? then !r.0.flags.brk && !r.0.flags.ret && r.0.lastRet == r.1
            else r == (h1, start.ret)
  {
  }

  /** Expressions that never raise BREAK by themselves. */
  ghost predicate Quiet(env: Env)
  {
    forall t: seq<Event>, id: nat, f: Flags, l: int :: !f.brk ==> !env.expr(t, id, f, l).flags.brk
  }

  /** The flags left by the evaluation of the condition that ends the loop, because it is false or
      fails or because the loop has run away; none if the flags raised by its body end it. */
  function EndingCondition(env: Env, cond: nat, body: seq<Action>, h: Ctx, i: nat, seen: Flags): (r: Option<Flags>)
    requires env.maxLoops != 0 && 0 <= h.recLev <= env.maxLevel
    decreases if env.maxLoops > i then env.maxLoops - i else 0
  {
    if seen.Stops() then None
    else
      var (h1, e) := Eval(env, cond, h);
      var n := CountTurn(env, i);
      if e.status != 0 || !Truth(env, e.value) || n == -1 then Some(h1.flags)
      else if body == [] then EndingCondition(env, cond, body, h1, n, seen)
      else
        var h2 := U.Run(env, body, h1).0;
        EndingCondition(env, cond, body, NoBreak(h2), n, seen.Or(h2.flags))
  }

  /** From any turn on, a while loop lets BREAK out if and only if an evaluation of its condition
      ended it and left BREAK raised. With expressions that raise no BREAK that never happens. */
  lemma {:induction false} LoopScope(env: Env, cond: nat, body: seq<Action>, h: Ctx, i: nat, seen: Flags, ret: int)
    requires env.maxLoops != 0 && 0 <= h.recLev <= env.maxLevel
    requires seen.Stops() ==> !h.flags.brk
    ensures U.Loop(env, cond, body, h, i, seen, ret).0.flags.brk
            <==> exists f :: EndingCondition(env, cond, body, h, i, seen) == Some(f) && f.brk
    ensures Quiet(env) && !h.flags.brk ==> !U.Loop(env, cond, body, h, i, seen, ret).0.flags.brk
    decreases env.maxLevel - h.recLev, 1, 0, if env.maxLoops > i then env.maxLoops - i else 0
  {
    if !seen.Stops() {
      var (h1, e) := Eval(env, cond, h);
      var n := CountTurn(env, i);
      if e.status == 0 && Truth(env, e.value) && n != -1 {
        if body == [] {
          LoopScope(env, cond, body, h1, n, seen, ret);
        } else {
          var (h2, r2) := U.Run(env, body, h1);
          LoopScope(env, cond, body, NoBreak(h2), n, seen.Or(h2.flags), r2);
        }
      }
    }
  }

  /** The loop as a statement, whatever flags are raised when it starts; an if cleans up after its
      condition unless that raised EXIT too. */
  lemma WhileLeaksCondition(env: Env, cond: nat, body: seq<Action>, h: Ctx)
    requires env.maxLoops != 0 && 0 <= h.recLev <= env.maxLevel
    ensures U.Do(env, While(cond, body), h).0.flags.brk
            <==> exists f :: EndingCondition(env, cond, body, h, 0, NO_FLAGS) == Some(f) && f.brk
    ensures U.Do(env, If(cond, [], []), h).0.flags.brk
            <==> Eval(env, cond, h).1.flags.brk && Eval(env, cond, h).1.flags.exit
  {
    LoopScope(env, cond, body, h, 0, NO_FLAGS, 1);
  }

  /** A world in which a condition is true `turns` times and then has the value `last`, and raises
      BREAK then. */
  function Leaky(turns: nat, last: int, loops: int): (env: Env)
  {
    Env([], 2, loops, false, (t, id) => 1,
        (t: seq<Event>, id: nat, f: Flags, l: int) =>
          if |t| < 2 * turns then ExprResult(0, 1, f, l) else ExprResult(0, last, f.(brk := true), l),
        (t, id) => NoRoute, (t, id) => true, (t, id, i) => true)
  }

  /** Two leaks: a condition that ends the loop after one turn, and a loop that runs away. */
  lemma WhileLeaks()
    ensures var h := INIT.(recLev := 1);
            && U.Do(Leaky(1, 0, 5), While(0, [Core(0)]), h).0.flags.brk
            && U.Do(Leaky(0, 1, 1), While(0, []), h).0.flags.brk && U.Do(Leaky(0, 1, 1), While(0, []), h).1 == -1
  {
    var env, h := Leaky(1, 0, 5), INIT.(recLev := 1);
    var (h1, e) := Eval(env, 0, h);
    var h2 := Entered(h1);
    var h3 := DoCore(env, 0, h2).0;
    assert U.RunList(env, [Core(0)], h2, E_UNSPEC) == (h3, 1) by {
      assert U.RunList(env, [Core(0)][1..], h3, 1) == (h3, 1);
    }
    assert U.Run(env, [Core(0)], h1) == (Left(h3), 1);
    assert U.Loop(env, 0, [Core(0)], NoBreak(Left(h3)), 1, NO_FLAGS, 1).0.flags.brk;
    var away := Leaky(0, 1, 1);
    var g := Eval(away, 0, h).0;
    assert U.Loop(away, 0, [], g, 1, NO_FLAGS, 1) == (Eval(away, 0, g).0, -1);
  }

  /** What lets BREAK out of an action, exactly. With quiet expressions and no BREAK pending, only
      `break` itself and the branches of an if do. */
  lemma BreakScope(env: Env, a: Action, h: Ctx)
    requires env.maxLoops != 0 && 0 <= h.recLev <= env.maxLevel
    ensures U.Do(env, a, h).0.flags.brk <==> LetsBreakOut(env, a, h)
    ensures Quiet(env) && !h.flags.brk && U.Do(env, a, h).0.flags.brk ==> (a.Drop? && a.raised.brk) || a.If?
  {
    if a.While? {
      LoopScope(env, a.cond, a.body, h, 0, NO_FLAGS, 1);
    }
  }

  /** BREAK is pending and not caught, is raised by the action, is left by its expression and not
      cleaned up, or comes out of the branch an if takes. */
  ghost predicate LetsBreakOut(env: Env, a: Action, h: Ctx)
    requires env.maxLoops != 0 && 0 <= h.recLev <= env.maxLevel
  {
    match a
    case Core(_) => h.flags.brk
    case Call(_) => h.flags.brk
    case Drop(code, raised) =>
      || (if code.Expr? then Eval(env, code.id, h).1.flags.brk else h.flags.brk)
      || (!code.BadOperand? && raised.brk)
    case Route(target) => var (h1, start) := StartRoute(env, target, h); start.Fail? && h1.flags.brk
    case If(cond, thn, els) =>
      var (h1, b) := IfBranch(env, cond, thn, els, h);
      if b.Take? then U.Run(env, b.list, h1).0.flags.brk
      else var f := Eval(env, cond, h).1.flags; f.brk && f.exit
    case Evaluate(cond) => Eval(env, cond, h).1.flags.brk
    case Block(body) => body == [] && h.flags.brk
    case While(cond, body) =>
      exists f :: EndingCondition(env, cond, body, h, 0, NO_FLAGS) == Some(f) && f.brk
    case _ =>
      var e := Eval(env, a.cond, h).1; e.flags.brk && if e.status < 0 then DefaultOf(a) == [] else e.flags.exit
  }
}
