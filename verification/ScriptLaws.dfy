/** What the statements of a script do (src/core/action.c:670-1408), from the answers of the outside world
    alone: which list an if, a switch, a route or a loop runs, in which state, and what follows it. */
module ScriptLaws {
  import opened Script
  import opened ScriptJump

  // ----- conditions -----

  function Asked(env: Env, cond: nat, h: Ctx): (e: ExprResult)
  {
    env.expr(h.trace, cond, h.flags, h.lastRet)
  }

  /** The context after a condition, as it left it. */
  function After(env: Env, cond: nat, h: Ctx): (g: Ctx)
  {
    var e := Asked(env, cond, h);
    Ctx(h.recLev, e.flags, e.lastRet, h.trace + [Evaluated(cond)])
  }

  /** The same with RETURN and BREAK caught. */
  function Clear(env: Env, cond: nat, h: Ctx): (g: Ctx)
  {
    var e := Asked(env, cond, h);
    Ctx(h.recLev, Flags(e.flags.exit, false, false, e.flags.drop), e.lastRet, h.trace + [Evaluated(cond)])
  }

  /** Evaluated without error to a positive value or, in the strict mode, to a negative one. */
  predicate Holds(env: Env, e: ExprResult)
  {
    e.status == 0 && (e.value > 0 || (env.strictReturn && e.value < 0))
  }

  predicate InRange(env: Env, h: Ctx)
  {
    env.maxLoops != 0 && 0 <= h.recLev <= env.maxLevel
  }

  function RunOr(env: Env, list: seq<Action>, g: Ctx, ret: int): (o: Outcome)
    requires InRange(env, g)
  {
    if list == [] then Done(g, ret) else Run(env, list, g)
  }

  // ----- if -----

  /** EXIT raised by the condition ends an if. Otherwise a true condition runs the first list and a false or
      failed one the second, and an empty list is a success. */
  lemma IfRuns(env: Env, cond: nat, thn: seq<Action>, els: seq<Action>, h: Ctx)
    requires InRange(env, h)
    ensures var e := Asked(env, cond, h);
            Do(env, If(cond, thn, els), h)
            == if e.flags.exit then Done(After(env, cond, h), 0)
               else if Holds(env, e) then RunOr(env, thn, Clear(env, cond, h), 1)
               else RunOr(env, els, Clear(env, cond, h), 1)
  {
    hide Run;
  }

  /** The list not chosen does not matter. */
  lemma IfIgnores(env: Env, cond: nat, a: seq<Action>, b: seq<Action>, c: seq<Action>, h: Ctx)
    requires InRange(env, h)
    ensures Holds(env, Asked(env, cond, h)) ==> Do(env, If(cond, a, b), h) == Do(env, If(cond, a, c), h)
    ensures !Holds(env, Asked(env, cond, h)) ==> Do(env, If(cond, b, a), h) == Do(env, If(cond, c, a), h)
  {
    hide Run, Do, After, Clear;
    IfRuns(env, cond, a, b, h);
    IfRuns(env, cond, a, c, h);
    IfRuns(env, cond, b, a, h);
    IfRuns(env, cond, c, a, h);
  }

  // ----- routes -----

  /** What a route statement makes of its list: the code is remembered, RETURN and BREAK end with it. */
  function Routed(o: Outcome): (r: Outcome)
  {
    match o
    case Jumped(h, _, _) => Jumped(h, true, true)
    case Done(h, ret) => Done(Ctx(h.recLev, Flags(h.flags.exit, false, false, h.flags.drop), ret, h.trace), ret)
  }

  /** A route runs the list at its index; an index out of the table is an error and changes nothing. */
  lemma RouteRuns(env: Env, i: int, h: Ctx)
    requires InRange(env, h)
    ensures Do(env, Route(Index(i)), h)
            == if 0 <= i < |env.routes| then Routed(Run(env, env.routes[i], h)) else Done(h, -6)
  {
    hide Run;
  }

  /** A route given by an expression is the route of the index that its value is looked up as. */
  lemma NamedRouteRuns(env: Env, id: nat, h: Ctx)
    requires InRange(env, h)
    ensures Do(env, Route(Name(id)), h)
            == match env.lookup(h.trace, id)
               case NoString => Done(After(env, id, h), -1)
               case NoRoute => Done(After(env, id, h), -10)
               case Found(i) => Do(env, Route(Index(i)), After(env, id, h))
  {
    hide Run;
  }

  // ----- switches -----

  /** The number of the first label that is v, or the number of labels. */
  ghost predicate FirstLabel(cases: seq<Case>, v: int, k: nat)
  {
    k <= |cases| && (forall j :: 0 <= j < k ==> cases[j].value != v) && (k < |cases| ==> cases[k].value == v)
  }

  lemma {:induction false} CaseIsFirst(cases: seq<Case>, def: seq<Action>, v: int, k: nat)
    requires FirstLabel(cases, v, k)
    ensures FindCase(cases, v) == k && CaseList(cases, def, v) == if k < |cases| then cases[k].list else def
  {
    if cases != [] && cases[0].value != v {
      CaseIsFirst(cases[1..], def, v, k - 1);
    }
  }

  /** What a switch makes of the list it runs: BREAK ends with it, RETURN does not. */
  function Broken(o: Outcome): (r: Outcome)
  {
    match o
    case Jumped(h, r, _) => Jumped(h, r, true)
    case Done(h, ret) =>
      Done(Ctx(h.recLev, Flags(h.flags.exit, h.flags.ret, false, h.flags.drop), h.lastRet, h.trace), ret)
  }

  function CaseOr(env: Env, list: seq<Action>, g: Ctx, ret: int): (o: Outcome)
    requires InRange(env, g)
  {
    if list == [] then Done(g, ret) else Broken(Run(env, list, g))
  }

  /** An expression that fails takes the default, in the context it left; EXIT ends the switch; otherwise the
      list of the first label equal to the value runs, or the default if there is none. */
  lemma SwitchRuns(env: Env, cond: nat, cases: seq<Case>, def: seq<Action>, h: Ctx, k: nat)
    requires InRange(env, h) && FirstLabel(cases, Asked(env, cond, h).value, k)
    ensures var e := Asked(env, cond, h);
            Do(env, Switch(cond, cases, def), h)
            == if e.status < 0 then CaseOr(env, def, After(env, cond, h), -1)
               else if e.flags.exit then Done(After(env, cond, h), 0)
               else CaseOr(env, if k < |cases| then cases[k].list else def, Clear(env, cond, h), 1)
  {
    hide Run, CaseList;
    CaseIsFirst(cases, def, Asked(env, cond, h).value, k);
  }

  /** A jump table: labels from first to last by their place, the others like those of a switch. */
  lemma JumpSwitchRuns(env: Env, cond: nat, t: JumpTable, h: Ctx, k: nat)
    requires InRange(env, h) && FirstLabel(t.rest, Asked(env, cond, h).value, k)
    ensures var e := Asked(env, cond, h);
            Do(env, JumpSwitch(cond, t), h)
            == if e.status < 0 then CaseOr(env, t.def, After(env, cond, h), -1)
               else if e.flags.exit then Done(After(env, cond, h), 0)
               else CaseOr(env, if t.first <= e.value <= t.last
                                then (if e.value < t.first + |t.tbl| then t.tbl[e.value - t.first].list else [])
                                else if k < |t.rest| then t.rest[k].list else t.def,
                           Clear(env, cond, h), 1)
  {
    hide Run, CaseList;
    CaseIsFirst(t.rest, t.def, Asked(env, cond, h).value, k);
  }

  lemma {:induction false} LabelIsFirst(env: Env, t: seq<Event>, id: nat, i: nat, k: nat, n: nat)
    requires i <= k <= n && (forall j :: i <= j < k ==> !env.matches(t, id, j)) && (k < n ==> env.matches(t, id, k))
    ensures FindLabel(env, t, id, i, n) == k
    decreases n - i
  {
    if i < k {
      LabelIsFirst(env, t, id, i + 1, k, n);
    }
  }

  /** A switch on strings runs the list of the first label that matches; a value that is no string takes the
      default. */
  lemma MatchRuns(env: Env, cond: nat, jumps: seq<Jump>, def: seq<Action>, h: Ctx, k: nat)
    requires InRange(env, h) && k <= |jumps| && (k < |jumps| ==> env.matches(h.trace, cond, k))
    requires forall j :: 0 <= j < k ==> !env.matches(h.trace, cond, j)
    ensures var e := Asked(env, cond, h);
            Do(env, Match(cond, jumps, def), h)
            == if e.status < 0 then CaseOr(env, def, After(env, cond, h), -1)
               else if e.flags.exit then Done(After(env, cond, h), 0)
               else if !env.isString(h.trace, cond) then CaseOr(env, def, Clear(env, cond, h), -1)
               else CaseOr(env, if k < |jumps| then jumps[k].list else def, Clear(env, cond, h), 1)
  {
    hide Run, FindLabel;
    LabelIsFirst(env, h.trace, cond, 0, k, |jumps|);
  }

  // ----- loops -----

  /** One turn of a loop: the condition holds, and the body, run once, returns without ending the loop. */
  ghost predicate Turn(env: Env, cond: nat, body: seq<Action>, h: Ctx, ret: int, h': Ctx, ret': int)
    requires InRange(env, h)
  {
    && Holds(env, Asked(env, cond, h))
    && (if body == [] then h' == After(env, cond, h) && ret' == ret
        else Run(env, body, After(env, cond, h)) == Done(h', ret') && !h'.flags.Stops())
  }

  /** The contexts and codes between the turns of a loop. */
  ghost predicate Turns(env: Env, cond: nat, body: seq<Action>, hs: seq<Ctx>, rets: seq<int>)
  {
    && |hs| == |rets| > 0 && (forall k :: 0 <= k < |hs| ==> InRange(env, hs[k]))
    && forall k :: 0 <= k < |hs| - 1 ==> Turn(env, cond, body, hs[k], rets[k], hs[k + 1], rets[k + 1])
  }

  /** How a loop ends after n turns: its condition fails, it has run away, or its body stops it. */
  ghost predicate Ends(env: Env, cond: nat, body: seq<Action>, h: Ctx, ret: int, n: nat, o: Outcome)
    requires InRange(env, h)
  {
    var g := After(env, cond, h);
    if !Holds(env, Asked(env, cond, h)) then o == Done(g, ret)
    else if n >= env.maxLoops then o == Done(g, -1)
    else
      && body != []
      && var b := Run(env, body, g);
         (b.Jumped? || b.h.flags.Stops()) && o == Broken(b)
  }

  /** The flags collected do not matter as long as none of them stops the loop. */
  lemma {:induction false} SeenIrrelevant(env: Env, cond: nat, body: seq<Action>, h: Ctx, i: nat, seen: Flags, ret: int)
    requires InRange(env, h) && !seen.Stops()
    ensures Loop(env, cond, body, h, i, seen, ret) == Loop(env, cond, body, h, i, NO_FLAGS, ret)
    decreases if env.maxLoops > i then env.maxLoops - i else 0
  {
    hide Run;
    var (h1, e) := Eval(env, cond, h);
    var n := CountTurn(env, i);
    if e.status == 0 && Truth(env, e.value) && n != -1 {
      if body == [] {
        SeenIrrelevant(env, cond, body, h1, n, seen, ret);
      } else {
        var b := Run(env, body, h1);
        if b.Done? && !b.h.flags.Stops() {
          SeenIrrelevant(env, cond, body, NoBreak(b.h), n, seen.Or(b.h.flags), b.ret);
          SeenIrrelevant(env, cond, body, NoBreak(b.h), n, NO_FLAGS.Or(b.h.flags), b.ret);
        }
      }
    }
  }

  lemma LoopTurn(env: Env, cond: nat, body: seq<Action>, h: Ctx, ret: int, i: nat, h': Ctx, ret': int)
    requires InRange(env, h) && InRange(env, h') && i < env.maxLoops && Turn(env, cond, body, h, ret, h', ret')
    ensures Loop(env, cond, body, h, i, NO_FLAGS, ret) == Loop(env, cond, body, h', i + 1, NO_FLAGS, ret')
  {
    hide Run;
    if body != [] {
      assert NoBreak(h') == h';
      SeenIrrelevant(env, cond, body, h', i + 1, NO_FLAGS.Or(h'.flags), ret');
    }
  }

  lemma LoopEnds(env: Env, cond: nat, body: seq<Action>, h: Ctx, ret: int, i: nat, o: Outcome)
    requires InRange(env, h) && Ends(env, cond, body, h, ret, i, o) && (i == 0 || i <= env.maxLoops)
    ensures Loop(env, cond, body, h, i, NO_FLAGS, ret) == o
  {
    hide Run;
  }

  lemma {:induction false} LoopFrom(env: Env, cond: nat, body: seq<Action>, hs: seq<Ctx>, rets: seq<int>, n: nat,
                                    o: Outcome, k: nat)
    requires Turns(env, cond, body, hs, rets) && k <= n == |hs| - 1 && (n == 0 || n <= env.maxLoops)
    requires Ends(env, cond, body, hs[n], rets[n], n, o)
    ensures Loop(env, cond, body, hs[k], k, NO_FLAGS, rets[k]) == o
    decreases n - k
  {
    hide Run, Loop, Turn, Ends;
    if k < n {
      LoopFrom(env, cond, body, hs, rets, n, o, k + 1);
      LoopTurn(env, cond, body, hs[k], rets[k], k, hs[k + 1], rets[k + 1]);
    } else {
      LoopEnds(env, cond, body, hs[n], rets[n], n, o);
    }
  }

  /** A loop runs its body once for each time its condition holds, until one of its ends. */
  lemma WhileRuns(env: Env, cond: nat, body: seq<Action>, hs: seq<Ctx>, rets: seq<int>, o: Outcome)
    requires Turns(env, cond, body, hs, rets) && rets[0] == 1 && (|hs| == 1 || |hs| - 1 <= env.maxLoops)
    requires Ends(env, cond, body, hs[|hs| - 1], rets[|hs| - 1], |hs| - 1, o)
    ensures Do(env, While(cond, body), hs[0]) == o
  {
    hide Run, Loop, Turn, Ends;
    LoopFrom(env, cond, body, hs, rets, |hs| - 1, o, 0);
  }

  /** From some turn on, the rest of the turns. */
  lemma {:induction false} TurnsFrom(env: Env, cond: nat, body: seq<Action>, h: Ctx, ret: int, i: nat)
    returns (hs: seq<Ctx>, rets: seq<int>, o: Outcome)
    requires InRange(env, h) && (i == 0 || i <= env.maxLoops)
    ensures Turns(env, cond, body, hs, rets) && hs[0] == h && rets[0] == ret
    ensures i + |hs| - 1 == 0 || i + |hs| - 1 <= env.maxLoops
    ensures Ends(env, cond, body, hs[|hs| - 1], rets[|hs| - 1], i + |hs| - 1, o)
    decreases if env.maxLoops > i then env.maxLoops - i else 0
  {
    hide Run;
    var g := After(env, cond, h);
    hs, rets := [h], [ret];
    if !Holds(env, Asked(env, cond, h)) {
      o := Done(g, ret);
    } else if i >= env.maxLoops {
      o := Done(g, -1);
    } else {
      var b := if body == [] then Done(g, ret) else Run(env, body, g);
      if body != [] && (b.Jumped? || b.h.flags.Stops()) {
        o := Broken(b);
      } else {
        hide Turn, Ends;
        assert Turn(env, cond, body, h, ret, b.h, b.ret);
        var ts, rs;
        ts, rs, o := TurnsFrom(env, cond, body, b.h, b.ret, i + 1);
        hs, rets := [h] + ts, [ret] + rs;
      }
    }
  }

  /** Every loop is of this form: finitely many turns, at most max_while_loops of them, and an end. */
  lemma WhileIsTurns(env: Env, cond: nat, body: seq<Action>, h: Ctx) returns (hs: seq<Ctx>, rets: seq<int>)
    requires InRange(env, h)
    ensures Turns(env, cond, body, hs, rets) && hs[0] == h && rets[0] == 1
    ensures |hs| == 1 || |hs| - 1 <= env.maxLoops
    ensures Ends(env, cond, body, hs[|hs| - 1], rets[|hs| - 1], |hs| - 1, Do(env, While(cond, body), h))
  {
    hide Run, Loop, Turn, Ends;
    var o;
    hs, rets, o := TurnsFrom(env, cond, body, h, 1, 0);
    WhileRuns(env, cond, body, hs, rets, o);
  }

  // ----- lists -----

  /** A list is run action by action: what follows runs from where the first part ended, unless that part was
      left by EXIT, RETURN or BREAK. */
  lemma {:induction false} SequenceRuns(env: Env, a: seq<Action>, b: seq<Action>, h: Ctx, ret: int)
    requires InRange(env, h) && a != []
    ensures RunList(env, a + b, h, ret)
            == var o := RunList(env, a, h, ret);
               if o.Done? && !o.h.flags.exit && !o.h.flags.ret && !o.h.flags.brk then RunList(env, b, o.h, o.ret)
               else o
    decreases |a|
  {
    hide Do;
    assert (a + b)[0] == a[0] && (a + b)[1..] == a[1..] + b;
    var o := Do(env, a[0], h);
    if |a| == 1 {
      assert a[1..] + b == b;
    } else if o.Done? && !o.h.flags.Stops() {
      SequenceRuns(env, a[1..], b, o.h, o.ret);
    }
  }

  /** A core command is done, whatever its code, and the script goes on. */
  lemma CoreGoesOn(env: Env, id: nat, rest: seq<Action>, h: Ctx, ret: int)
    requires InRange(env, h) && h.flags == NO_FLAGS
    ensures RunList(env, [Core(id)] + rest, h, ret)
            == RunList(env, rest, Ctx(h.recLev, NO_FLAGS, h.lastRet, h.trace + [Ran(id)]), env.code(h.trace, id))
  {
    assert ([Core(id)] + rest)[1..] == rest;
  }

  /** A module function that returns 0 ends the script; any other code is remembered and the script goes on. */
  lemma CallGoesOn(env: Env, id: nat, rest: seq<Action>, h: Ctx, ret: int)
    requires InRange(env, h) && h.flags == NO_FLAGS
    ensures var c, t := env.code(h.trace, id), h.trace + [Called(id)];
            RunList(env, [Call(id)] + rest, h, ret)
            == if c == 0 then Jumped(Ctx(h.recLev, Flags(true, false, false, false), 0, t), false, false)
               else RunList(env, rest, Ctx(h.recLev, NO_FLAGS, c, t), c)
  {
    assert ([Call(id)] + rest)[1..] == rest;
  }

  /** exit, return, break and drop: what follows is not run. exit and drop end the script with the number given,
      and so does a return of 0; another return and a break end the list with it. */
  lemma DropEnds(env: Env, n: int, raised: Flags, rest: seq<Action>, h: Ctx, ret: int)
    requires InRange(env, h) && h.flags == NO_FLAGS && (raised.exit || raised.ret || raised.brk)
    ensures RunList(env, [Drop(Number(n), raised)] + rest, h, ret)
            == if raised.exit || (raised.ret && n == 0)
               then Jumped(Ctx(h.recLev, Flags(true, raised.ret, raised.brk, raised.drop), n, h.trace), false, false)
               else Done(Ctx(h.recLev, raised, h.lastRet, h.trace), n)
  {
    assert ([Drop(Number(n), raised)] + rest)[1..] == rest;
  }

  /** The number may be the value of an expression or the code remembered. */
  lemma DropOperands(env: Env, id: nat, raised: Flags, h: Ctx)
    requires InRange(env, h)
    ensures Do(env, Drop(Expr(id), raised), h)
            == Do(env, Drop(Number(Asked(env, id, h).value), raised), After(env, id, h))
    ensures Do(env, Drop(LastRetcode, raised), h) == Do(env, Drop(Number(h.lastRet), raised), h)
  {
  }

  /** A block is its list with BREAK caught; an expression used as a statement lets its BREAK out. */
  lemma BlockRuns(env: Env, body: seq<Action>, cond: nat, h: Ctx)
    requires InRange(env, h)
    ensures Do(env, Block(body), h) == if body == [] then Done(h, -5) else Broken(Run(env, body, h))
    ensures var e, g := Asked(env, cond, h), After(env, cond, h);
            Do(env, Evaluate(cond), h)
            == if e.flags.exit then Done(g, 0)
               else Done(Ctx(h.recLev, Flags(false, false, e.flags.brk, e.flags.drop), e.lastRet, g.trace), 1)
  {
    hide Run;
  }

  /** The outermost list starts with no flags and code 0 and ends with the code its exit gave; a list is not run
      below the deepest level; an empty list is a success. */
  lemma LevelRuns(env: Env, list: seq<Action>, h: Ctx)
    requires InRange(env, h)
    ensures h.recLev == env.maxLevel ==> Run(env, list, h) == Done(h, -1)
    ensures h.recLev < env.maxLevel ==>
              var top := h.recLev == 0;
              var o := RunList(env, list, if top then Ctx(1, NO_FLAGS, 0, h.trace) else h.(recLev := h.recLev + 1),
                               if list == [] then 1 else -1);
              Run(env, list, h) == if o.Done? then Done(o.h.(recLev := h.recLev), o.ret)
                                   else if top then Done(o.h.(recLev := 0), o.h.lastRet) else o
  {
    hide RunList;
  }
}
