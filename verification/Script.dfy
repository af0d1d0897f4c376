/** The routing script (src/core/action.c): actions, the environment they run in and the
    run_act_ctx that carries recursion level, run flags and last return code. */
module Script {

  const E_UNSPEC := -1
  const E_BUG := -5
  const E_CFG := -6
  const E_SCRIPT := -10

  /** EXIT_R_F, RETURN_R_F, BREAK_R_F and DROP_R_F. */
  datatype Flags = Flags(exit: bool, ret: bool, brk: bool, drop: bool)
  {
    function Or(f: Flags): (r: Flags)
    {
      Flags(exit || f.exit, ret || f.ret, brk || f.brk, drop || f.drop)
    }

    predicate Stops()
    {
      exit || ret || brk
    }
  }

  const NO_FLAGS := Flags(false, false, false, false)

  /** The operand of exit, return, break and drop. */
  datatype Code = Number(n: int) | Expr(id: nat) | LastRetcode | BadOperand

  datatype Target = Index(i: int) | Name(id: nat)

  /** An empty list stands for the null pointer. */
  datatype Action =
    | Core(id: nat)                                    // a core command that only returns a code
    | Call(id: nat)                                    // a module function
    | Drop(code: Code, raised: Flags)                     // exit, return, break, drop
    | Route(target: Target)
    | If(cond: nat, thn: seq<Action>, els: seq<Action>)
    | Switch(cond: nat, cases: seq<Case>, def: seq<Action>)
    | JumpSwitch(cond: nat, table: JumpTable)
    | Match(cond: nat, jumps: seq<Jump>, def: seq<Action>)   // a switch on strings
    | Evaluate(cond: nat)
    | Block(body: seq<Action>)
    | While(cond: nat, body: seq<Action>)

  datatype Case = Case(value: int, list: seq<Action>)

  /** A jump point: where a label leads. */
  datatype Jump = Jump(list: seq<Action>)

  /** struct switch_jmp_table: the labels from first to last by index, the others one by one. */
  datatype JumpTable = JumpTable(first: int, last: int, tbl: seq<Jump>, rest: seq<Case>, def: seq<Action>)

  /** What happened outside the interpreter, in order. */
  datatype Event = Ran(id: nat) | Called(id: nat) | Evaluated(id: nat)

  /** Status and value of an expression, and what it left in the context. */
  datatype ExprResult = ExprResult(status: int, value: int, flags: Flags, lastRet: int)

  datatype Lookup = Found(i: int) | NoString | NoRoute

  /** Route table, limits, and the outside world: the answers may depend on everything done so far. */
  datatype Env = Env(
    routes: seq<seq<Action>>,
    maxLevel: nat,
    maxLoops: int,
    strictReturn: bool,
    code: (seq<Event>, nat) -> int,
    expr: (seq<Event>, nat, Flags, int) -> ExprResult,
    lookup: (seq<Event>, nat) -> Lookup,
    isString: (seq<Event>, nat) -> bool,        // can the value of a string switch be converted?
    matches: (seq<Event>, nat, nat) -> bool)    // does it match the label with this number?

  /** struct run_act_ctx, with the events so far. */
  datatype Ctx = Ctx(recLev: int, flags: Flags, lastRet: int, trace: seq<Event>)

  const INIT := Ctx(0, NO_FLAGS, 0, [])

  function Eval(env: Env, id: nat, h: Ctx): (r: (Ctx, ExprResult))
    ensures r.0.recLev == h.recLev && r.0.trace == h.trace + [Evaluated(id)]
    ensures r.0.flags == r.1.flags && r.0.lastRet == r.1.lastRet
  {
    var e := env.expr(h.trace, id, h.flags, h.lastRet);
    (h.(flags := e.flags, lastRet := e.lastRet, trace := h.trace + [Evaluated(id)]), e)
  }

  predicate Truth(env: Env, v: int)
  {
    if env.strictReturn then v != 0 else v > 0
  }

  // ----- the cases of do_action that start no list -----

  function DoCore(env: Env, id: nat, h: Ctx): (r: (Ctx, int))
    ensures r.0.recLev == h.recLev
  {
    (h.(trace := h.trace + [Ran(id)]), env.code(h.trace, id))
  }

  /** MODF_HANDLE_RETCODE: a module function that returns 0 ends the script. */
  function DoCall(env: Env, id: nat, h: Ctx): (r: (Ctx, int))
    ensures r.0.recLev == h.recLev
  {
    var ret := env.code(h.trace, id);
    (h.(flags := if ret == 0 then h.flags.(exit := true) else h.flags, lastRet := ret,
        trace := h.trace + [Called(id)]), ret)
  }

  function DoDrop(env: Env, code: Code, raised: Flags, h: Ctx): (r: (Ctx, int))
    ensures r.0.recLev == h.recLev
  {
    if code.BadOperand? then (h, 0) else
      var (h1, ret) := match code
        case Number(n) => (h, n)
        case Expr(id) => var (h', e) := Eval(env, id, h); (h', e.value)
        case LastRetcode => (h, h.lastRet)
        case BadOperand => (h, 0);
      var f := h1.flags.Or(raised);
      (h1.(flags := if ret == 0 && f.ret then f.(exit := true) else f), ret)
  }

  /** Which list a route statement runs, or the error it ends with. */
  datatype RouteStart = Enter(list: seq<Action>) | Fail(ret: int)

  function StartRoute(env: Env, target: Target, h: Ctx): (r: (Ctx, RouteStart))
    ensures r.0.recLev == h.recLev
  {
    match target
    case Index(i) => (h, EnterRoute(env, i))
    case Name(id) =>
      var (h1, _) := Eval(env, id, h);
      (h1, match env.lookup(h.trace, id)
           case NoString => Fail(E_UNSPEC)
           case NoRoute => Fail(E_SCRIPT)
           case Found(i) => EnterRoute(env, i))
  }

  function EnterRoute(env: Env, i: int): (r: RouteStart)
  {
    if 0 <= i < |env.routes| then Enter(env.routes[i]) else Fail(E_CFG)
  }

  /** What an if or a switch does after its condition: a list to run, or nothing more. */
  datatype Branch = Take(list: seq<Action>) | Skip(ret: int)

  function IfBranch(env: Env, cond: nat, thn: seq<Action>, els: seq<Action>, h: Ctx): (r: (Ctx, Branch))
    ensures r.0.recLev == h.recLev
  {
    var (h1, e) := Eval(env, cond, h);
    var v := if e.status != 0 then 0 else e.value;
    if h1.flags.exit then (h1, Skip(0))
    else
      var list := if Truth(env, v) then thn else els;
      (h1.(flags := h1.flags.(ret := false, brk := false)), if list == [] then Skip(1) else Take(list))
  }

  function FindCase(cases: seq<Case>, v: int): (i: nat)
    ensures i <= |cases| && (i < |cases| ==> cases[i].value == v)
  {
    if cases == [] || cases[0].value == v then 0 else 1 + FindCase(cases[1..], v)
  }

  /** The list that a table of cases gives for a value. */
  function CaseList(cases: seq<Case>, def: seq<Action>, v: int): (list: seq<Action>)
  {
    var i := FindCase(cases, v);
    if i < |cases| then cases[i].list else def
  }

  function JumpList(t: JumpTable, v: int): (list: seq<Action>)
  {
    if t.first <= v <= t.last then (if v - t.first < |t.tbl| then t.tbl[v - t.first].list else [])
    else CaseList(t.rest, t.def, v)
  }

  /** The first of `n` labels from `i` on that the value of a string switch matches. */
  function FindLabel(env: Env, t: seq<Event>, id: nat, i: nat, n: nat): (r: nat)
    requires i <= n
    ensures i <= r <= n && (r < n ==> env.matches(t, id, r))
    decreases n - i
  {
    if i == n || env.matches(t, id, i) then i else FindLabel(env, t, id, i + 1, n)
  }

  function Caught(h: Ctx): (r: Ctx)
  {
    h.(flags := h.flags.(ret := false, brk := false))
  }

  function TakeOr(list: seq<Action>, ret: int): (b: Branch)
  {
    if list == [] then Skip(ret) else Take(list)
  }

  predicate IsSwitch(a: Action)
  {
    a.Switch? || a.JumpSwitch? || a.Match?
  }

  function DefaultOf(a: Action): (list: seq<Action>)
    requires IsSwitch(a)
  {
    if a.JumpSwitch? then a.table.def else a.def
  }

  /** What a switch does after its expression: an error takes the default, EXIT ends it, and otherwise
      RETURN and BREAK are caught and the value chooses the list. */
  function SwitchBranch(env: Env, a: Action, h: Ctx): (r: (Ctx, Branch))
    requires IsSwitch(a)
    ensures r.0.recLev == h.recLev
  {
    var (h1, e) := Eval(env, a.cond, h);
    if e.status < 0 then (h1, TakeOr(DefaultOf(a), -1))
    else if h1.flags.exit then (h1, Skip(0))
    else
      (Caught(h1), match a
                   case Switch(_, cases, def) => TakeOr(CaseList(cases, def, e.value), 1)
                   case JumpSwitch(_, t) => TakeOr(JumpList(t, e.value), 1)
                   case Match(id, jumps, def) =>
                     if !env.isString(h.trace, id) then TakeOr(def, -1)
                     else
                       var i := FindLabel(env, h.trace, id, 0, |jumps|);
                       TakeOr(if i < |jumps| then jumps[i].list else def, 1))
  }

  /** An expression as a statement: its RETURN is caught, its BREAK is not. */
  function DoEvaluate(env: Env, cond: nat, h: Ctx): (r: (Ctx, int))
    ensures r.0.recLev == h.recLev
  {
    var (h1, e) := Eval(env, cond, h);
    if h1.flags.exit then (h1, 0) else (h1.(flags := h1.flags.(ret := false)), 1)
  }

  function NoBreak(h: Ctx): (r: Ctx)
  {
    h.(flags := h.flags.(brk := false))
  }

  /** The end of a route statement: the code is remembered, return and break are absorbed. */
  function AfterRoute(h: Ctx, ret: int): (r: Ctx)
  {
    h.(lastRet := ret, flags := h.flags.(ret := false, brk := false))
  }

  /** Entering run_actions: one level deeper, a fresh context at the top. */
  function Entered(h: Ctx): (r: Ctx)
    ensures r.recLev == h.recLev + 1
  {
    if h.recLev == 0 then Ctx(1, NO_FLAGS, 0, h.trace) else h.(recLev := h.recLev + 1)
  }

  function Left(h: Ctx): (r: Ctx)
  {
    h.(recLev := h.recLev - 1)
  }

  /** The iteration count after one more turn of a while loop, or none if the loop has run away. */
  function CountTurn(env: Env, i: nat): (n: int)
    ensures n == -1 || (env.maxLoops >= 0 && n <= env.maxLoops && (env.maxLoops > 0 ==> n == i + 1))
  {
    var n := if env.maxLoops > 0 then i + 1 else i;
    if n > env.maxLoops then -1 else n
  }
}

/** run_actions without USE_LONGJMP: exit unwinds frame by frame. */
module ScriptUnwind {
  import opened Script

  function Run(env: Env, list: seq<Action>, h: Ctx): (r: (Ctx, int))
    requires env.maxLoops != 0 && 0 <= h.recLev <= env.maxLevel
    ensures r.0.recLev == h.recLev
    decreases env.maxLevel - h.recLev, 0, 0
  {
    if h.recLev == env.maxLevel then (h, E_UNSPEC)
    else
      var (h1, ret) := RunList(env, list, Entered(h), if list == [] then 1 else E_UNSPEC);
      (Left(h1), ret)
  }

  function RunList(env: Env, list: seq<Action>, h: Ctx, ret: int): (r: (Ctx, int))
    requires env.maxLoops != 0 && 0 <= h.recLev <= env.maxLevel
    ensures r.0.recLev == h.recLev
    decreases env.maxLevel - h.recLev, 2, |list|
  {
    if list == [] then (h, ret)
    else
      var (h1, r1) := Do(env, list[0], h);
      if h1.flags.exit then (h1.(lastRet := r1), r1)
      else if h1.flags.Stops() then (h1, r1)
      else RunList(env, list[1..], h1, r1)
  }

  function Do(env: Env, a: Action, h: Ctx): (r: (Ctx, int))
    requires env.maxLoops != 0 && 0 <= h.recLev <= env.maxLevel
    ensures r.0.recLev == h.recLev
    decreases env.maxLevel - h.recLev, 1, 1
  {
    match a
    case Core(id) => DoCore(env, id, h)
    case Call(id) => DoCall(env, id, h)
    case Drop(code, raised) => DoDrop(env, code, raised, h)
    case Route(target) =>
      var (h1, start) := StartRoute(env, target, h);
      (match start
       case Fail(ret) => (h1, ret)
       case Enter(list) => var (h2, ret) := Run(env, list, h1); (AfterRoute(h2, ret), ret))
    case If(cond, thn, els) =>
      var (h1, b) := IfBranch(env, cond, thn, els, h);
      (match b case Skip(ret) => (h1, ret) case Take(list) => Run(env, list, h1))
    case Evaluate(cond) => DoEvaluate(env, cond, h)
    case Block(body) =>
      if body == [] then (h, E_BUG)
      else var (h1, ret) := Run(env, body, h); (NoBreak(h1), ret)
    case While(cond, body) => Loop(env, cond, body, h, 0, NO_FLAGS, 1)
    case _ =>
      var (h1, b) := SwitchBranch(env, a, h);
      (match b
       case Skip(ret) => (h1, ret)
       case Take(list) => var (h2, ret) := Run(env, list, h1); (NoBreak(h2), ret))
  }

  /** The while loop after `i` turns; `seen` collects the run flags its body left behind. */
  function Loop(env: Env, cond: nat, body: seq<Action>, h: Ctx, i: nat, seen: Flags, ret: int): (r: (Ctx, int))
    requires env.maxLoops != 0 && 0 <= h.recLev <= env.maxLevel
    ensures r.0.recLev == h.recLev
    decreases env.maxLevel - h.recLev, 1, 0, if env.maxLoops > i then env.maxLoops - i else 0
  {
    if seen.Stops() then (h, ret)
    else
      var (h1, e) := Eval(env, cond, h);
      if e.status != 0 || !Truth(env, e.value) then (h1, ret)
      else
        var n := CountTurn(env, i);
        if n == -1 then (h1, -1)
        else if body == [] then Loop(env, cond, body, h1, n, seen, ret)
        else
          var (h2, r2) := Run(env, body, h1);
          Loop(env, cond, body, NoBreak(h2), n, seen.Or(h2.flags), r2)
  }
}

/** run_actions with USE_LONGJMP: exit jumps straight back to the outermost frame. */
module ScriptJump {
  import opened Script

  /** A call either returns or is abandoned by a longjmp. A jump records whether it left a route
      statement, and whether it left any statement that catches BREAK. */
  datatype Outcome = Done(h: Ctx, ret: int) | Jumped(h: Ctx, route: bool, scope: bool)

  function Run(env: Env, list: seq<Action>, h: Ctx): (r: Outcome)
    requires env.maxLoops != 0 && 0 <= h.recLev <= env.maxLevel
    ensures r.Done? ==> r.h.recLev == h.recLev
    ensures h.recLev == 0 ==> r.Done?
    decreases env.maxLevel - h.recLev, 0, 0
  {
    if h.recLev == env.maxLevel then Done(h, E_UNSPEC)
    else
      match RunList(env, list, Entered(h), if list == [] then 1 else E_UNSPEC)
      case Done(h1, ret) => Done(Left(h1), ret)
      case Jumped(h1, r, s) => if h.recLev == 0 then Done(h1.(recLev := 0), h1.lastRet) else Jumped(h1, r, s)
  }

  function RunList(env: Env, list: seq<Action>, h: Ctx, ret: int): (r: Outcome)
    requires env.maxLoops != 0 && 0 <= h.recLev <= env.maxLevel
    ensures r.Done? ==> r.h.recLev == h.recLev
    decreases env.maxLevel - h.recLev, 2, |list|
  {
    if list == [] then Done(h, ret)
    else
      match Do(env, list[0], h)
      case Jumped(h1, r, s) => Jumped(h1, r, s)
      case Done(h1, r1) =>
        if h1.flags.exit then Jumped(h1.(lastRet := r1), false, false)
        else if h1.flags.Stops() then Done(h1, r1)
        else RunList(env, list[1..], h1, r1)
  }

  function Return(r: (Ctx, int)): (o: Outcome)
  {
    Done(r.0, r.1)
  }

  function Do(env: Env, a: Action, h: Ctx): (r: Outcome)
    requires env.maxLoops != 0 && 0 <= h.recLev <= env.maxLevel
    ensures r.Done? ==> r.h.recLev == h.recLev
    decreases env.maxLevel - h.recLev, 1, 1
  {
    match a
    case Core(id) => Return(DoCore(env, id, h))
    case Call(id) => Return(DoCall(env, id, h))
    case Drop(code, raised) => Return(DoDrop(env, code, raised, h))
    case Route(target) =>
      var (h1, start) := StartRoute(env, target, h);
      (match start
       case Fail(ret) => Done(h1, ret)
       case Enter(list) =>
         match Run(env, list, h1)
         case Jumped(h2, _, _) => Jumped(h2, true, true)
         case Done(h2, ret) => Done(AfterRoute(h2, ret), ret))
    case If(cond, thn, els) =>
      var (h1, b) := IfBranch(env, cond, thn, els, h);
      (match b case Skip(ret) => Done(h1, ret) case Take(list) => Run(env, list, h1))
    case Evaluate(cond) => Return(DoEvaluate(env, cond, h))
    case Block(body) =>
      if body == [] then Done(h, E_BUG) else CatchBreak(Run(env, body, h))
    case While(cond, body) => Loop(env, cond, body, h, 0, NO_FLAGS, 1)
    case _ =>
      var (h1, b) := SwitchBranch(env, a, h);
      (match b
       case Skip(ret) => Done(h1, ret)
       case Take(list) => CatchBreak(Run(env, list, h1)))
  }

  function CatchBreak(o: Outcome): (r: Outcome)
  {
    match o case Jumped(h, r, _) => Jumped(h, r, true) case Done(h, ret) => Done(NoBreak(h), ret)
  }

  function Loop(env: Env, cond: nat, body: seq<Action>, h: Ctx, i: nat, seen: Flags, ret: int): (r: Outcome)
    requires env.maxLoops != 0 && 0 <= h.recLev <= env.maxLevel
    ensures r.Done? ==> r.h.recLev == h.recLev
    decreases env.maxLevel - h.recLev, 1, 0, if env.maxLoops > i then env.maxLoops - i else 0
  {
    if seen.Stops() then Done(h, ret)
    else
      var (h1, e) := Eval(env, cond, h);
      if e.status != 0 || !Truth(env, e.value) then Done(h1, ret)
      else
        var n := CountTurn(env, i);
        if n == -1 then Done(h1, -1)
        else if body == [] then Loop(env, cond, body, h1, n, seen, ret)
        else
          match Run(env, body, h1)
          case Jumped(h2, r, _) => Jumped(h2, r, true)
          case Done(h2, r2) => Loop(env, cond, body, NoBreak(h2), n, seen.Or(h2.flags), r2)
  }
}
