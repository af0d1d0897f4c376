/** Turning a switch into a table when the script is loaded (src/core/switch.c:145-411): a jump table for
    a dense run of labels, a table of cases otherwise. */
module SwitchFix {
  import opened Script
  import U = ScriptUnwind
  import J = ScriptJump

  const MAX_JT_SIZE := 100
  const MIN_HITS := 3        // a jump table needs more labels than that

  datatype Fixed = Duplicate | CondTable(cases: seq<Case>, def: seq<Action>) | Jumps(table: JumpTable)

  ghost predicate DistinctLabels(cases: seq<Case>)
  {
    forall i, j :: 0 <= i < j < |cases| ==> cases[i].value != cases[j].value
  }

  /** How many of the first `n` cases have a label from `lo` to `hi`. */
  function Inside(cases: seq<Case>, lo: int, hi: int, n: nat): (k: nat)
    requires n <= |cases|
    ensures k <= n
  {
    if n == 0 then 0 else Inside(cases, lo, hi, n - 1) + if lo <= cases[n - 1].value <= hi then 1 else 0
  }

  /** How many labels a jump table that starts at `first` could hold. */
  function Hits(cases: seq<Case>, first: int): (k: nat)
  {
    Inside(cases, first, first + MAX_JT_SIZE - 1, |cases|)
  }

  /** The highest of the first `n` labels that it reaches. */
  function Top(cases: seq<Case>, first: int, n: nat): (last: int)
    requires n <= |cases|
    ensures first <= last < first + MAX_JT_SIZE
  {
    if n == 0 then first
    else
      var last := Top(cases, first, n - 1);
      var v := cases[n - 1].value;
      if last < v < first + MAX_JT_SIZE then v else last
  }

  lemma {:induction false} TopCovers(cases: seq<Case>, first: int, n: nat, k: nat)
    requires k < n <= |cases|
    ensures cases[k].value <= Top(cases, first, n) || cases[k].value >= first + MAX_JT_SIZE
  {
    if k < n - 1 {
      TopCovers(cases, first, n - 1, k);
    }
  }

  /** Nothing lies between the highest label reached and the end of the window. */
  lemma {:induction false} InsideTop(cases: seq<Case>, first: int, n: nat)
    requires n <= |cases|
    ensures Inside(cases, first, Top(cases, first, |cases|), n) == Inside(cases, first, first + MAX_JT_SIZE - 1, n)
  {
    if n > 0 {
      InsideTop(cases, first, n - 1);
      TopCovers(cases, first, |cases|, n - 1);
    }
  }

  /** The labels outside, counted so far, are fewer than all of them when one more is met. */
  lemma {:induction false} RoomForRest(cases: seq<Case>, lo: int, hi: int, i: nat, n: nat)
    requires i < n <= |cases| && !(lo <= cases[i].value <= hi)
    ensures i - Inside(cases, lo, hi, i) < n - Inside(cases, lo, hi, n)
    decreases n
  {
    if i < n - 1 {
      RoomForRest(cases, lo, hi, i, n - 1);
    }
  }

  // ----- what a table gives for a value -----

  lemma {:induction false} FindSnoc(s: seq<Case>, c: Case, v: int)
    ensures FindCase(s + [c], v) == if FindCase(s, v) < |s| || c.value == v then FindCase(s, v) else |s| + 1
  {
    if s != [] && s[0].value != v {
      assert (s + [c])[1..] == s[1..] + [c];
      FindSnoc(s[1..], c, v);
    }
  }

  lemma CaseSnoc(s: seq<Case>, c: Case, def: seq<Action>, v: int)
    ensures CaseList(s + [c], def, v)
            == if FindCase(s, v) < |s| then CaseList(s, def, v) else if c.value == v then c.list else def
  {
    FindSnoc(s, c, v);
  }

  lemma {:induction false} FindsLabel(s: seq<Case>, v: int)
    ensures FindCase(s, v) < |s| <==> exists i :: 0 <= i < |s| && s[i].value == v
  {
    if s != [] && s[0].value != v {
      FindsLabel(s[1..], v);
      assert forall i :: 0 < i < |s| ==> s[i] == s[1..][i - 1];
    }
  }

  // ----- the method -----

  method HasDuplicate(cases: seq<Case>) returns (found: bool)
    ensures found <==> !DistinctLabels(cases)
  {
    var n := 0;
    while n < |cases|
      invariant 0 <= n <= |cases| && DistinctLabels(cases[..n])
    {
      var j := 0;
      while j < n
        invariant 0 <= j <= n && forall k :: 0 <= k < j ==> cases[k].value != cases[n].value
      {
        if cases[j].value == cases[n].value {
          return true;
        }
        j := j + 1;
      }
      n := n + 1;
    }
    assert cases[..n] == cases;
    found := false;
  }

  /** The inner loop: how far a table that starts at label `i` reaches, and how many labels it holds. */
  method Reach(cases: seq<Case>, i: nat) returns (last: int, hits: nat)
    requires i < |cases| && DistinctLabels(cases)
    ensures last == Top(cases, cases[i].value, |cases|) && hits == Hits(cases, cases[i].value)
  {
    var first := cases[i].value;
    last, hits := first, 1;
    var j := 0;
    while j < |cases|
      invariant 0 <= j <= |cases| && last == Top(cases, first, j)
      invariant hits == Inside(cases, first, first + MAX_JT_SIZE - 1, j) + if j <= i then 1 else 0
    {
      if i != j && cases[j].value > first {
        if cases[j].value < last {
          hits := hits + 1;
        } else if cases[j].value - first < MAX_JT_SIZE {
          last := cases[j].value;
          hits := hits + 1;
        }
      }
      j := j + 1;
    }
  }

  /** The best window found among the first `n` labels; none yet while start and end are equal. */
  ghost predicate BestOf(cases: seq<Case>, n: nat, start: int, end: int, best: nat)
    requires n <= |cases|
  {
    && (forall i :: 0 <= i < n ==> Hits(cases, cases[i].value) <= best)
    && (start == end ==> best == MIN_HITS)
    && (start != end ==> best > MIN_HITS && best == Hits(cases, start) && end == Top(cases, start, |cases|))
  }

  /** A window with more than one label has two ends. */
  lemma {:induction false} WideWindow(cases: seq<Case>, first: int, n: nat)
    requires n <= |cases| && DistinctLabels(cases) && Top(cases, first, n) == first
    ensures Inside(cases, first, first + MAX_JT_SIZE - 1, n) <= 1
    ensures (exists k :: 0 <= k < n && cases[k].value == first) || Inside(cases, first, first + MAX_JT_SIZE - 1, n) == 0
  {
    if n > 0 {
      WideWindow(cases, first, n - 1);
    }
  }

  method BestWindow(cases: seq<Case>) returns (start: int, end: int, best: nat)
    requires DistinctLabels(cases)
    ensures BestOf(cases, |cases|, start, end, best)
  {
    start, end, best := 0, 0, MIN_HITS;
    var i := 0;
    while i < |cases|
      invariant 0 <= i <= |cases| && BestOf(cases, i, start, end, best)
    {
      var last, hits := Reach(cases, i);
      if hits > best {
        if last == cases[i].value {
          WideWindow(cases, cases[i].value, |cases|);
        }
        best, start, end := hits, cases[i].value, last;
        if hits == |cases| {
          return;
        }
      }
      i := i + 1;
    }
  }

  /** The cases among the first `n` whose label is not from `lo` to `hi`. */
  function Others(cases: seq<Case>, lo: int, hi: int, n: nat): (r: seq<Case>)
    requires n <= |cases|
    ensures |r| == n - Inside(cases, lo, hi, n)
  {
    if n == 0 then []
    else
      var r := Others(cases, lo, hi, n - 1);
      if lo <= cases[n - 1].value <= hi then r else r + [cases[n - 1]]
  }

  /** The other cases give for a label outside what all of them give. */
  lemma {:induction false} OthersGive(cases: seq<Case>, lo: int, hi: int, n: nat, def: seq<Action>, v: int)
    requires n <= |cases| && !(lo <= v <= hi)
    ensures var r := Others(cases, lo, hi, n);
            && (FindCase(r, v) < |r| <==> FindCase(cases[..n], v) < n)
            && CaseList(r, def, v) == CaseList(cases[..n], def, v)
  {
    hide CaseList, FindCase;
    if n > 0 {
      OthersGive(cases, lo, hi, n - 1, def, v);
      var c, r := cases[n - 1], Others(cases, lo, hi, n - 1);
      assert cases[..n] == cases[..n - 1] + [c];
      FindSnoc(cases[..n - 1], c, v);
      CaseSnoc(cases[..n - 1], c, def, v);
      FindSnoc(r, c, v);
      CaseSnoc(r, c, def, v);
      if FindCase(r, v) == |r| {
        NotFound(r, def, v);
      }
    } else {
      assert cases[..0] == [];
    }
  }

  /** After the first `n` cases the slots of the table hold what these give. */
  ghost predicate Filled(slots: seq<seq<Action>>, cases: seq<Case>, start: int, n: nat, def: seq<Action>)
    requires n <= |cases|
  {
    forall k :: 0 <= k < |slots| ==> slots[k] == CaseList(cases[..n], def, start + k)
  }

  lemma CaseMore(cases: seq<Case>, n: nat, def: seq<Action>, v: int)
    requires n < |cases| && DistinctLabels(cases)
    ensures CaseList(cases[..n + 1], def, v)
            == if v == cases[n].value then cases[n].list else CaseList(cases[..n], def, v)
  {
    hide CaseList;
    assert cases[..n + 1] == cases[..n] + [cases[n]];
    FindsLabel(cases[..n], v);
    CaseSnoc(cases[..n], cases[n], def, v);
    if FindCase(cases[..n], v) == n {
      NotFound(cases[..n], def, v);
    }
  }

  lemma NotFound(s: seq<Case>, def: seq<Action>, v: int)
    requires FindCase(s, v) == |s|
    ensures CaseList(s, def, v) == def
  {
  }

  /** A case more: its slot takes its list, the others are as they were. */
  lemma FilledMore(slots: seq<seq<Action>>, cases: seq<Case>, start: int, n: nat, def: seq<Action>)
    requires n < |cases| && DistinctLabels(cases) && Filled(slots, cases, start, n, def)
    ensures var k := cases[n].value - start;
            Filled(if 0 <= k < |slots| then slots[k := cases[n].list] else slots, cases, start, n + 1, def)
  {
    hide CaseList;
    var m := cases[n].value - start;
    var more := if 0 <= m < |slots| then slots[m := cases[n].list] else slots;
    forall k | 0 <= k < |more| ensures more[k] == CaseList(cases[..n + 1], def, start + k) {
      CaseMore(cases, n, def, start + k);
      assert slots[k] == CaseList(cases[..n], def, start + k);
    }
  }

  /** The arrays of a jump table, filled. The second one is allocated for the labels that the best window
      does not hold, and every one of them finds its place in it. */
  method Fill(cases: seq<Case>, def: seq<Action>, start: int, end: int, best: nat)
    returns (slots: array<seq<Action>>, rest: array<Case>)
    requires DistinctLabels(cases) && start <= end && best == Inside(cases, start, end, |cases|)
    ensures slots.Length == end - start + 1 && Filled(slots[..], cases, start, |cases|, def)
    ensures rest[..] == Others(cases, start, end, |cases|)
  {
    hide Filled, CaseList, Others;
    slots := new seq<Action>[end - start + 1](_ => def);
    rest := new Case[|cases| - best](_ => Case(0, []));
    FilledEmpty(slots[..], cases, start, def);
    var i, j := 0, 0;
    while i < |cases|
      invariant 0 <= i <= |cases| && j == i - Inside(cases, start, end, i) <= rest.Length
      invariant Filled(slots[..], cases, start, i, def) && rest[..j] == Others(cases, start, end, i)
    {
      FilledMore(slots[..], cases, start, i, def);
      OthersMore(cases, start, end, i);
      if start <= cases[i].value <= end {
        slots[cases[i].value - start] := cases[i].list;
      } else {
        RoomForRest(cases, start, end, i, |cases|);
        rest[j] := cases[i];
        assert rest[..j + 1] == rest[..j] + [cases[i]];
        j := j + 1;
      }
      i := i + 1;
    }
    assert rest[..j] == rest[..];
  }

  lemma FilledEmpty(slots: seq<seq<Action>>, cases: seq<Case>, start: int, def: seq<Action>)
    requires forall k :: 0 <= k < |slots| ==> slots[k] == def
    ensures Filled(slots, cases, start, 0, def) && forall lo, hi :: Others(cases, lo, hi, 0) == []
  {
    assert cases[..0] == [];
  }

  lemma OthersMore(cases: seq<Case>, lo: int, hi: int, n: nat)
    requires n < |cases|
    ensures Others(cases, lo, hi, n + 1)
            == if lo <= cases[n].value <= hi then Others(cases, lo, hi, n) else Others(cases, lo, hi, n) + [cases[n]]
  {
  }

  function ToJumps(slots: seq<seq<Action>>): (r: seq<Jump>)
    ensures |r| == |slots| && forall k :: 0 <= k < |r| ==> r[k] == Jump(slots[k])
  {
    if slots == [] then [] else ToJumps(slots[..|slots| - 1]) + [Jump(slots[|slots| - 1])]
  }

  /** Same list for every value. */
  ghost predicate SameChoice(t: JumpTable, cases: seq<Case>, def: seq<Action>)
  {
    t.def == def && forall v :: JumpList(t, v) == CaseList(cases, def, v)
  }

  lemma TableChooses(slots: seq<seq<Action>>, cases: seq<Case>, def: seq<Action>, start: int, end: int)
    requires |slots| == end - start + 1 && Filled(slots, cases, start, |cases|, def)
    ensures SameChoice(JumpTable(start, end, ToJumps(slots), Others(cases, start, end, |cases|), def), cases, def)
  {
    var t := JumpTable(start, end, ToJumps(slots), Others(cases, start, end, |cases|), def);
    assert cases[..|cases|] == cases;
    forall v ensures JumpList(t, v) == CaseList(cases, def, v) {
      if start <= v <= end {
        assert slots[v - start] == CaseList(cases[..|cases|], def, start + (v - start));
      } else {
        OthersGive(cases, start, end, |cases|, def, v);
      }
    }
  }

  /** fix_switch: duplicate labels are refused; a jump table is made if and only if some window of 100
      labels holds more than 3, then for a window that holds as many as any; and it chooses the same list as
      the cases do for every value. */
  method FixSwitch(cases: seq<Case>, def: seq<Action>) returns (r: Fixed)
    ensures r.Duplicate? <==> !DistinctLabels(cases)
    ensures r.CondTable? ==> && r == CondTable(cases, def)
                             && forall i :: 0 <= i < |cases| ==> Hits(cases, cases[i].value) <= MIN_HITS
    ensures r.Jumps? ==> && SameChoice(r.table, cases, def)
                         && r.table.first < r.table.last < r.table.first + MAX_JT_SIZE
                         && |r.table.tbl| == r.table.last - r.table.first + 1
                         && Hits(cases, r.table.first) == |cases| - |r.table.rest| > MIN_HITS
                         && forall i :: 0 <= i < |cases| ==> Hits(cases, cases[i].value) <= Hits(cases, r.table.first)
  {
    hide Filled, SameChoice, Others, Inside, Top, CaseList;
    var bad := HasDuplicate(cases);
    if bad {
      return Duplicate;
    }
    var start, end, best := BestWindow(cases);
    if start == end {
      return CondTable(cases, def);
    }
    InsideTop(cases, start, |cases|);
    var slots, rest := Fill(cases, def, start, end, best);
    TableChooses(slots[..], cases, def, start, end);
    r := Jumps(JumpTable(start, end, ToJumps(slots[..]), rest[..], def));
  }

  /** The table means what the switch means: both builds of the interpreter do the same with either, in
      every world and from every state. */
  lemma FixedMeansSame(env: Env, cond: nat, t: JumpTable, cases: seq<Case>, def: seq<Action>, h: Ctx)
    requires env.maxLoops != 0 && 0 <= h.recLev <= env.maxLevel && SameChoice(t, cases, def)
    ensures U.Do(env, JumpSwitch(cond, t), h) == U.Do(env, Switch(cond, cases, def), h)
    ensures J.Do(env, JumpSwitch(cond, t), h) == J.Do(env, Switch(cond, cases, def), h)
  {
    hide JumpList, CaseList;
    assert SwitchBranch(env, JumpSwitch(cond, t), h) == SwitchBranch(env, Switch(cond, cases, def), h);
  }
}
