/** Whose references the cache counts (src/core/dns_cache.c:177-192, 744-756; src/core/dns_cache.h:215-257): over
    any run the references to an entry are those taken less those given back. */
module DnsLedger {
  import opened Seqs
  import opened Ticks
  import opened DnsModel
  import opened DnsLookup
  import opened DnsNames
  import opened DnsEvict
  import opened DnsRuns

  /** References to `e` outside the cache. */
  function Held(w: World, e: Entry): (n: nat)
  {
    if e in w.acc then w.acc[e].held else 0
  }

  /** What a step takes or gives back: a lookup takes one on the entry it returns, a copied handle one for each
      it holds; what is put is given back, and so is the old entry of a replacement, whether it succeeds or not. */
  ghost function Moves(w: World, s: Step, e: Entry): (n: int)
    requires Inv(w)
  {
    match s
    case Get(name, rtype, now) => if Find(w, name, rtype, now).ret == Some(e) then 1 else 0
    case Release(x) => if x == e then -1 else 0
    case Share(es) => multiset(es)[e]
    case ReleaseAll(es) => -multiset(es)[e]
    case AddNew(x, held, maxMem, delNonexp, now) =>
      if x == e && Add(w, x, held, maxMem, delNonexp, now).ok then held else 0
    case Replace(was, _, _, _, _) => if was == e then -1 else 0
    case _ => 0
  }

  lemma SameHeldBy(w: World, v: World, e: Entry)
    requires SameHeld(w, v)
    ensures Held(v, e) == Held(w, e)
  {
  }

  lemma SplitFirst(es: seq<Entry>, e: Entry)
    requires es != []
    ensures multiset(es)[e] == multiset(es[1..])[e] + if es[0] == e then 1 else 0
  {
    assert es == [es[0]] + es[1..];
  }

  lemma {:induction false} IncAllMoves(w: World, es: seq<Entry>, e: Entry)
    requires Shareable(w, es)
    ensures Held(IncAll(w, es), e) == Held(w, e) + multiset(es)[e]
    decreases |es|
  {
    if es != [] {
      IncAllMoves(Inc(w, es[0]), es[1..], e);
      SplitFirst(es, e);
    }
  }

  lemma {:induction false} PutAllMoves(w: World, es: seq<Entry>, e: Entry)
    requires Holds(w, es)
    ensures Held(PutAll(w, es), e) == Held(w, e) - multiset(es)[e]
    decreases |es|
  {
    if es != [] {
      PutAllMoves(Put(w, es[0]), es[1..], e);
      SplitFirst(es, e);
    }
  }

  lemma AddMoves(w: World, x: Entry, held: nat, maxMem: int, delNonexp: bool, now: ticks, e: Entry)
    requires Inv(w) && x !in w.acc
    ensures var r := Add(w, x, held, maxMem, delNonexp, now);
            Held(r.w, e) == Held(w, e) + if x == e && r.ok then held else 0
  {
    hide Inv, FreeMem, Evictable, Bucket;
    FreeMemResult(w, w.mem / 16 * 14, !delNonexp, now);
    var v := FreeMem(w, w.mem / 16 * 14, !delNonexp, now).w;
    SameHeldBy(w, v, e);
    InvRange(w);
    InvRange(v);
  }

  lemma ReplaceMoves(w: World, was: Entry, x: Entry, maxMem: int, delNonexp: bool, now: ticks, e: Entry)
    requires Inv(w) && CanReplace(w, was, x)
    ensures var r := ReplaceEntry(w, was, x, maxMem, delNonexp, now);
            r.Goes? ==> Held(r.w, e) == Held(w, e) - if was == e then 1 else 0
  {
    hide Inv, Add, Unlink;
    AddMoves(w, x, 0, maxMem, delNonexp, now, e);
    AddMoves(w, x, 0, maxMem, delNonexp, now, was);
    AddHolds(w, x, 0, maxMem, delNonexp, now, was);
  }

  lemma FlushMoves(w: World, delPermanent: bool, e: Entry)
    requires Inv(w)
    ensures Held(Flush(w, delPermanent), e) == Held(w, e)
  {
    hide Inv, Flush;
    FlushResult(w, delPermanent);
    SameHeldBy(w, Flush(w, delPermanent), e);
  }

  lemma LookupMoves(w: World, name: string, rtype: int, now: ticks, e: Entry)
    requires Inv(w)
    ensures var r := GetEntry(w, name, rtype, now);
            Held(r.w, e) == Held(w, e) + if Find(w, name, rtype, now).ret == Some(e) then 1 else 0
    ensures Held(DeleteRecord(w, name, rtype, now), e) == Held(w, e)
  {
    hide Inv, Find, Expired, Unlink;
    var f := Find(w, name, rtype, now);
    FindResult(w, name, rtype, now);
    SameHeldBy(w, f.w, e);
    if f.ret.Some? {
      LinkedIsCounted(f.w, f.ret.value);
    }
  }

  lemma StepMoves(w: World, s: Step, e: Entry)
    requires Inv(w) && Allowed(w, s)
    ensures var r := Apply(w, s); r.Goes? ==> Held(r.w, e) == Held(w, e) + Moves(w, s, e)
  {
    hide Inv, Find, Add, Flush, CleanFrom, FreeMemFrom, ReplaceEntry, GetEntry, DeleteRecord, Held, IncAll, PutAll;
    match s
    case Get(name, rtype, now) => LookupMoves(w, name, rtype, now, e);
    case Release(x) => PutMoves(w, x, e);
    case Share(es) => IncAllMoves(w, es, e);
    case ReleaseAll(es) => PutAllMoves(w, es, e);
    case AddNew(x, held, maxMem, delNonexp, now) => AddMoves(w, x, held, maxMem, delNonexp, now, e);
    case Replace(was, x, maxMem, delNonexp, now) => ReplaceMoves(w, was, x, maxMem, delNonexp, now, e);
    case Delete(name, rtype, now) => LookupMoves(w, name, rtype, now, e);
    case CleanUp(no, expiredOnly, now) =>
      ScanAll(w);
      CleanThins(w, w.lu, 0, no, expiredOnly, now);
      ThinnedMoves(w, Clean(w, no, expiredOnly, now).w, expiredOnly, now, e);
    case Shrink(target, expiredOnly, now) =>
      FreeMemResult(w, target, expiredOnly, now);
      ThinnedMoves(w, FreeMem(w, target, expiredOnly, now).w, expiredOnly, now, e);
    case FlushAll(delPermanent) => FlushMoves(w, delPermanent, e);
  }

  lemma ThinnedMoves(w: World, v: World, expiredOnly: bool, now: ticks, e: Entry)
    requires Thinned(w, v, expiredOnly, now)
    ensures Held(v, e) == Held(w, e)
  {
    SameHeldBy(w, v, e);
  }

  lemma PutMoves(w: World, x: Entry, e: Entry)
    requires x in w.acc && w.acc[x].held > 0
    ensures Held(Put(w, x), e) == Held(w, e) - if x == e then 1 else 0
  {
  }

  /** What a run takes less what it gives back. */
  ghost function Balance(w: World, steps: seq<Step>, e: Entry): (n: int)
    requires Inv(w) && AllowedRun(w, steps)
    decreases |steps|
  {
    if steps == [] then 0
    else
      StepKeeps(w, steps[0]);
      Moves(w, steps[0], e)
      + if Apply(w, steps[0]).Goes? then Balance(Apply(w, steps[0]).w, steps[1..], e) else 0
  }

  /** Over any run the references to an entry change by what was taken less what was given back. */
  lemma {:induction false} RunMoves(w: World, steps: seq<Step>, e: Entry)
    requires Inv(w) && AllowedRun(w, steps)
    ensures var r := RunTo(w, steps); r.Goes? ==> Held(r.w, e) == Held(w, e) + Balance(w, steps, e)
    decreases |steps|
  {
    hide Inv, Apply, Allowed, Moves;
    if steps != [] {
      StepKeeps(w, steps[0]);
      StepMoves(w, steps[0], e);
      if Apply(w, steps[0]).Goes? {
        RunMoves(Apply(w, steps[0]).w, steps[1..], e);
      }
    }
  }

  /** From start-up on: an entry that was added is destroyed exactly when it is out of the lists and everything
      taken on it has been given back. */
  lemma DestroyedExactly(hash: string -> nat, size: nat, steps: seq<Step>, e: Entry)
    requires forall s :: hash(s) < size
    requires Inv(Empty(hash, size)) && AllowedRun(Empty(hash, size), steps)
    ensures var r := RunTo(Empty(hash, size), steps);
            r.Goes? && e in r.w.acc ==>
              var n := Balance(Empty(hash, size), steps, e);
              && n >= 0
              && r.w.acc[e].rc == n + (if e in r.w.lu then 1 else 0)
              && r.w.acc[e].destroyed == if e !in r.w.lu && n == 0 then 1 else 0
  {
    hide Inv, RunTo, Balance;
    RunMoves(Empty(hash, size), steps, e);
    RefcountsFromStart(hash, size, steps, e);
  }

  // ----- deleting a record -----

  /** Of the entries in force a deletion takes out the one a lookup returns, if it is of the type given and not
      permanent, and no other. */
  lemma DeleteExactly(w: World, name: string, rtype: int, now: ticks, e: Entry)
    requires Inv(w) && e in w.lu && InForce(e, now)
    ensures e !in DeleteRecord(w, name, rtype, now).lu
            <==> Find(w, name, rtype, now).ret == Some(e) && e.rtype == rtype && !e.permanent
  {
    hide Inv, Find, Expired, InForce;
    var f := Find(w, name, rtype, now);
    FindResult(w, name, rtype, now);
    ExpiredExactly(e, now);
    if f.ret.Some? {
      RemoveInv(f.w, f.ret.value);
      LinkedIsCounted(f.w, f.ret.value);
    }
  }

  /** A replacement that succeeds puts the new entry in and takes the old one out, one that fails does neither;
      no other entry is touched but by winning memory. */
  lemma ReplacedExactly(w: World, was: Entry, e: Entry, maxMem: int, delNonexp: bool, now: ticks, x: Entry)
    requires Inv(w) && CanReplace(w, was, e)
    ensures var a, r := Add(w, e, 0, maxMem, delNonexp, now), ReplaceEntry(w, was, e, maxMem, delNonexp, now);
            r.Goes? ==> (x in r.w.lu <==> x in a.w.lu && !(a.ok && x == was)) && (a.ok ==> e in r.w.lu)
  {
    hide Inv, Add;
    AddHolds(w, e, 0, maxMem, delNonexp, now, was);
    AddResult(w, e, 0, maxMem, delNonexp, now);
    var a := Add(w, e, 0, maxMem, delNonexp, now);
    if a.ok && was in a.w.lu {
      RemoveInv(a.w, was);
    }
  }
}
