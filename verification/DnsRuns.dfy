/** Every interleaving of the locked operations and of the users' reference counting. */
module DnsRuns {
  import opened Seqs
  import opened Ticks
  import opened DnsModel
  import opened DnsLookup
  import opened DnsEvict

  // ----- flush -----

  /** Removes the entries of one chain, permanent ones only if asked to. */
  function FlushChain(w: World, rest: seq<Entry>, delPermanent: bool): (r: World)
    requires CanScan(w, rest)
    decreases |rest|
  {
    if rest == [] then w
    else
      FlushOn(w, rest, delPermanent);
      FlushChain(FlushEntry(w, rest[0], delPermanent), rest[1..], delPermanent)
  }

  function FlushEntry(w: World, e: Entry, delPermanent: bool): (r: World)
    requires HashInRange(w) && e in w.acc
  {
    if delPermanent || !e.permanent then Remove(w, e) else w
  }

  lemma FlushOn(w: World, rest: seq<Entry>, delPermanent: bool)
    requires CanScan(w, rest) && rest != []
    ensures rest[0] in w.acc && HashInRange(w)
    ensures CanScan(FlushEntry(w, rest[0], delPermanent), rest[1..])
  {
    ScanOn(w, rest, 0);
    assert rest[0] in w.lu;
    TailDistinct(rest);
    RemoveInv(w, rest[0]);
  }

  /** dns_cache_flush from chain `h` on. */
  function FlushFrom(w: World, h: nat, delPermanent: bool): (r: World)
    requires Inv(w) && h <= |w.chains|
    decreases |w.chains| - h
  {
    if h == |w.chains| then w
    else
      ScanChain(w, h);
      FlushChainLeaves(w, w.chains[h], delPermanent);
      FlushFrom(FlushChain(w, w.chains[h], delPermanent), h + 1, delPermanent)
  }

  /** `v` is `w` without the entries of `s` that a flush removes. */
  ghost predicate Flushed(w: World, v: World, s: seq<Entry>, delPermanent: bool)
  {
    && Inv(v) && v.hash == w.hash && |v.chains| == |w.chains| && Within(v.lu, w.lu) && SameHeld(w, v)
    && (forall e :: e in w.lu && (e !in s || !(delPermanent || !e.permanent)) ==> e in v.lu)
    && (forall e :: e in v.lu && e in s ==> !(delPermanent || !e.permanent))
  }

  lemma {:induction false} FlushChainLeaves(w: World, rest: seq<Entry>, delPermanent: bool)
    requires CanScan(w, rest)
    ensures Flushed(w, FlushChain(w, rest, delPermanent), rest, delPermanent)
    decreases |rest|
  {
    hide ListsAgree, CountsAgree;
    if rest != [] {
      FlushOn(w, rest, delPermanent);
      var e := rest[0];
      assert e in w.lu;
      RemoveInv(w, e);
      var v := FlushEntry(w, e, delPermanent);
      FlushChainLeaves(v, rest[1..], delPermanent);
      FlushStep(w, v, FlushChain(v, rest[1..], delPermanent), rest, delPermanent);
    }
  }

  lemma FlushStep(w: World, v: World, u: World, rest: seq<Entry>, delPermanent: bool)
    requires rest != [] && rest[0] in w.acc && HashInRange(w) && Inv(w) && rest[0] in w.lu
    requires v == FlushEntry(w, rest[0], delPermanent) && Flushed(v, u, rest[1..], delPermanent)
    ensures Flushed(w, u, rest, delPermanent)
  {
    hide ListsAgree, CountsAgree;
    var e := rest[0];
    RemoveInv(w, e);
    assert forall x :: x in rest ==> x == e || x in rest[1..];
    assert forall x :: x in rest[1..] ==> x in rest;
  }

  function Flush(w: World, delPermanent: bool): (r: World)
    requires Inv(w)
  {
    FlushFrom(w, 0, delPermanent)
  }

  ghost predicate OnlyPermanent(lu: seq<Entry>, was: seq<Entry>)
  {
    && (forall e :: e in lu ==> e in was && e.permanent)
    && (forall e :: e in was && e.permanent ==> e in lu)
  }

  /** All entries of the chains before `h` have been dealt with. */
  ghost predicate FlushedBelow(w: World, v: World, h: nat, delPermanent: bool)
  {
    && Inv(v) && v.hash == w.hash && |v.chains| == |w.chains| && Within(v.lu, w.lu) && SameHeld(w, v)
    && (forall e :: e in w.lu && !delPermanent && e.permanent ==> e in v.lu)
    && (forall e :: e in v.lu && Bucket(w, e.name) < h ==> !delPermanent && e.permanent)
  }

  lemma {:induction false} FlushFromLeaves(w: World, v: World, h: nat, delPermanent: bool)
    requires FlushedBelow(w, v, h, delPermanent) && h <= |v.chains|
    ensures FlushedBelow(w, FlushFrom(v, h, delPermanent), |w.chains|, delPermanent)
    decreases |v.chains| - h
  {
    hide Inv, Lower, SameHeld, FlushChain;
    if h < |v.chains| {
      ScanChain(v, h);
      FlushChainLeaves(v, v.chains[h], delPermanent);
      var u := FlushChain(v, v.chains[h], delPermanent);
      FlushedOneMore(w, v, u, h, delPermanent);
      FlushFromLeaves(w, u, h + 1, delPermanent);
    }
  }

  lemma FlushedOneMore(w: World, v: World, u: World, h: nat, delPermanent: bool)
    requires FlushedBelow(w, v, h, delPermanent) && h < |v.chains| && Flushed(v, u, v.chains[h], delPermanent)
    ensures FlushedBelow(w, u, h + 1, delPermanent)
  {
    hide CountsAgree, Lower;
    forall e | e in u.lu && Bucket(w, e.name) < h + 1 ensures !delPermanent && e.permanent {
      assert e in v.lu;
      if Bucket(w, e.name) == h {
        assert e in v.chains[h];
      }
    }
  }

  /** Flushing leaves the permanent entries, or none at all. */
  lemma FlushResult(w: World, delPermanent: bool)
    requires Inv(w)
    ensures var r := Flush(w, delPermanent);
            Inv(r) && SameHeld(w, r) && if delPermanent then r.lu == [] && r.mem == 0 else OnlyPermanent(r.lu, w.lu)
  {
    hide Lower, CountsAgree, FlushFrom;
    FlushFromLeaves(w, w, 0, delPermanent);
    var r := Flush(w, delPermanent);
    forall e | e in r.lu ensures !delPermanent && e.permanent {
      InHash(w, e.name);
    }
    assert r.lu != [] ==> r.lu[0] in r.lu;
  }

  // ----- steps -----

  datatype Step =
    | Get(name: string, rtype: int, now: ticks)
    | Release(e: Entry)                                       // dns_hash_put
    | Share(es: seq<Entry>)                                   // dns_srv_handle_ref, dns_srv_handle_cpy
    | ReleaseAll(es: seq<Entry>)                              // dns_srv_handle_put, dns_srv_handle_reset
    | AddNew(e: Entry, held: nat, maxMem: int, delNonexp: bool, now: ticks)
    | Replace(was: Entry, e: Entry, maxMem: int, delNonexp: bool, now: ticks)  // end of dns_cache_add_record
    | Delete(name: string, rtype: int, now: ticks)            // dns_cache_delete_record
    | CleanUp(no: count, expiredOnly: bool, now: ticks)
    | Shrink(target: int, expiredOnly: bool, now: ticks)
    | FlushAll(delPermanent: bool)

  /** A user holds a reference to each entry of the list (twice for one that occurs twice). */
  predicate Holds(w: World, es: seq<Entry>)
    decreases |es|
  {
    es == [] || (es[0] in w.acc && w.acc[es[0]].held > 0 && Holds(Put(w, es[0]), es[1..]))
  }

  function PutAll(w: World, es: seq<Entry>): (r: World)
    requires Holds(w, es)
    decreases |es|
  {
    if es == [] then w else PutAll(Put(w, es[0]), es[1..])
  }

  predicate Shareable(w: World, es: seq<Entry>)
    decreases |es|
  {
    es == [] || (es[0] in w.acc && w.acc[es[0]].held > 0 && Shareable(Inc(w, es[0]), es[1..]))
  }

  function IncAll(w: World, es: seq<Entry>): (r: World)
    requires Shareable(w, es)
    decreases |es|
  {
    if es == [] then w else IncAll(Inc(w, es[0]), es[1..])
  }

  /** A linked entry that its user got from the cache and that is not far past its expiry. */
  predicate InUse(w: World, was: Entry, now: ticks)
  {
    was in w.lu && was in w.acc && w.acc[was].held > 0 && (was.permanent || !PastDelay(was, now))
  }

  /** A step that ends, or one that follows the null links of an entry already unlinked. */
  datatype Outcome = Goes(w: World) | NullLink

  /** The old entry is held by its user, but another step may have unlinked it meanwhile. */
  predicate CanReplace(w: World, was: Entry, e: Entry)
  {
    e !in w.acc && was in w.acc && w.acc[was].held > 0
  }

  /** The new entry is linked, the old one unlinked and given back; a failed add only gives back. */
  function ReplaceEntry(w: World, was: Entry, e: Entry, maxMem: int, delNonexp: bool, now: ticks): (r: Outcome)
    requires Inv(w) && CanReplace(w, was, e)
  {
    var a := Add(w, e, 0, maxMem, delNonexp, now);
    AddHolds(w, e, 0, maxMem, delNonexp, now, was);
    if !a.ok then Goes(Put(a.w, was))
    else if was in a.w.lu then Goes(Put(Remove(a.w, was), was))
    else NullLink
  }

  /** An add takes no reference away. */
  lemma AddHolds(w: World, e: Entry, held: nat, maxMem: int, delNonexp: bool, now: ticks, was: Entry)
    requires Inv(w) && e !in w.acc && was in w.acc
    ensures var v := Add(w, e, held, maxMem, delNonexp, now).w;
            Inv(v) && HashInRange(v) && was in v.acc && v.acc[was].held == w.acc[was].held
  {
    hide Inv, FreeMemFrom, Evictable;
    var target := w.mem / 16 * 14;
    FreeMemResult(w, target, !delNonexp, now);
    ThinnedSelf(w, !delNonexp, now);
    AddResult(w, e, held, maxMem, delNonexp, now);
    InvRange(Add(w, e, held, maxMem, delNonexp, now).w);
  }

  lemma InvRange(w: World)
    requires Inv(w)
    ensures HashInRange(w)
  {
  }

  /** The old entry is unlinked a second time: the add succeeded and it was out of the lists. */
  ghost predicate UnlinksTwice(w: World, was: Entry, e: Entry, maxMem: int, delNonexp: bool, now: ticks)
    requires Inv(w)
  {
    var a := Add(w, e, 0, maxMem, delNonexp, now);
    a.ok && was !in a.w.lu
  }

  /** Taking the old entry out after a successful add keeps the books if and only if it is still
      linked then: unlinked a second time it is counted down a second time, links or no links. An
      entry in use always is. */
  lemma ReplaceExactly(w: World, was: Entry, e: Entry, maxMem: int, delNonexp: bool, now: ticks)
    requires Inv(w) && CanReplace(w, was, e)
    ensures var a := Add(w, e, 0, maxMem, delNonexp, now);
            && HashInRange(a.w) && was in a.w.acc && a.w.acc[was].held > 0
            && (a.ok ==> (Inv(Put(Remove(a.w, was), was)) <==> was in a.w.lu))
    ensures ReplaceEntry(w, was, e, maxMem, delNonexp, now).Goes? <==> !UnlinksTwice(w, was, e, maxMem, delNonexp, now)
    ensures InUse(w, was, now) ==> ReplaceEntry(w, was, e, maxMem, delNonexp, now).Goes?
  {
    hide Inv, Add, PastDelay, Remove;
    AddHolds(w, e, 0, maxMem, delNonexp, now, was);
    var a := Add(w, e, 0, maxMem, delNonexp, now);
    RemoveTwice(a.w, was);
    if InUse(w, was, now) {
      AddSpares(w, e, 0, maxMem, delNonexp, now, was);
    }
  }

  lemma RemoveTwice(w: World, e: Entry)
    requires Inv(w) && HashInRange(w) && e in w.acc && w.acc[e].held > 0
    ensures Remove(w, e).acc[e].held > 0 && (Inv(Put(Remove(w, e), e)) <==> e in w.lu)
  {
    hide ListsAgree, TotalSize, Lower;
    if e in w.lu {
      RemoveInv(w, e);
      PutInv(Remove(w, e), e);
    } else {
      MinusAbsent(w.lu, e);
      var r := Put(Remove(w, e), e);
      assert Balanced(w.acc[e], false);
      assert !Balanced(r.acc[e], e in r.lu);
    }
  }

  /** Winning memory for the new entry never evicts the old one, so it is unlinked only once. */
  lemma AddSpares(w: World, e: Entry, held: nat, maxMem: int, delNonexp: bool, now: ticks, was: Entry)
    requires Inv(w) && e !in w.acc && InUse(w, was, now)
    ensures var v := Add(w, e, held, maxMem, delNonexp, now).w;
            Inv(v) && HashInRange(v) && was in v.lu && was in v.acc && v.acc[was] == w.acc[was]
  {
    hide ListsAgree, Reached, FreeMemFrom, PastDelay;
    var target := w.mem / 16 * 14;
    FreeMemResult(w, target, !delNonexp, now);
    ThinnedSelf(w, !delNonexp, now);
    var v := if w.mem + e.size >= maxMem then FreeMem(w, target, !delNonexp, now).w else w;
    assert Balanced(w.acc[was], true);
    assert !Evictable(w, was, !delNonexp, now);
    assert was in v.lu;
    AddResult(w, e, held, maxMem, delNonexp, now);
    LinkedIsCounted(v, was);
    LinkedIsCounted(Add(w, e, held, maxMem, delNonexp, now).w, was);
  }

  /** What the users are bound to: give back only what they hold, copy only what they hold, and add
      an entry once. */
  predicate Allowed(w: World, s: Step)
  {
    match s
    case Release(e) => e in w.acc && w.acc[e].held > 0
    case Share(es) => Shareable(w, es)
    case ReleaseAll(es) => Holds(w, es)
    case AddNew(e, _, _, _, _) => e !in w.acc
    case Replace(was, e, _, _, _) => CanReplace(w, was, e)
    case _ => true
  }

  function GetEntry(w: World, name: string, rtype: int, now: ticks): (r: Found)
    requires Inv(w)
  {
    var f := Find(w, name, rtype, now);
    FindResult(w, name, rtype, now);
    if f.ret.Some? then f.(w := Inc(f.w, f.ret.value)) else f
  }

  /** Only an unreferenced-by-others decision: the found entry of the asked type goes unless permanent. */
  function DeleteRecord(w: World, name: string, rtype: int, now: ticks): (r: World)
    requires Inv(w)
  {
    var f := Find(w, name, rtype, now);
    FindResult(w, name, rtype, now);
    if f.ret.Some? && f.ret.value.rtype == rtype && !f.ret.value.permanent then Remove(f.w, f.ret.value) else f.w
  }

  function Apply(w: World, s: Step): (r: Outcome)
    requires Inv(w) && Allowed(w, s)
  {
    match s
    case Get(name, rtype, now) => Goes(GetEntry(w, name, rtype, now).w)
    case Release(e) => Goes(Put(w, e))
    case Share(es) => Goes(IncAll(w, es))
    case ReleaseAll(es) => Goes(PutAll(w, es))
    case AddNew(e, held, maxMem, delNonexp, now) => Goes(Add(w, e, held, maxMem, delNonexp, now).w)
    case Replace(was, e, maxMem, delNonexp, now) => ReplaceEntry(w, was, e, maxMem, delNonexp, now)
    case Delete(name, rtype, now) => Goes(DeleteRecord(w, name, rtype, now))
    case CleanUp(no, expiredOnly, now) => Goes(Clean(w, no, expiredOnly, now).w)
    case Shrink(target, expiredOnly, now) => Goes(FreeMem(w, target, expiredOnly, now).w)
    case FlushAll(delPermanent) => Goes(Flush(w, delPermanent))
  }

  /** A destroyed entry is out of everybody's hands for good. */
  ghost predicate GoneStaysGone(w: World, v: World)
  {
    forall e :: e in w.acc && w.acc[e].rc == 0 ==> e in v.acc && v.acc[e] == w.acc[e]
  }

  /** What every step keeps. */
  ghost predicate Keeps(w: World, v: World)
  {
    Inv(v) && w.acc.Keys <= v.acc.Keys && GoneStaysGone(w, v)
  }

  lemma KeepsTransitive(w: World, v: World, u: World)
    requires Keeps(w, v) && Keeps(v, u)
    ensures Keeps(w, u)
  {
    hide Inv;
  }

  /** Removing linked entries touches no account that is already closed. */
  lemma HeldKeeps(w: World, v: World)
    requires Inv(w) && Inv(v) && SameHeld(w, v) && Within(v.lu, w.lu)
    ensures Keeps(w, v)
  {
    hide ListsAgree;
    forall e | e in w.acc && w.acc[e].rc == 0 ensures e in v.acc && v.acc[e] == w.acc[e] {
      assert Balanced(w.acc[e], e in w.lu) && Balanced(v.acc[e], e in v.lu);
    }
  }

  lemma PutKeeps(w: World, e: Entry)
    requires Inv(w) && e in w.acc && w.acc[e].held > 0
    ensures Keeps(w, Put(w, e))
  {
    PutInv(w, e);
  }

  lemma IncKeeps(w: World, e: Entry)
    requires Inv(w) && e in w.acc && w.acc[e].rc > 0
    ensures Keeps(w, Inc(w, e))
  {
    IncInv(w, e);
  }

  lemma {:induction false} PutAllKeeps(w: World, es: seq<Entry>)
    requires Inv(w) && Holds(w, es)
    ensures Keeps(w, PutAll(w, es))
    decreases |es|
  {
    hide Inv;
    if es != [] {
      PutKeeps(w, es[0]);
      PutAllKeeps(Put(w, es[0]), es[1..]);
      KeepsTransitive(w, Put(w, es[0]), PutAll(w, es));
    }
  }

  lemma HeldMeansCounted(w: World, e: Entry)
    requires Inv(w) && e in w.acc && w.acc[e].held > 0
    ensures w.acc[e].rc > 0
  {
  }

  lemma {:induction false} IncAllKeeps(w: World, es: seq<Entry>)
    requires Inv(w) && Shareable(w, es)
    ensures Keeps(w, IncAll(w, es))
    decreases |es|
  {
    hide Inv;
    if es != [] {
      HeldMeansCounted(w, es[0]);
      IncKeeps(w, es[0]);
      IncAllKeeps(Inc(w, es[0]), es[1..]);
      KeepsTransitive(w, Inc(w, es[0]), IncAll(w, es));
    }
  }

  lemma LinkedIsCounted(w: World, e: Entry)
    requires Inv(w) && e in w.lu
    ensures e in w.acc && w.acc[e].rc > 0 && HashInRange(w)
  {
  }

  lemma GetKeeps(w: World, name: string, rtype: int, now: ticks)
    requires Inv(w)
    ensures Keeps(w, GetEntry(w, name, rtype, now).w)
  {
    hide Inv, Find, Expired;
    var f := Find(w, name, rtype, now);
    FindResult(w, name, rtype, now);
    HeldKeeps(w, f.w);
    if f.ret.Some? {
      LinkedIsCounted(f.w, f.ret.value);
      IncKeeps(f.w, f.ret.value);
      KeepsTransitive(w, f.w, Inc(f.w, f.ret.value));
    }
  }

  lemma RemoveKeeps(w: World, e: Entry)
    requires Inv(w) && e in w.lu && e in w.acc && HashInRange(w)
    ensures Keeps(w, Remove(w, e))
  {
    RemoveInv(w, e);
    HeldKeeps(w, Remove(w, e));
  }

  lemma DeleteKeeps(w: World, name: string, rtype: int, now: ticks)
    requires Inv(w)
    ensures Keeps(w, DeleteRecord(w, name, rtype, now))
  {
    hide Inv, Find, Expired, Remove;
    var f := Find(w, name, rtype, now);
    FindResult(w, name, rtype, now);
    HeldKeeps(w, f.w);
    if f.ret.Some? {
      LinkedIsCounted(f.w, f.ret.value);
      RemoveKeeps(f.w, f.ret.value);
      KeepsTransitive(w, f.w, Remove(f.w, f.ret.value));
    }
  }

  lemma ThinnedKeeps(w: World, v: World, expiredOnly: bool, now: ticks)
    requires Inv(w) && Thinned(w, v, expiredOnly, now)
    ensures Keeps(w, v)
  {
    hide Inv;
    HeldKeeps(w, v);
  }

  lemma AddKeeps(w: World, e: Entry, held: nat, maxMem: int, delNonexp: bool, now: ticks)
    requires Inv(w) && e !in w.acc
    ensures Keeps(w, Add(w, e, held, maxMem, delNonexp, now).w)
  {
    hide Inv, FreeMem, Thinned;
    var target := w.mem / 16 * 14;
    FreeMemResult(w, target, !delNonexp, now);
    ThinnedSelf(w, !delNonexp, now);
    var v := if w.mem + e.size >= maxMem then FreeMem(w, target, !delNonexp, now).w else w;
    ThinnedKeeps(w, v, !delNonexp, now);
    SameKeys(w, v, !delNonexp, now);
    LinkKeeps(v, e, held);
    KeepsTransitive(w, v, Link(v, e, held));
  }

  lemma ReplaceKeeps(w: World, was: Entry, e: Entry, maxMem: int, delNonexp: bool, now: ticks)
    requires Inv(w) && CanReplace(w, was, e)
    ensures var r := ReplaceEntry(w, was, e, maxMem, delNonexp, now); r.Goes? ==> Keeps(w, r.w)
  {
    hide Inv, Add;
    AddHolds(w, e, 0, maxMem, delNonexp, now, was);
    AddKeeps(w, e, 0, maxMem, delNonexp, now);
    var a := Add(w, e, 0, maxMem, delNonexp, now);
    if !a.ok || was in a.w.lu {
      var v := if a.ok then Remove(a.w, was) else a.w;
      if a.ok {
        RemoveKeeps(a.w, was);
        KeepsTransitive(w, a.w, v);
      }
      PutKeeps(v, was);
      KeepsTransitive(w, v, Put(v, was));
    }
  }

  lemma SameKeys(w: World, v: World, expiredOnly: bool, now: ticks)
    requires Thinned(w, v, expiredOnly, now)
    ensures v.acc.Keys == w.acc.Keys && HashInRange(v)
  {
  }

  lemma LinkKeeps(w: World, e: Entry, held: nat)
    requires Inv(w) && e !in w.acc && HashInRange(w)
    ensures Keeps(w, Link(w, e, held))
  {
    LinkInv(w, e, held);
  }

  lemma FlushKeeps(w: World, delPermanent: bool)
    requires Inv(w)
    ensures Keeps(w, Flush(w, delPermanent))
  {
    hide Inv, FlushFrom, Lower;
    FlushResult(w, delPermanent);
    FlushFromSelf(w, delPermanent);
    FlushFromLeaves(w, w, 0, delPermanent);
    HeldKeeps(w, Flush(w, delPermanent));
  }

  lemma FlushFromSelf(w: World, delPermanent: bool)
    requires Inv(w)
    ensures FlushedBelow(w, w, 0, delPermanent)
  {
    hide Inv, Lower;
  }

  /** Every step that ends keeps the invariant and every closed account, and every step ends but
      one: a replacement that unlinks its old entry a second time. */
  lemma StepKeeps(w: World, s: Step)
    requires Inv(w) && Allowed(w, s)
    ensures Apply(w, s).Goes? ==> Keeps(w, Apply(w, s).w)
    ensures Apply(w, s).NullLink?
            <==> s.Replace? && UnlinksTwice(w, s.was, s.e, s.maxMem, s.delNonexp, s.now)
  {
    hide Inv, Keeps, FlushFrom, FreeMemFrom, CleanFrom, FindFrom;
    match s
    case Get(name, rtype, now) => GetKeeps(w, name, rtype, now);
    case Release(e) => PutKeeps(w, e);
    case Share(es) => IncAllKeeps(w, es);
    case ReleaseAll(es) => PutAllKeeps(w, es);
    case AddNew(e, held, maxMem, delNonexp, now) => AddKeeps(w, e, held, maxMem, delNonexp, now);
    case Replace(was, e, maxMem, delNonexp, now) => ReplaceKeeps(w, was, e, maxMem, delNonexp, now);
    case Delete(name, rtype, now) => DeleteKeeps(w, name, rtype, now);
    case CleanUp(no, expiredOnly, now) =>
      ScanAll(w);
      CleanThins(w, w.lu, 0, no, expiredOnly, now);
      ThinnedKeeps(w, Clean(w, no, expiredOnly, now).w, expiredOnly, now);
    case Shrink(target, expiredOnly, now) =>
      ScanAll(w);
      FreeMemThins(w, w.lu, target, expiredOnly, now);
      ThinnedKeeps(w, FreeMem(w, target, expiredOnly, now).w, expiredOnly, now);
    case FlushAll(delPermanent) => FlushKeeps(w, delPermanent);
  }

  // ----- runs -----

  /** Each step is allowed in the state it meets. */
  ghost predicate AllowedRun(w: World, steps: seq<Step>)
    requires Inv(w)
    decreases |steps|
  {
    steps == [] ||
    (Allowed(w, steps[0]) &&
     (StepKeeps(w, steps[0]); Apply(w, steps[0]).Goes? ==> AllowedRun(Apply(w, steps[0]).w, steps[1..])))
  }

  ghost function RunTo(w: World, steps: seq<Step>): (r: Outcome)
    requires Inv(w) && AllowedRun(w, steps)
    decreases |steps|
  {
    if steps == [] then Goes(w)
    else
      StepKeeps(w, steps[0]);
      match Apply(w, steps[0])
      case Goes(v) => RunTo(v, steps[1..])
      case NullLink => NullLink
  }

  /** After any number of steps, in any order, with any arguments: both lists agree, the byte counter
      is the sum of the linked sizes, every count is one link plus the references held, an entry has
      been destroyed once if its count is zero and not at all otherwise, and stays destroyed. */
  lemma {:induction false} RunKeeps(w: World, steps: seq<Step>)
    requires Inv(w) && AllowedRun(w, steps)
    ensures RunTo(w, steps).Goes? ==> Keeps(w, RunTo(w, steps).w)
    decreases |steps|
  {
    hide Inv, Apply, Allowed;
    if steps == [] {
      KeepsSelf(w);
    } else {
      StepKeeps(w, steps[0]);
      if Apply(w, steps[0]).Goes? {
        var v := Apply(w, steps[0]).w;
        RunKeeps(v, steps[1..]);
        if RunTo(v, steps[1..]).Goes? {
          KeepsTransitive(w, v, RunTo(v, steps[1..]).w);
        }
      }
    }
  }

  /** Step `i` is a replacement whose old entry another step has unlinked. */
  ghost predicate FailsAt(w: World, steps: seq<Step>, i: nat)
    requires Inv(w)
  {
    && i < |steps| && AllowedRun(w, steps[..i]) && RunTo(w, steps[..i]).Goes?
    && var v := RunTo(w, steps[..i]).w;
       Inv(v) && steps[i].Replace? &&
       UnlinksTwice(v, steps[i].was, steps[i].e, steps[i].maxMem, steps[i].delNonexp, steps[i].now)
  }

  /** A run does not end if and only if it comes to such a replacement. */
  lemma {:induction false} RunFails(w: World, steps: seq<Step>)
    requires Inv(w) && AllowedRun(w, steps)
    ensures RunTo(w, steps).NullLink? <==> exists i: nat :: FailsAt(w, steps, i)
    decreases |steps|
  {
    hide Inv, Apply, Allowed, UnlinksTwice;
    if steps != [] {
      StepKeeps(w, steps[0]);
      assert steps[..0] == [];
      if Apply(w, steps[0]).NullLink? {
        assert FailsAt(w, steps, 0);
      } else {
        var v := Apply(w, steps[0]).w;
        RunFails(v, steps[1..]);
        forall i: nat ensures FailsAt(w, steps, i + 1) <==> FailsAt(v, steps[1..], i) {
          FailsLater(w, v, steps, i);
        }
        if i: nat :| FailsAt(w, steps, i) {
          assert i != 0;
          assert FailsAt(v, steps[1..], i - 1);
        }
      }
    }
  }

  lemma FailsLater(w: World, v: World, steps: seq<Step>, i: nat)
    requires Inv(w) && Inv(v) && steps != [] && Allowed(w, steps[0]) && Apply(w, steps[0]) == Goes(v)
    ensures FailsAt(w, steps, i + 1) <==> FailsAt(v, steps[1..], i)
  {
    hide Inv, Apply, Allowed, UnlinksTwice;
    if i + 1 < |steps| {
      assert steps[..i + 1][0] == steps[0] && steps[..i + 1][1..] == steps[1..][..i];
    }
  }

  /** Every replacement meets its old entry linked and not long expired. */
  ghost predicate UsedInTime(w: World, steps: seq<Step>)
    requires Inv(w) && AllowedRun(w, steps)
    decreases |steps|
  {
    steps == [] ||
    (StepKeeps(w, steps[0]);
     && (steps[0].Replace? ==> InUse(w, steps[0].was, steps[0].now))
     && (Apply(w, steps[0]).Goes? ==> UsedInTime(Apply(w, steps[0]).w, steps[1..])))
  }

  lemma {:induction false} UsedInTimeGoes(w: World, steps: seq<Step>)
    requires Inv(w) && AllowedRun(w, steps) && UsedInTime(w, steps)
    ensures RunTo(w, steps).Goes?
    decreases |steps|
  {
    hide Inv, InUse;
    if steps != [] {
      StepKeeps(w, steps[0]);
      if steps[0].Replace? {
        var s := steps[0];
        ReplaceExactly(w, s.was, s.e, s.maxMem, s.delNonexp, s.now);
      }
      UsedInTimeGoes(Apply(w, steps[0]).w, steps[1..]);
    }
  }

  /** A failing run: a record is fetched to be changed, the cache is flushed, and the changed record is
      put in its place. */
  lemma FlushBetween(w: World, name: string, rtype: int, now: ticks, was: Entry, e: Entry, maxMem: int,
                     delNonexp: bool, later: ticks)
    requires Inv(w) && e !in w.acc && GetEntry(w, name, rtype, now).ret == Some(was) && !was.permanent
    requires (GetKeeps(w, name, rtype, now); Flush(GetEntry(w, name, rtype, now).w, false).mem + e.size < maxMem)
    ensures var steps := [Get(name, rtype, now), FlushAll(false), Replace(was, e, maxMem, delNonexp, later)];
            AllowedRun(w, steps) && RunTo(w, steps) == NullLink
  {
    hide Inv, Find, FlushFrom, Expired;
    var steps := [Get(name, rtype, now), FlushAll(false), Replace(was, e, maxMem, delNonexp, later)];
    FindResult(w, name, rtype, now);
    GetKeeps(w, name, rtype, now);
    var v := GetEntry(w, name, rtype, now).w;
    FlushResult(v, false);
    var u := Flush(v, false);
    FlushedHeld(w, name, rtype, now, was, e);
    assert steps[1..] == [FlushAll(false), Replace(was, e, maxMem, delNonexp, later)];
    assert steps[1..][1..] == [Replace(was, e, maxMem, delNonexp, later)];
    assert steps[1..][1..][1..] == [];
    assert Apply(w, steps[0]) == Goes(v);
    assert Apply(v, steps[1]) == Goes(u);
    assert CanReplace(u, was, e) && UnlinksTwice(u, was, e, maxMem, delNonexp, later);
    assert AllowedRun(u, steps[1..][1..]) && RunTo(u, steps[1..][1..]) == NullLink;
    assert AllowedRun(v, steps[1..]) && RunTo(v, steps[1..]) == NullLink;
  }

  lemma FlushedHeld(w: World, name: string, rtype: int, now: ticks, was: Entry, e: Entry)
    requires Inv(w) && e !in w.acc && GetEntry(w, name, rtype, now).ret == Some(was) && !was.permanent
    ensures (GetKeeps(w, name, rtype, now);
             var u := Flush(GetEntry(w, name, rtype, now).w, false); CanReplace(u, was, e) && was !in u.lu)
  {
    hide Inv, Find, FlushFrom, Expired;
    FindResult(w, name, rtype, now);
    GetKeeps(w, name, rtype, now);
    FlushResult(GetEntry(w, name, rtype, now).w, false);
    LinkedIsCounted(Find(w, name, rtype, now).w, was);
  }

  lemma KeepsSelf(w: World)
    requires Inv(w)
    ensures Keeps(w, w)
  {
  }

  /** The cache as init_dns_cache leaves it. */
  function Empty(hash: string -> nat, size: nat): (w: World)
  {
    World(hash, seq(size, _ => []), [], 0, map[])
  }

  lemma EmptyInv(hash: string -> nat, size: nat)
    requires forall s :: hash(s) < size
    ensures Inv(Empty(hash, size))
  {
    var w := Empty(hash, size);
    forall h | 0 <= h < |w.chains| ensures ChainAgrees(w, h) {
    }
  }

  /** From start-up on, for every entry that was ever added. */
  lemma RefcountsFromStart(hash: string -> nat, size: nat, steps: seq<Step>, e: Entry)
    requires forall s :: hash(s) < size
    requires Inv(Empty(hash, size)) && AllowedRun(Empty(hash, size), steps)
    ensures RunTo(Empty(hash, size), steps).Goes? ==>
            var w := RunTo(Empty(hash, size), steps).w;
            && w.mem == TotalSize(w.lu)
            && (e in w.lu ==> e in w.acc && e in ChainOf(w.hash, w.chains, e.name))
            && (e in w.acc ==> w.acc[e].rc == w.acc[e].held + (if e in w.lu then 1 else 0))
            && (e in w.acc ==> w.acc[e].destroyed == if e !in w.lu && w.acc[e].held == 0 then 1 else 0)
  {
    hide Apply, Allowed, RunTo;
    RunKeeps(Empty(hash, size), steps);
  }
}
