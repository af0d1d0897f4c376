/** Taking entries out of the DNS cache to win memory, and putting entries in. */
module DnsEvict {
  import opened Seqs
  import opened Ticks
  import opened DnsModel
  import opened DnsLookup
  import opened DnsNames

  /** Permanent entries never go; with `expiredOnly` unexpired ones do not either; entries in use
      only when their delay has passed. */
  predicate Evictable(w: World, e: Entry, expiredOnly: bool, now: ticks)
    requires e in w.acc
  {
    !e.permanent && (!expiredOnly || Reached(now, e.expire)) && MayRemove(w, e, now)
  }

  function Evict(w: World, e: Entry, expiredOnly: bool, now: ticks): (r: World)
    requires HashInRange(w) && e in w.acc
  {
    if Evictable(w, e, expiredOnly, now) then Remove(w, e) else w
  }

  lemma EvictOn(w: World, rest: seq<Entry>, expiredOnly: bool, now: ticks)
    requires CanScan(w, rest) && rest != []
    ensures rest[0] in w.acc && HashInRange(w)
    ensures CanScan(Evict(w, rest[0], expiredOnly, now), rest[1..])
  {
    ScanOn(w, rest, now);
    assert rest[0] in w.lu;
    TailDistinct(rest);
    RemoveInv(w, rest[0]);
  }

  datatype Evicted = Evicted(w: World, deleted: nat)

  function Plus(r: Evicted, n: nat): (q: Evicted)
  {
    r.(deleted := r.deleted + n)
  }

  function Tally(w: World, e: Entry, expiredOnly: bool, now: ticks): (n: nat)
    requires e in w.acc
  {
    if Evictable(w, e, expiredOnly, now) then 1 else 0
  }

  /** dns_cache_free_mem from some place in the last-used list on. */
  function FreeMemFrom(w: World, rest: seq<Entry>, target: int, expiredOnly: bool, now: ticks): (r: Evicted)
    requires CanScan(w, rest)
    decreases |rest|
  {
    if rest == [] || w.mem <= target then Evicted(w, 0)
    else
      EvictOn(w, rest, expiredOnly, now);
      Plus(FreeMemFrom(Evict(w, rest[0], expiredOnly, now), rest[1..], target, expiredOnly, now),
           Tally(w, rest[0], expiredOnly, now))
  }

  /** An unsigned int: -1, as the timer passes it, is the largest one. */
  type count = n: int | 0 <= n < MODULUS

  /** dns_cache_clean: like free-memory, but at most `no` entries are looked at (at least one). */
  function CleanFrom(w: World, rest: seq<Entry>, n: nat, no: count, expiredOnly: bool, now: ticks): (r: Evicted)
    requires CanScan(w, rest)
    decreases |rest|
  {
    if rest == [] then Evicted(w, 0)
    else
      EvictOn(w, rest, expiredOnly, now);
      var w' := Evict(w, rest[0], expiredOnly, now);
      Plus(if n + 1 >= no then Evicted(w', 0) else CleanFrom(w', rest[1..], n + 1, no, expiredOnly, now),
           Tally(w, rest[0], expiredOnly, now))
  }

  lemma ScanAll(w: World)
    requires Inv(w)
    ensures CanScan(w, w.lu)
  {
  }

  function FreeMem(w: World, target: int, expiredOnly: bool, now: ticks): (r: Evicted)
    requires Inv(w)
  {
    ScanAll(w);
    FreeMemFrom(w, w.lu, target, expiredOnly, now)
  }

  function Clean(w: World, no: count, expiredOnly: bool, now: ticks): (r: Evicted)
    requires Inv(w)
  {
    ScanAll(w);
    CleanFrom(w, w.lu, 0, no, expiredOnly, now)
  }

  // ----- shape of the result -----

  /** How many entries of `rest` free-memory looks at before it has won enough. */
  function Seen(w: World, rest: seq<Entry>, target: int, expiredOnly: bool, now: ticks): (k: nat)
    requires CanScan(w, rest)
    ensures k <= |rest|
    decreases |rest|
  {
    if rest == [] || w.mem <= target then 0
    else
      EvictOn(w, rest, expiredOnly, now);
      1 + Seen(Evict(w, rest[0], expiredOnly, now), rest[1..], target, expiredOnly, now)
  }

  /** The entries of `s` that are not evicted. */
  function Kept(w: World, s: seq<Entry>, expiredOnly: bool, now: ticks): (r: seq<Entry>)
    requires Within(s, w.lu) && CountsAgree(w)
  {
    if s == [] then []
    else
      assert s[0] in s;
      WithinTail(s, w.lu);
      (if Evictable(w, s[0], expiredOnly, now) then [] else [s[0]]) + Kept(w, s[1..], expiredOnly, now)
  }

  lemma WithinTail(s: seq<Entry>, t: seq<Entry>)
    requires Within(s, t) && s != []
    ensures Within(s[1..], t)
  {
    forall e | e in s[1..] ensures e in t {
      assert e in s;
    }
  }

  lemma WithinTake(s: seq<Entry>, t: seq<Entry>, k: nat)
    requires Within(s, t) && k <= |s|
    ensures Within(s[..k], t)
  {
    forall e | e in s[..k] ensures e in t {
      assert e in s;
    }
  }

  /** Only the account of a removed entry changes. */
  ghost predicate SameAccounts(w: World, v: World, s: seq<Entry>)
  {
    forall e :: e in s ==> e in w.acc && e in v.acc && v.acc[e] == w.acc[e]
  }

  lemma {:induction false} KeptSame(w: World, v: World, s: seq<Entry>, expiredOnly: bool, now: ticks)
    requires Within(s, w.lu) && CountsAgree(w) && Within(s, v.lu) && CountsAgree(v) && SameAccounts(w, v, s)
    ensures Kept(v, s, expiredOnly, now) == Kept(w, s, expiredOnly, now)
  {
    hide CountsAgree, PastDelay, Reached;
    if s != [] {
      assert s[0] in s;
      WithinTail(s, w.lu);
      WithinTail(s, v.lu);
      forall e | e in s[1..] ensures e in w.acc && e in v.acc && v.acc[e] == w.acc[e] {
        assert e in s;
      }
      KeptSame(w, v, s[1..], expiredOnly, now);
    }
  }

  lemma EvictFront(w: World, pre: seq<Entry>, rest: seq<Entry>, expiredOnly: bool, now: ticks)
    requires CanScan(w, rest) && rest != [] && w.lu == pre + rest && rest[0] in w.acc && HashInRange(w)
    ensures Evict(w, rest[0], expiredOnly, now).lu
         == if Evictable(w, rest[0], expiredOnly, now) then pre + rest[1..] else (pre + [rest[0]]) + rest[1..]
    ensures SameAccounts(w, Evict(w, rest[0], expiredOnly, now), rest[1..])
  {
    hide PastDelay, Reached;
    TailDistinct(rest);
    assert w.lu[|pre|] == rest[0];
    MinusAt(w.lu, |pre|);
    assert Cut(w.lu, |pre|) == pre + rest[1..];
    assert w.lu == (pre + [rest[0]]) + rest[1..];
    forall e | e in rest[1..] ensures e in w.acc && e != rest[0] {
      assert e in w.lu;
    }
  }

  /** The list after free-memory: what it looked at without the evicted, then the rest untouched. */
  ghost predicate Shaped(w: World, pre: seq<Entry>, rest: seq<Entry>, target: int, expiredOnly: bool, now: ticks)
    requires CanScan(w, rest)
  {
    var k := Seen(w, rest, target, expiredOnly, now);
    var r := FreeMemFrom(w, rest, target, expiredOnly, now).w;
    && Within(rest[..k], w.lu)
    && r.lu == pre + Kept(w, rest[..k], expiredOnly, now) + rest[k..]
    && (k == |rest| || r.mem <= target)
  }

  lemma ShapedStop(w: World, pre: seq<Entry>, rest: seq<Entry>, target: int, expiredOnly: bool, now: ticks)
    requires CanScan(w, rest) && w.lu == pre + rest && (rest == [] || w.mem <= target)
    ensures Shaped(w, pre, rest, target, expiredOnly, now)
  {
    hide Inv, ListsAgree, PastDelay, Reached;
    assert rest[..0] == [];
    assert pre + [] + rest[0..] == pre + rest;
  }

  lemma ShapedStep(w: World, pre: seq<Entry>, rest: seq<Entry>, target: int, expiredOnly: bool, now: ticks)
    requires CanScan(w, rest) && w.lu == pre + rest && rest != [] && w.mem > target
    requires rest[0] in w.acc && HashInRange(w)
    requires var w' := Evict(w, rest[0], expiredOnly, now);
             && CanScan(w', rest[1..])
             && SameAccounts(w, w', rest[1..])
             && Shaped(w', if Evictable(w, rest[0], expiredOnly, now) then pre else pre + [rest[0]],
                       rest[1..], target, expiredOnly, now)
    ensures Shaped(w, pre, rest, target, expiredOnly, now)
  {
    hide ListsAgree, CountsAgree, Evictable, Evict, Lower, TotalSize;
    var w' := Evict(w, rest[0], expiredOnly, now);
    var k := Seen(w', rest[1..], target, expiredOnly, now);
    var s := rest[1..][..k];
    assert Seen(w, rest, target, expiredOnly, now) == k + 1;
    assert rest[..k + 1] == [rest[0]] + s && rest[k + 1..] == rest[1..][k..];
    WithinTake(rest, w.lu, k + 1);
    WithinTail(rest[..k + 1], w.lu);
    assert rest[..k + 1][1..] == s;
    forall e | e in s ensures e in w.acc && e in w'.acc && w'.acc[e] == w.acc[e] {
      assert e in rest[1..];
    }
    KeptSame(w, w', s, expiredOnly, now);
    var r := FreeMemFrom(w, rest, target, expiredOnly, now).w;
    var kept := Kept(w, s, expiredOnly, now);
    if Evictable(w, rest[0], expiredOnly, now) {
      assert Kept(w, rest[..k + 1], expiredOnly, now) == [] + kept;
      assert [] + kept == kept;
    } else {
      assert Kept(w, rest[..k + 1], expiredOnly, now) == [rest[0]] + kept;
      assert pre + [rest[0]] + kept == pre + ([rest[0]] + kept);
    }
  }

  lemma {:induction false} FreeMemShape(w: World, pre: seq<Entry>, rest: seq<Entry>, target: int, expiredOnly: bool,
                                        now: ticks)
    requires CanScan(w, rest) && w.lu == pre + rest
    ensures Shaped(w, pre, rest, target, expiredOnly, now)
    decreases |rest|
  {
    hide Inv, Shaped, Evictable, Reached;
    if rest == [] || w.mem <= target {
      ShapedStop(w, pre, rest, target, expiredOnly, now);
    } else {
      EvictOn(w, rest, expiredOnly, now);
      EvictFront(w, pre, rest, expiredOnly, now);
      var w' := Evict(w, rest[0], expiredOnly, now);
      FreeMemShape(w', if Evictable(w, rest[0], expiredOnly, now) then pre else pre + [rest[0]],
                   rest[1..], target, expiredOnly, now);
      ShapedStep(w, pre, rest, target, expiredOnly, now);
    }
  }

  ghost predicate KeptMembersOf(w: World, s: seq<Entry>, r: seq<Entry>, expiredOnly: bool, now: ticks)
    requires Within(s, w.lu) && CountsAgree(w)
  {
    && (forall e :: e in r ==> e in s && e in w.acc && !Evictable(w, e, expiredOnly, now))
    && (forall e :: e in s && e in w.acc && !Evictable(w, e, expiredOnly, now) ==> e in r)
  }

  lemma {:induction false} KeptMembers(w: World, s: seq<Entry>, expiredOnly: bool, now: ticks)
    requires Within(s, w.lu) && CountsAgree(w)
    ensures KeptMembersOf(w, s, Kept(w, s, expiredOnly, now), expiredOnly, now)
  {
    hide Reached, MayRemove;
    if s != [] {
      assert s[0] in s;
      WithinTail(s, w.lu);
      KeptMembers(w, s[1..], expiredOnly, now);
      var r, tail := Kept(w, s, expiredOnly, now), Kept(w, s[1..], expiredOnly, now);
      forall e | e in r ensures e in s && e in w.acc && !Evictable(w, e, expiredOnly, now) {
        assert e == s[0] || e in tail;
      }
      forall e | e in s && e in w.acc && !Evictable(w, e, expiredOnly, now) ensures e in r {
        assert e == s[0] || e in s[1..];
      }
    }
  }

  // ----- what eviction keeps -----

  /** `v` is `w` without some entries that could be evicted; the others and all users keep theirs. */
  ghost predicate Thinned(w: World, v: World, expiredOnly: bool, now: ticks)
  {
    && Inv(v) && v.hash == w.hash && Within(v.lu, w.lu) && SameHeld(w, v) && SameAccounts(w, v, v.lu)
    && (forall e :: e in w.lu && e !in v.lu && e in w.acc ==> Evictable(w, e, expiredOnly, now))
  }

  lemma ThinnedSelf(w: World, expiredOnly: bool, now: ticks)
    requires Inv(w)
    ensures Thinned(w, w, expiredOnly, now)
  {
    hide Evictable;
  }

  lemma EvictThins(w: World, e: Entry, expiredOnly: bool, now: ticks)
    requires Inv(w) && e in w.lu && e in w.acc && HashInRange(w)
    ensures Thinned(w, Evict(w, e, expiredOnly, now), expiredOnly, now)
  {
    hide MayRemove, Reached;
    ThinnedSelf(w, expiredOnly, now);
    RemoveInv(w, e);
  }

  lemma ThinnedTransitive(w: World, v: World, u: World, expiredOnly: bool, now: ticks)
    requires Inv(w) && Thinned(w, v, expiredOnly, now) && Thinned(v, u, expiredOnly, now)
    ensures Thinned(w, u, expiredOnly, now)
  {
    hide ListsAgree, Reached, PastDelay;
    forall e | e in w.lu && e !in u.lu && e in w.acc ensures Evictable(w, e, expiredOnly, now) {
      if e in v.lu {
        assert v.acc[e] == w.acc[e] && Evictable(v, e, expiredOnly, now);
      }
    }
    forall e | e in u.lu ensures e in w.acc && e in u.acc && u.acc[e] == w.acc[e] {
      assert e in v.lu;
    }
  }

  lemma {:induction false} FreeMemThins(w: World, rest: seq<Entry>, target: int, expiredOnly: bool, now: ticks)
    requires CanScan(w, rest)
    ensures Thinned(w, FreeMemFrom(w, rest, target, expiredOnly, now).w, expiredOnly, now)
    decreases |rest|
  {
    hide Inv, Evict, Evictable, Thinned;
    assert Inv(w);
    ThinnedSelf(w, expiredOnly, now);
    if rest != [] && w.mem > target {
      EvictOn(w, rest, expiredOnly, now);
      assert rest[0] in w.lu;
      EvictThins(w, rest[0], expiredOnly, now);
      var v := Evict(w, rest[0], expiredOnly, now);
      FreeMemThins(v, rest[1..], target, expiredOnly, now);
      ThinnedTransitive(w, v, FreeMemFrom(v, rest[1..], target, expiredOnly, now).w, expiredOnly, now);
    }
  }

  lemma {:induction false} CleanThins(w: World, rest: seq<Entry>, n: nat, no: count, expiredOnly: bool, now: ticks)
    requires CanScan(w, rest)
    ensures Thinned(w, CleanFrom(w, rest, n, no, expiredOnly, now).w, expiredOnly, now)
    decreases |rest|
  {
    hide Inv, Evict, Evictable, Thinned;
    assert Inv(w);
    ThinnedSelf(w, expiredOnly, now);
    if rest != [] {
      EvictOn(w, rest, expiredOnly, now);
      assert rest[0] in w.lu;
      EvictThins(w, rest[0], expiredOnly, now);
      var v := Evict(w, rest[0], expiredOnly, now);
      if n + 1 < no {
        CleanThins(v, rest[1..], n + 1, no, expiredOnly, now);
        ThinnedTransitive(w, v, CleanFrom(v, rest[1..], n + 1, no, expiredOnly, now).w, expiredOnly, now);
      }
    }
  }

  // ----- what free-memory achieves -----

  ghost predicate NothingEvictable(w: World, expiredOnly: bool, now: ticks)
  {
    forall e :: e in w.lu && e in w.acc ==> !Evictable(w, e, expiredOnly, now)
  }

  /** Evictable, but still there. */
  ghost predicate Spared(w: World, r: World, e: Entry, expiredOnly: bool, now: ticks)
  {
    e in r.lu && e in w.acc && Evictable(w, e, expiredOnly, now)
  }

  /** Every evicted entry was used less recently than every evictable entry that was spared. */
  ghost predicate LeastRecentFirst(w: World, r: World, expiredOnly: bool, now: ticks)
  {
    forall i, j :: 0 <= i < |w.lu| && 0 <= j < |w.lu| ==>
      w.lu[i] !in r.lu && Spared(w, r, w.lu[j], expiredOnly, now) ==> i < j
  }

  /** Either enough memory was won or nothing is left to evict; least recently used goes first. */
  lemma FreeMemResult(w: World, target: int, expiredOnly: bool, now: ticks)
    requires Inv(w)
    ensures var r := FreeMem(w, target, expiredOnly, now).w;
            && Thinned(w, r, expiredOnly, now)
            && (r.mem <= target || NothingEvictable(r, expiredOnly, now))
            && LeastRecentFirst(w, r, expiredOnly, now)
  {
    hide Inv, Thinned, Evictable, FreeMemFrom, LeastRecentFirst, NothingEvictable, Shaped, CutAfter;
    ScanAll(w);
    FreeMemThins(w, w.lu, target, expiredOnly, now);
    assert w.lu == [] + w.lu;
    FreeMemShape(w, [], w.lu, target, expiredOnly, now);
    ShapedCut(w, target, expiredOnly, now);
    var k := Seen(w, w.lu, target, expiredOnly, now);
    ShapeGivesOrder(w, FreeMem(w, target, expiredOnly, now).w, k, expiredOnly, now);
  }

  lemma ShapedCut(w: World, target: int, expiredOnly: bool, now: ticks)
    requires Inv(w) && CanScan(w, w.lu) && Shaped(w, [], w.lu, target, expiredOnly, now)
    ensures var k := Seen(w, w.lu, target, expiredOnly, now); var r := FreeMem(w, target, expiredOnly, now).w;
            CutAfter(w, r, k, expiredOnly, now) && (k == |w.lu| || r.mem <= target)
  {
    hide ListsAgree, Evictable, Evict, FreeMemFrom, Kept;
    var k := Seen(w, w.lu, target, expiredOnly, now);
    assert [] + Kept(w, w.lu[..k], expiredOnly, now) == Kept(w, w.lu[..k], expiredOnly, now);
  }

  /** The list after free-memory, from its start on. */
  ghost predicate CutAfter(w: World, r: World, k: nat, expiredOnly: bool, now: ticks)
  {
    && k <= |w.lu| && Within(w.lu[..k], w.lu) && CountsAgree(w)
    && r.lu == Kept(w, w.lu[..k], expiredOnly, now) + w.lu[k..]
  }

  lemma ShapeGivesOrder(w: World, r: World, k: nat, expiredOnly: bool, now: ticks)
    requires Inv(w) && CutAfter(w, r, k, expiredOnly, now) && Thinned(w, r, expiredOnly, now)
    ensures LeastRecentFirst(w, r, expiredOnly, now)
    ensures k == |w.lu| ==> NothingEvictable(r, expiredOnly, now)
  {
    hide ListsAgree, Evictable, CutAfter, Thinned;
    forall i, j | 0 <= i < |w.lu| && 0 <= j < |w.lu| && w.lu[i] !in r.lu && Spared(w, r, w.lu[j], expiredOnly, now)
      ensures i < j
    {
      EvictedIsEarly(w, r, k, i, expiredOnly, now);
      SparedIsLate(w, r, k, j, expiredOnly, now);
    }
    if k == |w.lu| {
      AllSeen(w, r, expiredOnly, now);
    }
  }

  lemma EvictedIsEarly(w: World, r: World, k: nat, i: nat, expiredOnly: bool, now: ticks)
    requires CutAfter(w, r, k, expiredOnly, now) && i < |w.lu| && w.lu[i] !in r.lu
    ensures i < k
  {
    hide CountsAgree, Kept;
    if k <= i {
      DropMember(w.lu, k, i);
    }
  }

  lemma DropMember(s: seq<Entry>, k: nat, i: nat)
    requires k <= i < |s|
    ensures s[i] in s[k..]
  {
    assert s[k..][i - k] == s[i];
  }

  lemma SparedIsLate(w: World, r: World, k: nat, j: nat, expiredOnly: bool, now: ticks)
    requires Inv(w) && CutAfter(w, r, k, expiredOnly, now) && j < |w.lu| && Spared(w, r, w.lu[j], expiredOnly, now)
    ensures k <= j
  {
    hide ListsAgree, Evictable, Kept;
    KeptMembers(w, w.lu[..k], expiredOnly, now);
    if j < k {
      assert Distinct(w.lu) by {
        LuDistinct(w);
      }
      NotLater(w.lu, k, j);
    }
  }

  lemma LuDistinct(w: World)
    requires Inv(w)
    ensures Distinct(w.lu)
  {
  }

  lemma AllSeen(w: World, r: World, expiredOnly: bool, now: ticks)
    requires Inv(w) && CutAfter(w, r, |w.lu|, expiredOnly, now) && Thinned(w, r, expiredOnly, now)
    ensures NothingEvictable(r, expiredOnly, now)
  {
    hide ListsAgree, Reached, PastDelay, Kept;
    assert w.lu[..|w.lu|] == w.lu;
    KeptMembers(w, w.lu, expiredOnly, now);
    forall e | e in r.lu && e in r.acc ensures !Evictable(r, e, expiredOnly, now) {
      assert r.acc[e] == w.acc[e];
    }
  }

  lemma NotLater(s: seq<Entry>, k: nat, j: nat)
    requires Distinct(s) && j < k <= |s|
    ensures s[j] !in s[k..]
  {
  }

  /** The last entry it evicts is needed to get below the target. */
  lemma {:induction false} FreeMemStopsInTime(w: World, rest: seq<Entry>, target: int, expiredOnly: bool, now: ticks)
    requires CanScan(w, rest)
    ensures var r := FreeMemFrom(w, rest, target, expiredOnly, now);
            r.deleted > 0 ==> exists e :: e in w.lu && e !in r.w.lu && r.w.mem + e.size > target
    decreases |rest|
  {
    hide ListsAgree, CountsAgree, Evictable, Reached;
    if rest != [] && w.mem > target {
      EvictOn(w, rest, expiredOnly, now);
      var e := rest[0];
      assert e in w.lu;
      var v := Evict(w, e, expiredOnly, now);
      FreeMemThins(v, rest[1..], target, expiredOnly, now);
      FreeMemStopsInTime(v, rest[1..], target, expiredOnly, now);
      NoneDeleted(v, rest[1..], target, expiredOnly, now);
      EvictThins(w, e, expiredOnly, now);
      RemoveInv(w, e);
      var r := FreeMemFrom(w, rest, target, expiredOnly, now);
      if Evictable(w, e, expiredOnly, now) {
        assert e !in v.lu && e !in r.w.lu && v.mem == w.mem - e.size;
      }
    }
  }

  lemma {:induction false} NoneDeleted(w: World, rest: seq<Entry>, target: int, expiredOnly: bool, now: ticks)
    requires CanScan(w, rest)
    ensures var r := FreeMemFrom(w, rest, target, expiredOnly, now); r.deleted == 0 ==> r.w == w
    decreases |rest|
  {
    hide Inv, Evictable, Reached;
    if rest != [] && w.mem > target {
      EvictOn(w, rest, expiredOnly, now);
      NoneDeleted(Evict(w, rest[0], expiredOnly, now), rest[1..], target, expiredOnly, now);
    }
  }

  lemma {:induction false} MinusLength(s: seq<Entry>, e: Entry)
    requires e in s
    ensures |Minus(s, e)| == |s| - 1
  {
    if s[0] != e {
      MinusLength(s[1..], e);
    }
  }

  lemma EvictCounts(w: World, e: Entry, expiredOnly: bool, now: ticks)
    requires HashInRange(w) && e in w.acc && e in w.lu
    ensures |Evict(w, e, expiredOnly, now).lu| + Tally(w, e, expiredOnly, now) == |w.lu|
  {
    hide Evictable;
    MinusLength(w.lu, e);
  }

  /** The number reported is the number of entries that went. */
  lemma {:induction false} FreeMemCounts(w: World, rest: seq<Entry>, target: int, expiredOnly: bool, now: ticks)
    requires CanScan(w, rest)
    ensures var r := FreeMemFrom(w, rest, target, expiredOnly, now); r.deleted + |r.w.lu| == |w.lu|
    decreases |rest|
  {
    hide Inv, Evictable, Evict, Tally;
    if rest != [] && w.mem > target {
      EvictOn(w, rest, expiredOnly, now);
      assert rest[0] in w.lu;
      EvictCounts(w, rest[0], expiredOnly, now);
      FreeMemCounts(Evict(w, rest[0], expiredOnly, now), rest[1..], target, expiredOnly, now);
    }
  }

  // ----- how far a cleaning goes -----

  /** How many of the next `len` entries a cleaning looks at that has looked at `n` already. */
  function Looked(len: nat, n: nat, no: count): (k: nat)
    ensures k <= len
  {
    var k := if no <= n then 1 else no - n;
    if k < len then k else len
  }

  /** A cleaning does to the entries it looks at what freeing all memory would do. */
  lemma {:induction false} CleanLooks(w: World, rest: seq<Entry>, n: nat, no: count, expiredOnly: bool, now: ticks)
    requires CanScan(w, rest) && CanScan(w, rest[..Looked(|rest|, n, no)])
    ensures CleanFrom(w, rest, n, no, expiredOnly, now)
            == FreeMemFrom(w, rest[..Looked(|rest|, n, no)], -1, expiredOnly, now)
    decreases |rest|
  {
    hide ListsAgree, CountsAgree, Evictable, Evict, Lower;
    if rest != [] {
      var k := Looked(|rest|, n, no);
      var s := rest[..k];
      EvictOn(w, rest, expiredOnly, now);
      EvictOn(w, s, expiredOnly, now);
      var v := Evict(w, rest[0], expiredOnly, now);
      if n + 1 >= no {
        assert s[1..] == [];
      } else {
        assert s[1..] == rest[1..][..Looked(|rest| - 1, n + 1, no)];
        CleanLooks(v, rest[1..], n + 1, no, expiredOnly, now);
      }
    }
  }

  /** A cleaning with a limit that the cache does not exceed leaves nothing to evict. */
  lemma CleanAll(w: World, no: count, expiredOnly: bool, now: ticks)
    requires Inv(w) && no >= |w.lu|
    ensures var r := Clean(w, no, expiredOnly, now).w;
            Thinned(w, r, expiredOnly, now) && NothingEvictable(r, expiredOnly, now)
  {
    hide ListsAgree, CountsAgree, Evictable, FreeMemFrom, CleanFrom;
    ScanAll(w);
    assert w.lu[..Looked(|w.lu|, 0, no)] == w.lu;
    CleanLooks(w, w.lu, 0, no, expiredOnly, now);
    FreeMemResult(w, -1, expiredOnly, now);
  }

  // ----- adding -----

  datatype Added = Added(w: World, ok: bool)

  /** dns_cache_add_unsafe: win memory if the new entry does not fit, and link it if it fits then. */
  function Add(w: World, e: Entry, held: nat, maxMem: int, delNonexp: bool, now: ticks): (r: Added)
    requires Inv(w)
  {
    var v := if w.mem + e.size >= maxMem then FreeMem(w, w.mem / 16 * 14, !delNonexp, now).w else w;
    FreeMemResult(w, w.mem / 16 * 14, !delNonexp, now);
    if v.mem + e.size >= maxMem then Added(v, false) else Added(Link(v, e, held), true)
  }

  /** A successful add stays below the limit, and the new entry is the newest of both lists. */
  lemma AddResult(w: World, e: Entry, held: nat, maxMem: int, delNonexp: bool, now: ticks)
    requires Inv(w) && e !in w.acc
    ensures var r := Add(w, e, held, maxMem, delNonexp, now);
            && Inv(r.w)
            && (r.ok ==> r.w.mem < maxMem && EndsWith(r.w.lu, e) && EndsWith(ChainOf(r.w.hash, r.w.chains, e.name), e))
            && (r.ok ==> r.w.acc.Keys == w.acc.Keys + {e})
            && (!r.ok ==> Thinned(w, r.w, !delNonexp, now) && r.w.mem + e.size >= maxMem)
  {
    hide Evictable, Reached, FreeMemFrom, CountsAgree, Lower, TotalSize;
    var target := w.mem / 16 * 14;
    FreeMemResult(w, target, !delNonexp, now);
    ThinnedSelf(w, !delNonexp, now);
    var v := if w.mem + e.size >= maxMem then FreeMem(w, target, !delNonexp, now).w else w;
    assert v.acc.Keys == w.acc.Keys;
    LinkInv(v, e, held);
  }

  // ----- what an add takes out -----

  /** An entry that may go: not permanent, unused or 300 seconds past its expiry and, unless any will do,
      expired. */
  ghost predicate MayGo(w: World, e: Entry, expiredOnly: bool, now: ticks)
  {
    && !e.permanent && (expiredOnly ==> Behind(now, e.expire))
    && e in w.acc && (w.acc[e].held == 0 || Behind(now, (e.expire + 4800) % 0x1_0000_0000))
  }

  lemma EvictableExactly(w: World, e: Entry, expiredOnly: bool, now: ticks)
    requires Inv(w) && e in w.lu
    ensures e in w.acc && (Evictable(w, e, expiredOnly, now) <==> MayGo(w, e, expiredOnly, now))
  {
    hide Behind, PastDelay, Reached, ListsAgree;
    ReachedExactly(now, e.expire);
    DelayExactly(e, now);
    assert Balanced(w.acc[e], true);
  }

  /** The memory after winning some: 7/8 of what was used or less, or nothing more may go; and no less than it
      takes, for one of the entries that went, put back, would exceed 7/8 less 14 bytes. */
  ghost predicate WonEnough(w: World, lu: seq<Entry>, mem: int, expiredOnly: bool, now: ticks)
  {
    && (8 * mem <= 7 * w.mem || forall x :: x in w.lu && x in lu ==> !MayGo(w, x, expiredOnly, now))
    && (forall x :: x in w.lu && x !in lu ==> MayGo(w, x, expiredOnly, now))
    && (mem == w.mem || exists x :: x in w.lu && x !in lu && 8 * (mem + x.size) + 112 > 7 * w.mem)
  }

  lemma FreeMemWins(w: World, expiredOnly: bool, now: ticks)
    requires Inv(w)
    ensures var v := FreeMem(w, w.mem / 16 * 14, expiredOnly, now).w;
            Inv(v) && Within(v.lu, w.lu) && WonEnough(w, v.lu, v.mem, expiredOnly, now)
  {
    hide Inv, FreeMemFrom, MayGo, Evictable;
    var target := w.mem / 16 * 14;
    var r := FreeMem(w, target, expiredOnly, now);
    ScanAll(w);
    FreeMemResult(w, target, expiredOnly, now);
    FreeMemStopsInTime(w, w.lu, target, expiredOnly, now);
    NoneDeleted(w, w.lu, target, expiredOnly, now);
    forall x | x in w.lu
      ensures x in w.acc && (Evictable(w, x, expiredOnly, now) <==> MayGo(w, x, expiredOnly, now))
    {
      EvictableExactly(w, x, expiredOnly, now);
    }
    forall x | x in r.w.lu ensures x in r.w.acc && r.w.acc[x] == w.acc[x] {
    }
    if NothingEvictable(r.w, expiredOnly, now) {
      forall x | x in w.lu && x in r.w.lu ensures !Evictable(w, x, expiredOnly, now) {
        SameEvictable(w, r.w, x, expiredOnly, now);
      }
    }
  }

  lemma SameEvictable(w: World, v: World, e: Entry, expiredOnly: bool, now: ticks)
    requires e in w.acc && e in v.acc && w.acc[e] == v.acc[e]
    ensures Evictable(w, e, expiredOnly, now) <==> Evictable(v, e, expiredOnly, now)
  {
    hide Reached, PastDelay;
  }

  /** An add that fits evicts nothing. One that does not wins memory first, and succeeds if and only if the new
      entry fits then. */
  lemma AddExactly(w: World, e: Entry, held: nat, maxMem: int, delNonexp: bool, now: ticks)
    requires Inv(w) && e !in w.acc
    ensures var r := Add(w, e, held, maxMem, delNonexp, now);
            var m := r.w.mem - if r.ok then e.size else 0;
            && (w.mem + e.size < maxMem ==> r.ok && m == w.mem && r.w.lu == w.lu + [e])
            && (w.mem + e.size >= maxMem ==>
                  && (r.ok <==> m + e.size < maxMem)
                  && WonEnough(w, r.w.lu, m, !delNonexp, now))
  {
    hide Inv, FreeMem, MayGo, Bucket;
    FreeMemWins(w, !delNonexp, now);
    var v := FreeMem(w, w.mem / 16 * 14, !delNonexp, now).w;
    assert HashInRange(v) && HashInRange(w) && e !in w.lu by {
      HashOk(w);
      HashOk(v);
    }
    assert forall x :: x in w.lu ==> (x in v.lu + [e] <==> x in v.lu);
  }

  lemma HashOk(w: World)
    requires Inv(w)
    ensures HashInRange(w) && forall e :: e in w.lu ==> e in w.acc
  {
  }
}
