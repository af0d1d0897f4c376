/** The DNS cache in place: hash chains, last-used list, byte counter and reference counts of real
    entries, proved against the operations of DnsModel, DnsLookup, DnsEvict and DnsRuns. */
module DnsTable {
  import opened Seqs
  import opened Ticks
  import opened DnsModel
  import opened DnsRings
  import opened DnsLookup
  import opened DnsEvict
  import opened DnsRuns

  /** Different chains share nothing. */
  lemma ChainsApart(w: World, g: nat, h: nat)
    requires ListsAgree(w) && g < |w.chains| && h < |w.chains| && g != h
    ensures forall e :: e in w.chains[g] ==> e !in w.chains[h]
  {
    assert ChainAgrees(w, g) && ChainAgrees(w, h);
  }

  method NewHead() returns (e: Entry)
    ensures fresh(e) && HashRing(e, []) && LuRing(e, [])
  {
    e := new Entry("", 0, 0, true, false, 0, None, 0, 0);
    e.next, e.prev, e.luNext, e.luPrev := e, e, e, e;
  }

  /** clist_init on every bucket head */
  method NewHeads(n: nat) returns (heads: seq<Entry>)
    ensures |heads| == n && Distinct(heads) && fresh(set e | e in heads)
    ensures forall h :: 0 <= h < n ==> HashRing(heads[h], [])
  {
    heads := [];
    while |heads| < n
      invariant |heads| <= n && Distinct(heads) && fresh(set e | e in heads)
      invariant forall h :: 0 <= h < |heads| ==> HashRing(heads[h], [])
    {
      var e := NewHead();
      heads := heads + [e];
    }
  }

  /** An entry out of the lists has null links. */
  ghost predicate LooseIn(v: World)
    reads v.acc.Keys`next, v.acc.Keys`prev
  {
    forall e :: e in v.acc && e !in v.lu ==> e.next == null && e.prev == null
  }

  ghost predicate CountedIn(v: World)
    reads v.acc.Keys`refcnt, v.acc.Keys`freed
  {
    forall e :: e in v.acc ==> e.refcnt == v.acc[e].rc && (e.freed <==> v.acc[e].destroyed > 0)
  }

  /** The counts of all other entries are those of their accounts. */
  ghost predicate OthersCounted(v: World, e: Entry)
    reads (v.acc.Keys - {e})`refcnt, (v.acc.Keys - {e})`freed
  {
    forall x :: x in v.acc && x != e ==> x.refcnt == v.acc[x].rc && (x.freed <==> v.acc[x].destroyed > 0)
  }

  class Table {
    const hash: string -> nat
    const heads: seq<Entry>   // dns_hash
    const luHead: Entry       // dns_last_used_lst
    var memUsed: int          // *dns_cache_mem_used
    ghost var w: World

    /** The heads are nobody's entries. */
    ghost predicate HeadsApart()
      reads this`w
    {
      ApartIn(w)
    }

    ghost predicate Chained()
      reads this`w, heads`next, heads`prev, w.acc.Keys`next, w.acc.Keys`prev
      requires Inv(w) && |heads| == |w.chains|
    {
      forall h :: 0 <= h < |heads| ==> ChainedAt(h)
    }

    ghost predicate ChainedAt(h: nat)
      reads this`w, heads`next, heads`prev, w.acc.Keys`next, w.acc.Keys`prev
      requires Inv(w) && |heads| == |w.chains| && h < |heads|
    {
      assert ChainAgrees(w, h);
      HashRing(heads[h], w.chains[h])
    }

    ghost predicate Counted()
      reads this`w, w.acc.Keys`refcnt, w.acc.Keys`freed
    {
      CountedIn(w)
    }

    /** Every bucket head leads its chain. */
    ghost predicate ChainsIn(v: World)
      reads heads`next, heads`prev, v.acc.Keys`next, v.acc.Keys`prev
      requires Inv(v) && |heads| == |v.chains|
    {
      InAccountsAll(v);
      forall h :: 0 <= h < |heads| ==> HashRing(heads[h], v.chains[h])
    }

    ghost predicate ApartIn(v: World)
    {
      && Distinct(heads) && luHead !in heads && luHead !in v.acc
      && (forall h :: 0 <= h < |heads| ==> heads[h] !in v.acc)
    }

    ghost predicate Loose()
      reads this`w, w.acc.Keys`next, w.acc.Keys`prev
    {
      LooseIn(w)
    }

    ghost predicate Valid()
      reads this, heads, luHead, w.acc.Keys
    {
      && Inv(w) && w.hash == hash && |heads| == |w.chains| && memUsed == w.mem
      && HeadsApart() && Chained() && LuRing(luHead, w.lu) && Counted() && Loose()
    }

    ghost function Repr(): (r: set<object>)
      reads this`w
    {
      (set e | e in heads) + {luHead} + w.acc.Keys
    }

    /** init_dns_cache */
    constructor (hash: string -> nat, size: nat)
      requires forall s :: hash(s) < size
      ensures Valid() && w == Empty(hash, size) && fresh(Repr())
    {
      var bucketHeads := NewHeads(size);
      var lastUsed := NewHead();
      this.hash := hash;
      this.heads := bucketHeads;
      this.luHead := lastUsed;
      this.memUsed := 0;
      this.w := Empty(hash, size);
      new;
      EmptyInv(hash, size);
    }

    /** The rings of two chains have no object in common. */
    ghost predicate RingsApart(g: nat, h: nat)
      reads this`w
      requires g < |heads| && h < |heads| && |heads| == |w.chains|
    {
      && heads[g] != heads[h] && heads[g] !in w.chains[h] && heads[h] !in w.chains[g]
      && (forall e :: e in w.chains[g] ==> e !in w.chains[h])
    }

    lemma RingsAreApart(g: nat, h: nat)
      requires Inv(w) && HeadsApart() && |heads| == |w.chains| && g < |heads| && h < |heads| && g != h
      ensures RingsApart(g, h)
    {
      ChainsApart(w, g, h);
      assert ChainAgrees(w, g) && ChainAgrees(w, h);
    }

    /** Unlinks `e` from its hash chain; the ghost state is not yet updated. */
    method UnlinkHash(e: Entry, ghost h: nat, ghost i: nat)
      requires Valid() && h < |heads| && i < |w.chains[h]| && w.chains[h][i] == e
      modifies heads`next, heads`prev, w.acc.Keys`next, w.acc.Keys`prev
      ensures HashRing(heads[h], Cut(w.chains[h], i)) && e.next == null && e.prev == null
      ensures forall g :: 0 <= g < |heads| && g != h ==> HashRing(heads[g], w.chains[g])
      ensures Loose()
    {
      InAccounts(w, h);
      assert ChainedAt(h);
      assert ChainAgrees(w, h);
      HashRm(e, heads[h], w.chains[h], i);
      forall g | 0 <= g < |heads| && g != h ensures HashRing(heads[g], w.chains[g]) {
        assert old(ChainedAt(g));
        RingsAreApart(g, h);
        InAccounts(w, g);
        ghost var s := w.chains[g];
        forall k | 0 <= k < |s| ensures s[k].next == old(s[k].next) {
          assert s[k] in s;
        }
        forall k | 0 <= k < |s| ensures s[k].prev == old(s[k].prev) {
          assert s[k] in s;
        }
      }
    }

    /** check_lu_lst */
    predicate LuSelfLinked(l: Entry)
      reads l`luNext, l`luPrev
    {
      (l.luNext == l || l.luPrev == l) && l != luHead
    }

    /** The conditions under which debug_lu_lst would abort(). */
    predicate LuCorrupt(l: Entry)
      reads l, if l.luNext != null then {l.luNext} else {}, if l.luPrev != null then {l.luPrev} else {}
    {
      || LuSelfLinked(l)
      || (l.luNext != null && LuSelfLinked(l.luNext))
      || (l.luPrev != null && LuSelfLinked(l.luPrev))
    }

    lemma NotCorrupt(s: seq<Entry>, j: nat)
      requires LuRing(luHead, s) && j < |s|
      ensures !LuCorrupt(s[j])
    {
      var e := s[j];
      assert e.luNext == Succ(luHead, s, j) && e.luPrev == Pred(luHead, s, j);
      if j > 0 {
        assert s[j - 1].luNext == e && s[j - 1].luPrev == Pred(luHead, s, j - 1);
      }
      if j + 1 < |s| {
        assert s[j + 1].luPrev == e && s[j + 1].luNext == Succ(luHead, s, j + 1);
      }
    }

    /** dns_hash_put_entry; dns_destroy_entry when the count reaches 0 */
    method DropRef(e: Entry)
      requires !e.freed && e.refcnt > 0
      modifies e`refcnt, e`freed
      ensures e.refcnt == old(e.refcnt) - 1 && (e.freed <==> e.refcnt == 0)
    {
      e.refcnt := e.refcnt - 1;
      if e.refcnt == 0 {
        e.freed := true;
      }
    }

    /** Unlinks `e` from the last-used list; the ghost state is not yet updated. */
    method UnlinkLu(e: Entry, ghost j: nat)
      requires LuRing(luHead, w.lu) && j < |w.lu| && w.lu[j] == e
      modifies luHead`luNext, luHead`luPrev, w.lu`luNext, w.lu`luPrev
      ensures LuRing(luHead, Cut(w.lu, j)) && e.luNext == null && e.luPrev == null
    {
      NotCorrupt(w.lu, j);
      if LuCorrupt(e) {
        assert false;
      }
      LuRm(e, luHead, w.lu, j);
      if LuCorrupt(e) {
        assert false;
      }
    }

    /** The rings as they are while `e`, at place `i` of chain `h` and place `j` of the last-used
        list, is out of both and the ghost state does not know yet. */
    ghost predicate Without(v: World, h: nat, i: nat, j: nat)
      reads heads`next, heads`prev, v.acc.Keys`next, v.acc.Keys`prev
      reads luHead`luNext, luHead`luPrev, v.acc.Keys`luNext, v.acc.Keys`luPrev
      requires Inv(v) && |heads| == |v.chains| && h < |heads| && i < |v.chains[h]| && j < |v.lu|
    {
      InAccountsAll(v);
      && HashRing(heads[h], Cut(v.chains[h], i))
      && (forall g :: 0 <= g < |heads| && g != h ==> HashRing(heads[g], v.chains[g]))
      && LuRing(luHead, Cut(v.lu, j))
    }

    method UnlinkBoth(e: Entry, ghost h: nat, ghost i: nat, ghost j: nat)
      requires Valid() && h < |heads| && i < |w.chains[h]| && w.chains[h][i] == e && j < |w.lu| && w.lu[j] == e
      modifies heads, luHead, w.acc.Keys
      ensures Without(w, h, i, j) && Counted() && Loose()
      ensures e.next == null && e.prev == null && e.luNext == null && e.luPrev == null
    {
      hide Inv, HashRing, LuRing, Counted, Loose, Succ, Pred;
      InAccountsAll(w);
      UnlinkHash(e, h, i);
      UnlinkLu(e, j);
    }

    lemma LinkedIsAlive(e: Entry)
      requires Inv(w) && Counted() && e in w.lu
      ensures e in w.acc && !e.freed && e.refcnt > 0
    {
      hide ListsAgree;
      assert Balanced(w.acc[e], true);
    }

    /** The new ghost state fits what has been done in place. */
    lemma RemovedValid(v: World, e: Entry, h: nat, i: nat, j: nat)
      requires Inv(v) && |heads| == |v.chains| && h < |heads| && i < |v.chains[h]| && j < |v.lu|
      requires e in v.lu && e in v.acc && HashInRange(v)
      requires h == Bucket(v, e.name) && v.chains[h][i] == e && v.lu[j] == e
      requires w == Remove(v, e) && Inv(w) && Without(v, h, i, j)
      ensures Chained() && LuRing(luHead, w.lu)
    {
      hide HashRing, LuRing, CountsAgree;
      assert ChainAgrees(v, h);
      MinusAt(v.chains[h], i);
      MinusAt(v.lu, j);
      forall g | 0 <= g < |heads| ensures ChainedAt(g) {
        assert w.chains[g] == if g == h then Cut(v.chains[h], i) else v.chains[g];
      }
    }

    lemma CountedOthers(e: Entry)
      requires Counted() && e in w.acc
      ensures OthersCounted(w, e) && e.refcnt == w.acc[e].rc && (e.freed <==> w.acc[e].destroyed > 0)
    {
    }

    lemma RemovedCounted(v: World, e: Entry)
      requires e in v.acc && e in v.lu && Inv(v) && HashInRange(v) && w == Remove(v, e)
      requires e.refcnt == v.acc[e].rc - 1 && (e.freed <==> e.refcnt == 0) && OthersCounted(v, e)
      ensures Counted()
    {
      assert Balanced(v.acc[e], true);
    }

    lemma RemovedLoose(v: World, e: Entry)
      requires e in v.acc && HashInRange(v) && w == Remove(v, e) && AllBut(w.lu, v.lu, e)
      requires e.next == null && e.prev == null && LooseIn(v)
      ensures Loose()
    {
    }

    /** _dns_hash_remove_entry */
    method RemoveEntry(e: Entry)
      requires Valid() && e in w.lu
      modifies this`w, this`memUsed, heads, luHead, w.acc.Keys
      ensures Valid() && w == Remove(old(w), e)
      ensures e.next == null && e.prev == null && e.luNext == null && e.luPrev == null
    {
      hide Inv, HashRing, LuRing, Succ, Pred, Bucket, Remove, LooseIn, OthersCounted, Chained, Counted, Without;
      LinkedIsAlive(e);
      LinkedPlace(w, e);
      RemoveInv(w, e);
      ghost var v, h := w, Bucket(w, e.name);
      ghost var i :| 0 <= i < |w.chains[h]| && w.chains[h][i] == e;
      ghost var j :| 0 <= j < |w.lu| && w.lu[j] == e;
      UnlinkBoth(e, h, i, j);
      LinkedIsAlive(e);
      CountedOthers(e);
      memUsed := memUsed - e.size;
      DropRef(e);
      w := Remove(w, e);
      RemovedShape(v, e);
      RemovedValid(v, e, h, i, j);
      RemovedCounted(v, e);
      RemovedLoose(v, e);
    }

    /** Moves `e`, at place `j`, to the end of the last-used list. */
    method MoveToEnd(e: Entry, ghost j: nat)
      requires LuRing(luHead, w.lu) && j < |w.lu| && w.lu[j] == e
      modifies luHead`luNext, luHead`luPrev, w.lu`luNext, w.lu`luPrev
      ensures LuRing(luHead, Cut(w.lu, j) + [e])
    {
      CutMembers(w.lu, j);
      UnlinkLu(e, j);
      LuAppend(luHead, e, Cut(w.lu, j));
      NotCorrupt(Cut(w.lu, j) + [e], |w.lu| - 1);
      if LuCorrupt(e) {
        assert false;
      }
    }

    lemma TouchedValid(v: World, e: Entry, j: nat)
      requires Inv(v) && v.hash == hash && |heads| == |v.chains| && memUsed == v.mem
      requires j < |v.lu| && v.lu[j] == e && w == Touch(v, e)
      requires LuRing(luHead, Cut(v.lu, j) + [e]) && ChainsIn(v) && CountedIn(v) && LooseIn(v) && ApartIn(v)
      ensures Valid()
    {
      hide HashRing, LuRing, ListsAgree, CountsAgree;
      LuFacts(v, j);
      TouchInv(v, e);
    }

    /** The bookkeeping for a hit: last use and place in the last-used list. */
    method TouchEntry(e: Entry, now: ticks)
      requires Valid() && e in w.lu
      modifies this`w, luHead, w.acc.Keys
      ensures Valid() && w == Touch(old(w), e)
    {
      hide Inv, HashRing, LuRing, Succ, Pred, ChainsIn, CountedIn, LooseIn, ApartIn, Chained;
      ghost var v := w;
      ghost var j :| 0 <= j < |w.lu| && w.lu[j] == e;
      LuFacts(w, j);
      InAccountsAll(w);
      AllRings();
      e.lastUsed := now;
      MoveToEnd(e, j);
      w := Touch(w, e);
      TouchedValid(v, e, j);
    }

    /** The expiry branch of a scan. */
    method ExpireEntry(e: Entry, now: ticks)
      requires Valid() && e in w.lu
      modifies this`w, this`memUsed, heads, luHead, w.acc.Keys
      ensures Valid() && e in old(w.acc) && HashInRange(old(w)) && w == Expire(old(w), e, now)
    {
      hide Inv, HashRing, LuRing, Remove, PastDelay;
      LinkedIsAlive(e);
      LinkedPlace(w, e);
      if e.refcnt > 1 {
        if PastDelay(e, now) {
          RemoveEntry(e);
        }
      } else {
        RemoveEntry(e);
      }
    }

    // ----- scanning -----

    lemma ChainStart(h: nat)
      requires Valid() && h < |heads|
      ensures heads[h].next == FirstOr(w.chains[h], heads[h])
    {
      hide Inv;
      assert ChainedAt(h);
    }

    /** A scan is back at the head only when nothing is left. */
    lemma ChainEnd(h: nat, rest: seq<Entry>)
      requires Valid() && h < |heads| && Suffix(rest, w.chains[h])
      ensures FirstOr(rest, heads[h]) == heads[h] ==> rest == []
    {
      hide Inv;
      assert ChainedAt(h);
      if rest != [] {
        assert rest[0] == w.chains[h][|w.chains[h]| - |rest|];
      }
    }

    lemma LuEnd(rest: seq<Entry>)
      requires Valid() && Suffix(rest, w.lu)
      ensures FirstOr(rest, luHead) == luHead ==> rest == []
    {
      hide Inv;
      if rest != [] {
        assert rest[0] == w.lu[|w.lu| - |rest|];
      }
    }

    /** Where the scan of chain `h` goes next. */
    lemma ChainNext(h: nat, rest: seq<Entry>)
      requires Valid() && h < |heads| && Suffix(rest, w.chains[h]) && rest != []
      ensures rest[0].next == FirstOr(rest[1..], heads[h])
    {
      hide Inv;
      assert ChainedAt(h);
      var s := w.chains[h];
      var k := |s| - |rest|;
      assert rest[0] == s[k];
      assert |rest| > 1 ==> rest[1..][0] == s[k + 1];
    }

    lemma LuNext(rest: seq<Entry>)
      requires Valid() && Suffix(rest, w.lu) && rest != []
      ensures rest[0].luNext == FirstOr(rest[1..], luHead)
    {
      hide Inv;
      var k := |w.lu| - |rest|;
      assert rest[0] == w.lu[k];
      assert |rest| > 1 ==> rest[1..][0] == w.lu[k + 1];
    }

    /** _dns_hash_find; `tmp` is the element after `e`, read before `e` is touched. Once `moved`, the name
        asked for is the local `cname`, which every CNAME met overwrites. */
    method HashFind(name: string, rtype: int, now: ticks) returns (ret: Entry?, err: bool)
      requires Valid()
      modifies this`w, this`memUsed, heads, luHead, w.acc.Keys
      ensures Valid() && Found(w, ToOption(ret), err) == Find(old(w), name, rtype, now)
    {
      hide Inv, HashRing, LuRing, Remove, Touch, PastDelay, Reached, Lower, FindFrom;
      hide Counted, Chained, HeadsApart, Loose;
      ret, err := null, false;
      if name == "" {
        return null, true;
      }
      var chain, cname, moved := 0, "", false;
      InHash(w, name);
      ghost var f := Find(w, name, rtype, now);
      var h := hash(Lower(name));
      ScanChain(w, h);
      ChainStart(h);
      ghost var rest := w.chains[h];
      var e := heads[h].next;
      while e != heads[h]
        invariant Valid() && w.acc.Keys == old(w.acc.Keys)
        invariant h < |heads| && Suffix(rest, w.chains[h]) && CanScan(w, rest)
        invariant e == FirstOr(rest, heads[h])
        invariant chain <= MAX_CNAME_CHAIN + 1
        invariant f == FindFrom(w, rest, Asked(if moved then cname else name, moved), rtype, now, chain, ToOption(ret))
        decreases MAX_CNAME_CHAIN + 1 - chain, |rest|
      {
        var tmp := e.next;
        ChainNext(h, rest);
        ScanOn(w, rest, now);
        ScanPlace(w, h, rest);
        var crt := if moved then cname else name;
        ghost var v, asked := w, Asked(crt, moved);
        if Expired(e, now) {
          FindExpired(w, rest, asked, rtype, now, chain, ToOption(ret));
          ExpireSuffix(w, h, rest, now);
          ExpireEntry(e, now);
          e, rest := tmp, rest[1..];
        } else if e.rtype == rtype && SameName(e.name, crt) {
          FindHit(w, rest, asked, rtype, now, chain, ToOption(ret));
          TouchEntry(e, now);
          return e, false;
        } else if PositiveCname(e) && SameName(e.name, crt) {
          FindAlias(w, rest, asked, rtype, now, chain, ToOption(ret));
          TouchEntry(e, now);
          TouchShape(v, e);
          ret := e;
          if chain > MAX_CNAME_CHAIN {
            return null, true;
          }
          chain := chain + 1;
          cname := e.target.value;
          if cname != "" {
            moved := true;
            InHash(w, cname);
            h := hash(Lower(cname));
            ScanChain(w, h);
            ChainStart(h);
            rest := w.chains[h];
            e := heads[h].next;
          } else {
            e, rest := tmp, rest[1..];
          }
        } else {
          FindOther(w, rest, asked, rtype, now, chain, ToOption(ret));
          e, rest := tmp, rest[1..];
        }
      }
      ChainEnd(h, rest);
      FindEnd(w, Asked(if moved then cname else name, moved), rtype, now, chain, ToOption(ret));
    }

    // ----- taking entries out -----

    /** The eviction branch of dns_cache_clean and dns_cache_free_mem. */
    method EvictEntry(e: Entry, expiredOnly: bool, now: ticks) returns (gone: bool)
      requires Valid() && e in w.lu
      modifies this`w, this`memUsed, heads, luHead, w.acc.Keys
      ensures Valid() && e in old(w.acc) && HashInRange(old(w)) && w == Evict(old(w), e, expiredOnly, now)
      ensures gone <==> Evictable(old(w), e, expiredOnly, now)
    {
      hide Inv, HashRing, LuRing, Remove, PastDelay, Reached;
      LinkedIsAlive(e);
      LinkedPlace(w, e);
      gone := false;
      if !e.permanent && (!expiredOnly || Reached(now, e.expire)) {
        if e.refcnt > 1 {
          if PastDelay(e, now) {
            RemoveEntry(e);
            gone := true;
          }
        } else {
          RemoveEntry(e);
          gone := true;
        }
      }
    }

    /** dns_cache_free_mem */
    method FreeMemory(target: int, expiredOnly: bool, now: ticks) returns (deleted: nat)
      requires Valid()
      modifies this`w, this`memUsed, heads, luHead, w.acc.Keys
      ensures Valid() && w.acc.Keys == old(w.acc.Keys)
      ensures Evicted(w, deleted) == FreeMem(old(w), target, expiredOnly, now)
    {
      hide Inv, HashRing, LuRing, Evict, Evictable, Counted, Chained, HeadsApart, Loose, FreeMemFrom;
      deleted := 0;
      ScanAll(w);
      ghost var all, rest := FreeMem(w, target, expiredOnly, now), w.lu;
      LuStart();
      var l := luHead.luNext;
      while l != luHead
        invariant Valid() && w.acc.Keys == old(w.acc.Keys)
        invariant Suffix(rest, w.lu) && CanScan(w, rest) && l == FirstOr(rest, luHead)
        invariant all == Plus(FreeMemFrom(w, rest, target, expiredOnly, now), deleted)
        decreases |rest|
      {
        if memUsed <= target {
          FreeMemEnd(w, rest, target, expiredOnly, now);
          return;
        }
        var tmp := l.luNext;
        LuNext(rest);
        LuPlace(w, rest);
        EvictOn(w, rest, expiredOnly, now);
        FreeMemTurn(w, rest, target, expiredOnly, now);
        EvictSuffix(w, rest, expiredOnly, now);
        var gone := EvictEntry(l, expiredOnly, now);
        if gone {
          deleted := deleted + 1;
        }
        l, rest := tmp, rest[1..];
      }
      LuEnd(rest);
      FreeMemEnd(w, rest, target, expiredOnly, now);
    }

    /** dns_cache_clean */
    method CleanCache(no: count, expiredOnly: bool, now: ticks) returns (deleted: nat)
      requires Valid()
      modifies this`w, this`memUsed, heads, luHead, w.acc.Keys
      ensures Valid() && w.acc.Keys == old(w.acc.Keys)
      ensures Evicted(w, deleted) == Clean(old(w), no, expiredOnly, now)
    {
      hide Inv, HashRing, LuRing, Evict, Evictable, Counted, Chained, HeadsApart, Loose, CleanFrom;
      var n := 0;
      deleted := 0;
      ScanAll(w);
      ghost var all, rest := Clean(w, no, expiredOnly, now), w.lu;
      LuStart();
      var l := luHead.luNext;
      while l != luHead
        invariant Valid() && w.acc.Keys == old(w.acc.Keys) && n >= 0
        invariant Suffix(rest, w.lu) && CanScan(w, rest) && l == FirstOr(rest, luHead)
        invariant all == Plus(CleanFrom(w, rest, n, no, expiredOnly, now), deleted)
        decreases |rest|
      {
        var tmp := l.luNext;
        LuNext(rest);
        LuPlace(w, rest);
        EvictOn(w, rest, expiredOnly, now);
        CleanTurn(w, rest, n, no, expiredOnly, now);
        EvictSuffix(w, rest, expiredOnly, now);
        var gone := EvictEntry(l, expiredOnly, now);
        if gone {
          deleted := deleted + 1;
        }
        n := n + 1;
        if n >= no {
          return;
        }
        l, rest := tmp, rest[1..];
      }
      LuEnd(rest);
      CleanEnd(w, n, no, expiredOnly, now);
    }

    lemma LuStart()
      requires Valid()
      ensures luHead.luNext == FirstOr(w.lu, luHead)
    {
      hide Inv;
    }

    // ----- putting entries in, references -----

    /** Appends `e` to its chain and to the last-used list; the ghost state is not yet updated. */
    method LinkBoth(e: Entry, h: nat)
      requires Valid() && h < |heads| && e !in w.acc && e !in heads && e != luHead
      modifies heads, luHead, w.acc.Keys, e`next, e`prev, e`luNext, e`luPrev
      ensures HashRing(heads[h], w.chains[h] + [e]) && LuRing(luHead, w.lu + [e])
      ensures forall g :: 0 <= g < |heads| && g != h ==> HashRing(heads[g], w.chains[g])
      ensures Counted() && Loose()
    {
      hide Inv, LuRing, Succ, Pred, Counted, Loose;
      InAccountsAll(w);
      assert ChainedAt(h);
      AppendHash(e, h);
      LuAppend(luHead, e, w.lu);
    }

    method AppendHash(e: Entry, h: nat)
      requires Valid() && h < |heads| && e !in w.acc && e !in heads
      modifies heads`next, heads`prev, w.acc.Keys`next, e`next, e`prev
      ensures HashRing(heads[h], w.chains[h] + [e])
      ensures forall g :: 0 <= g < |heads| && g != h ==> HashRing(heads[g], w.chains[g])
      ensures Loose()
    {
      InAccounts(w, h);
      assert ChainedAt(h);
      assert ChainAgrees(w, h);
      HashAppend(heads[h], e, w.chains[h]);
      forall g | 0 <= g < |heads| && g != h ensures HashRing(heads[g], w.chains[g]) {
        assert old(ChainedAt(g));
        RingsAreApart(g, h);
        InAccounts(w, g);
        ghost var s := w.chains[g];
        forall k | 0 <= k < |s| ensures s[k].next == old(s[k].next) {
          assert s[k] in s;
        }
        forall k | 0 <= k < |s| ensures s[k].prev == old(s[k].prev) {
          assert s[k] in s;
        }
      }
    }

    lemma LinkedValid(v: World, e: Entry, h: nat, held: nat)
      requires Inv(v) && HashInRange(v) && h < |heads| == |v.chains| && e !in v.acc && h == Bucket(v, e.name)
      requires w == Link(v, e, held) && Inv(w)
      requires HashRing(heads[h], v.chains[h] + [e]) && LuRing(luHead, v.lu + [e])
      requires forall g :: 0 <= g < |heads| && g != h ==> HashRing(heads[g], v.chains[g])
      ensures Chained() && LuRing(luHead, w.lu)
    {
      hide HashRing, LuRing, Inv;
      forall g | 0 <= g < |heads| ensures ChainedAt(g) {
        assert w.chains[g] == if g == h then v.chains[h] + [e] else v.chains[g];
      }
    }

    /** dns_cache_add_unsafe. The entry's own count says how many references its maker holds. */
    method AddEntry(e: Entry, maxMem: int, delNonexp: bool, now: ticks) returns (ok: bool)
      requires Valid() && e !in w.acc && e !in heads && e != luHead && e.refcnt >= 0 && !e.freed
      modifies this`w, this`memUsed, heads, luHead, w.acc.Keys, e
      ensures Valid() && Added(w, ok) == Add(old(w), e, old(e.refcnt), maxMem, delNonexp, now)
    {
      hide Inv, HashRing, LuRing, FreeMemFrom, Chained, Counted;
      if memUsed + e.size >= maxMem {
        var _ := FreeMemory(memUsed / 16 * 14, !delNonexp, now);
        if memUsed + e.size >= maxMem {
          return false;
        }
      }
      LinkEntry(e);
      return true;
    }

    method LinkEntry(e: Entry)
      requires Valid() && e !in w.acc && e !in heads && e != luHead && e.refcnt >= 0 && !e.freed
      modifies this`w, this`memUsed, heads, luHead, w.acc.Keys, e
      ensures Valid() && HashInRange(old(w)) && w == Link(old(w), e, old(e.refcnt))
    {
      hide Inv, HashRing, LuRing, Lower;
      InHash(w, e.name);
      RangeOf(w);
      LinkInv(w, e, e.refcnt);
      ghost var v, held := w, e.refcnt;
      var h := hash(Lower(e.name));
      LinkBoth(e, h);
      e.refcnt := e.refcnt + 1;
      memUsed := memUsed + e.size;
      w := Link(w, e, held);
      LinkedValid(v, e, h, held);
    }

    /** Only the account of `e` differs, and its fields follow. */
    lemma AccountValid(v: World, e: Entry)
      requires Inv(v) && v.hash == hash && |heads| == |v.chains| && memUsed == v.mem && e in v.acc
      requires Inv(w) && w.hash == v.hash && w.chains == v.chains && w.lu == v.lu && w.mem == v.mem
      requires e in w.acc && w.acc == v.acc[e := w.acc[e]]
      requires e.refcnt == w.acc[e].rc && (e.freed <==> w.acc[e].destroyed > 0) && OthersCounted(v, e)
      requires LuRing(luHead, v.lu) && ChainsIn(v) && LooseIn(v) && ApartIn(v)
      ensures Valid()
    {
      hide Inv, HashRing, LuRing;
      forall h | 0 <= h < |heads| ensures ChainedAt(h) {
      }
    }

    lemma AllRings()
      requires Valid()
      ensures ChainsIn(w)
    {
      hide Inv, HashRing;
      InAccountsAll(w);
      forall h | 0 <= h < |heads| ensures HashRing(heads[h], w.chains[h]) {
        assert ChainedAt(h);
      }
    }

    /** A user takes another reference to an entry that is alive. */
    method TakeRef(e: Entry)
      requires Valid() && e in w.acc && w.acc[e].rc > 0
      modifies this`w, e`refcnt
      ensures Valid() && w == Inc(old(w), e)
    {
      hide Inv, HashRing, LuRing, ChainsIn, LooseIn, OthersCounted;
      AllRings();
      CountedOthers(e);
      IncInv(w, e);
      AliveCount(w, e);
      ghost var v := w;
      e.refcnt := e.refcnt + 1;
      w := Inc(w, e);
      AccountValid(v, e);
    }

    /** dns_hash_put by a user that holds a reference */
    method PutRef(e: Entry)
      requires Valid() && e in w.acc && w.acc[e].held > 0
      modifies this`w, e`refcnt, e`freed
      ensures Valid() && w == Put(old(w), e)
      ensures e.freed <==> w.acc[e].rc == 0
    {
      hide Inv, HashRing, LuRing, ChainsIn, LooseIn, OthersCounted;
      AllRings();
      CountedOthers(e);
      PutInv(w, e);
      HeldMeansCounted(w, e);
      AliveCount(w, e);
      ghost var v := w;
      DropRef(e);
      w := Put(w, e);
      AccountValid(v, e);
    }

    /** dns_hash_get */
    method HashGet(name: string, rtype: int, now: ticks) returns (ret: Entry?, err: bool)
      requires Valid()
      modifies this`w, this`memUsed, heads, luHead, w.acc.Keys
      ensures Valid() && Found(w, ToOption(ret), err) == GetEntry(old(w), name, rtype, now)
      ensures ret != null ==> !ret.freed && !Expired(ret, now)
    {
      hide Inv, HashRing, LuRing, Find, Expired, Counted, Chained;
      FindResult(w, name, rtype, now);
      ret, err := HashFind(name, rtype, now);
      if ret != null {
        LinkedIsCounted(w, ret);
        LinkedIsAlive(ret);
        TakeRef(ret);
      }
    }

    /** The locked part of dns_cache_delete_record */
    method DeleteEntry(name: string, rtype: int, now: ticks) returns (found: bool, permanent: bool)
      requires Valid()
      modifies this`w, this`memUsed, heads, luHead, w.acc.Keys
      ensures Valid() && w == DeleteRecord(old(w), name, rtype, now)
      ensures var r := Lookup(old(w), name, rtype, now).ret;
              && (found <==> r.Some? && r.value.rtype == rtype)
              && (permanent <==> found && r.value.permanent)
    {
      hide Inv, HashRing, LuRing, Find, Expired, Lookup, Remove;
      FindResult(w, name, rtype, now);
      FindIsLookup(w, name, rtype, now);
      found, permanent := false, false;
      var e, _ := HashFind(name, rtype, now);
      if e != null && e.rtype == rtype {
        if !e.permanent {
          RemoveEntry(e);
        } else {
          permanent := true;
        }
        found := true;
      }
    }

    /** Null links tell an entry that is out of the lists. */
    lemma LinksTell(e: Entry)
      requires Valid() && e in w.acc
      ensures e.prev == null <==> e !in w.lu
    {
      hide CountsAgree, Lower;
      if e in w.lu {
        var h := Bucket(w, e.name);
        assert ChainedAt(h);
        var i :| 0 <= i < |w.chains[h]| && w.chains[h][i] == e;
        assert w.chains[h][i].prev == Pred(heads[h], w.chains[h], i);
      }
    }

    /** The end of dns_cache_add_record: the new entry takes the place of the old one. `crashed` says
        that unlinking the old one would follow its null link, and the state is the one before. */
    method ReplaceWith(was: Entry, e: Entry, maxMem: int, delNonexp: bool, now: ticks) returns (ok: bool, crashed: bool)
      requires Valid() && e !in heads && e != luHead && e.refcnt == 0 && !e.freed && CanReplace(w, was, e)
      modifies this`w, this`memUsed, heads, luHead, w.acc.Keys, e
      ensures Valid() && ok == Add(old(w), e, 0, maxMem, delNonexp, now).ok
      ensures var r := ReplaceEntry(old(w), was, e, maxMem, delNonexp, now);
              if crashed then r == NullLink && w == Add(old(w), e, 0, maxMem, delNonexp, now).w else r == Goes(w)
    {
      hide Inv, HashRing, LuRing, Add, Remove, Counted, Chained, Loose;
      AddHolds(w, e, 0, maxMem, delNonexp, now, was);
      AddResult(w, e, 0, maxMem, delNonexp, now);
      crashed := false;
      ok := AddEntry(e, maxMem, delNonexp, now);
      RemovedHeld(w, was);
      LinksTell(was);
      if ok {
        if was.prev == null {
          crashed := true;
          return;
        }
        RemoveEntry(was);
      }
      PutRef(was);
    }

    /** dns_cache_flush */
    method FlushCache(delPermanent: bool)
      requires Valid()
      modifies this`w, this`memUsed, heads, luHead, w.acc.Keys
      ensures Valid() && w == Flush(old(w), delPermanent)
    {
      hide Inv, HashRing, LuRing, FlushFrom, FlushChain, FlushEntry, Counted, Chained, HeadsApart, Loose;
      ghost var all := Flush(w, delPermanent);
      var h := 0;
      while h < |heads|
        invariant Valid() && w.acc.Keys == old(w.acc.Keys) && 0 <= h <= |heads|
        invariant all == FlushFrom(w, h, delPermanent)
      {
        ScanChain(w, h);
        FlushFromTurn(w, h, delPermanent);
        FlushBucket(h, delPermanent);
        h := h + 1;
      }
      FlushFromEnd(w, delPermanent);
    }

    method FlushBucket(h: nat, delPermanent: bool)
      requires Valid() && h < |heads|
      modifies this`w, this`memUsed, heads, luHead, w.acc.Keys
      ensures Valid() && w.acc.Keys == old(w.acc.Keys)
      ensures CanScan(old(w), old(w.chains[h])) && w == FlushChain(old(w), old(w.chains[h]), delPermanent)
    {
      hide Inv, HashRing, LuRing, FlushChain, FlushEntry, Counted, Chained, HeadsApart, Loose;
      ScanChain(w, h);
      ChainStart(h);
      ghost var all, rest := FlushChain(w, w.chains[h], delPermanent), w.chains[h];
      var e := heads[h].next;
      while e != heads[h]
        invariant Valid() && w.acc.Keys == old(w.acc.Keys)
        invariant Suffix(rest, w.chains[h]) && CanScan(w, rest) && e == FirstOr(rest, heads[h])
        invariant all == FlushChain(w, rest, delPermanent)
        decreases |rest|
      {
        var tmp := e.next;
        ChainNext(h, rest);
        ScanPlace(w, h, rest);
        FlushOn(w, rest, delPermanent);
        FlushTurn(w, rest, delPermanent);
        FlushSuffix(w, h, rest, delPermanent);
        if delPermanent || !e.permanent {
          RemoveEntry(e);
        }
        e, rest := tmp, rest[1..];
      }
      ChainEnd(h, rest);
      FlushEnd(w, delPermanent);
    }
  }

  lemma AliveCount(w: World, e: Entry)
    requires Inv(w) && e in w.acc && w.acc[e].rc > 0
    ensures w.acc[e].destroyed == 0
  {
  }

  lemma RemovedHeld(w: World, e: Entry)
    requires Inv(w) && e in w.acc && HashInRange(w)
    ensures e in Remove(w, e).acc && Remove(w, e).acc[e].held == w.acc[e].held
  {
  }

  lemma FlushFromEnd(w: World, delPermanent: bool)
    requires Inv(w)
    ensures FlushFrom(w, |w.chains|, delPermanent) == w
  {
  }

  lemma FlushFromTurn(w: World, h: nat, delPermanent: bool)
    requires Inv(w) && h < |w.chains| && CanScan(w, w.chains[h])
    ensures var v := FlushChain(w, w.chains[h], delPermanent);
            && Inv(v) && |v.chains| == |w.chains|
            && FlushFrom(w, h, delPermanent) == FlushFrom(v, h + 1, delPermanent)
  {
    hide Inv, FlushChain;
    FlushChainLeaves(w, w.chains[h], delPermanent);
  }

  lemma FlushEnd(w: World, delPermanent: bool)
    requires CanScan(w, [])
    ensures FlushChain(w, [], delPermanent) == w
  {
  }

  lemma FlushTurn(w: World, rest: seq<Entry>, delPermanent: bool)
    requires CanScan(w, rest) && rest != [] && rest[0] in w.acc && HashInRange(w)
    requires CanScan(FlushEntry(w, rest[0], delPermanent), rest[1..])
    ensures FlushChain(w, rest, delPermanent)
            == FlushChain(FlushEntry(w, rest[0], delPermanent), rest[1..], delPermanent)
    ensures FlushEntry(w, rest[0], delPermanent)
         == if delPermanent || !rest[0].permanent then Remove(w, rest[0]) else w
  {
    hide Inv;
  }

  lemma FlushSuffix(w: World, h: nat, rest: seq<Entry>, delPermanent: bool)
    requires Inv(w) && h < |w.chains| && Suffix(rest, w.chains[h]) && rest != []
    requires rest[0] in w.acc && HashInRange(w) && Bucket(w, rest[0].name) == h
    ensures var v := FlushEntry(w, rest[0], delPermanent);
            Suffix(rest[1..], v.chains[h]) && |v.chains| == |w.chains| && v.acc.Keys == w.acc.Keys
  {
    hide CountsAgree;
    assert ChainAgrees(w, h);
    SuffixMinus(rest, w.chains[h]);
  }

  lemma RangeOf(w: World)
    requires Inv(w)
    ensures HashInRange(w)
  {
  }

  lemma LuPlace(w: World, rest: seq<Entry>)
    requires Suffix(rest, w.lu) && rest != []
    ensures rest[0] in w.lu && Suffix(rest[1..], w.lu)
  {
    assert rest[0] == w.lu[|w.lu| - |rest|];
  }

  lemma EvictSuffix(w: World, rest: seq<Entry>, expiredOnly: bool, now: ticks)
    requires Inv(w) && Suffix(rest, w.lu) && rest != [] && rest[0] in w.acc && HashInRange(w)
    ensures var v := Evict(w, rest[0], expiredOnly, now); Suffix(rest[1..], v.lu) && v.acc.Keys == w.acc.Keys
  {
    hide CountsAgree, Evictable;
    LuPlace(w, rest);
    SuffixMinus(rest, w.lu);
  }

  lemma FreeMemEnd(w: World, rest: seq<Entry>, target: int, expiredOnly: bool, now: ticks)
    requires CanScan(w, rest) && (rest == [] || w.mem <= target)
    ensures FreeMemFrom(w, rest, target, expiredOnly, now) == Evicted(w, 0)
  {
  }

  lemma FreeMemTurn(w: World, rest: seq<Entry>, target: int, expiredOnly: bool, now: ticks)
    requires CanScan(w, rest) && rest != [] && w.mem > target && rest[0] in w.acc && HashInRange(w)
    requires CanScan(Evict(w, rest[0], expiredOnly, now), rest[1..])
    ensures FreeMemFrom(w, rest, target, expiredOnly, now)
         == Plus(FreeMemFrom(Evict(w, rest[0], expiredOnly, now), rest[1..], target, expiredOnly, now),
                 Tally(w, rest[0], expiredOnly, now))
  {
    hide Inv, Evict;
  }

  lemma CleanEnd(w: World, n: nat, no: count, expiredOnly: bool, now: ticks)
    requires CanScan(w, [])
    ensures CleanFrom(w, [], n, no, expiredOnly, now) == Evicted(w, 0)
  {
  }

  lemma CleanTurn(w: World, rest: seq<Entry>, n: nat, no: count, expiredOnly: bool, now: ticks)
    requires CanScan(w, rest) && rest != [] && rest[0] in w.acc && HashInRange(w)
    requires CanScan(Evict(w, rest[0], expiredOnly, now), rest[1..])
    ensures var v := Evict(w, rest[0], expiredOnly, now);
            CleanFrom(w, rest, n, no, expiredOnly, now)
            == Plus(if n + 1 >= no then Evicted(v, 0) else CleanFrom(v, rest[1..], n + 1, no, expiredOnly, now),
                    Tally(w, rest[0], expiredOnly, now))
  {
    hide Inv, Evict;
  }

  // ----- one turn of the search, unfolded -----

  lemma FindEnd(w: World, name: Asked, rtype: int, now: ticks, hops: nat, last: Option<Entry>)
    requires hops <= MAX_CNAME_CHAIN + 1 && CanScan(w, [])
    ensures FindFrom(w, [], name, rtype, now, hops, last) == Found(w, last, false)
  {
  }

  lemma FindExpired(w: World, rest: seq<Entry>, name: Asked, rtype: int, now: ticks, hops: nat, last: Option<Entry>)
    requires hops <= MAX_CNAME_CHAIN + 1 && CanScan(w, rest) && rest != [] && Expired(rest[0], now)
    ensures rest[0] in w.acc && HashInRange(w) && CanScan(Expire(w, rest[0], now), rest[1..])
    ensures FindFrom(w, rest, name, rtype, now, hops, last)
         == FindFrom(Expire(w, rest[0], now), rest[1..], name, rtype, now, hops, last)
  {
    hide Inv, Reached;
    ScanOn(w, rest, now);
  }

  lemma FindHit(w: World, rest: seq<Entry>, name: Asked, rtype: int, now: ticks, hops: nat, last: Option<Entry>)
    requires hops <= MAX_CNAME_CHAIN + 1 && CanScan(w, rest) && rest != []
    requires !Expired(rest[0], now) && rest[0].rtype == rtype && SameName(rest[0].name, name.text)
    ensures FindFrom(w, rest, name, rtype, now, hops, last) == Found(Touch(w, rest[0]), Some(rest[0]), false)
  {
    hide Inv, Reached;
  }

  lemma FindAlias(w: World, rest: seq<Entry>, name: Asked, rtype: int, now: ticks, hops: nat, last: Option<Entry>)
    requires hops <= MAX_CNAME_CHAIN + 1 && CanScan(w, rest) && rest != [] && !Expired(rest[0], now)
    requires PositiveCname(rest[0]) && SameName(rest[0].name, name.text) && rest[0].rtype != rtype
    ensures var e := rest[0]; var w' := Touch(w, e);
            && CanScan(w', NextChain(w'.hash, w'.chains, e, rest[1..]))
            && FindFrom(w, rest, name, rtype, now, hops, last)
               == if hops > MAX_CNAME_CHAIN then Found(w', None, true)
                  else FindFrom(w', NextChain(w'.hash, w'.chains, e, rest[1..]), NextName(e, name), rtype, now,
                                hops + 1, Some(e))
  {
    hide Inv, Reached;
    ScanOn(w, rest, now);
    ScanNext(Touch(w, rest[0]), rest[0], rest[1..]);
  }

  lemma FindOther(w: World, rest: seq<Entry>, name: Asked, rtype: int, now: ticks, hops: nat, last: Option<Entry>)
    requires hops <= MAX_CNAME_CHAIN + 1 && CanScan(w, rest) && rest != [] && !Expired(rest[0], now)
    requires !Matches(rest[0], name.text, rtype)
    ensures CanScan(w, rest[1..])
    ensures FindFrom(w, rest, name, rtype, now, hops, last) == FindFrom(w, rest[1..], name, rtype, now, hops, last)
  {
    hide Inv, Reached;
    ScanOn(w, rest, now);
  }

  lemma ScanPlace(w: World, h: nat, rest: seq<Entry>)
    requires Inv(w) && h < |w.chains| && Suffix(rest, w.chains[h]) && rest != []
    ensures rest[0] in w.lu && rest[0] in w.chains[h] && Bucket(w, rest[0].name) == h
    ensures Suffix(rest[1..], w.chains[h])
  {
    assert ChainAgrees(w, h);
    assert rest[0] == w.chains[h][|w.chains[h]| - |rest|];
  }

  lemma SuffixMinus(rest: seq<Entry>, s: seq<Entry>)
    requires Distinct(s) && Suffix(rest, s) && rest != []
    ensures Suffix(rest[1..], Minus(s, rest[0]))
  {
    var k := |s| - |rest|;
    assert s[k] == rest[0];
    MinusAt(s, k);
    assert Cut(s, k)[k..] == rest[1..];
  }

  lemma ExpireSuffix(w: World, h: nat, rest: seq<Entry>, now: ticks)
    requires Inv(w) && h < |w.chains| && Suffix(rest, w.chains[h]) && rest != []
    requires rest[0] in w.acc && HashInRange(w) && Bucket(w, rest[0].name) == h
    ensures var v := Expire(w, rest[0], now);
            Suffix(rest[1..], v.chains[h]) && |v.chains| == |w.chains| && v.acc.Keys == w.acc.Keys
  {
    hide CountsAgree, PastDelay;
    assert ChainAgrees(w, h);
    SuffixMinus(rest, w.chains[h]);
  }

  lemma TouchShape(w: World, e: Entry)
    ensures var v := Touch(w, e); v.chains == w.chains && v.hash == w.hash && v.acc == w.acc
  {
  }

  function ToOption(e: Entry?): (o: Option<Entry>)
  {
    if e == null then None else Some(e)
  }

  function FirstOr(s: seq<Entry>, head: Entry): (e: Entry)
  {
    if s == [] then head else s[0]
  }

  ghost predicate Suffix(rest: seq<Entry>, s: seq<Entry>)
  {
    |rest| <= |s| && s[|s| - |rest|..] == rest
  }

  lemma LuFacts(w: World, j: nat)
    requires Inv(w) && j < |w.lu|
    ensures Distinct(w.lu) && Minus(w.lu, w.lu[j]) == Cut(w.lu, j) && w.lu[j] !in Cut(w.lu, j)
    ensures forall e :: e in w.lu ==> e in w.acc
  {
    MinusAt(w.lu, j);
    MinusMembers(w.lu, w.lu[j]);
  }

  lemma LinkedPlace(w: World, e: Entry)
    requires Inv(w) && e in w.lu
    ensures HashInRange(w) && Bucket(w, e.name) < |w.chains| && e in w.chains[Bucket(w, e.name)]
  {
  }

  lemma RemovedShape(v: World, e: Entry)
    requires Inv(v) && e in v.acc && HashInRange(v)
    ensures var w := Remove(v, e);
            |w.chains| == |v.chains| && w.hash == v.hash && w.acc.Keys == v.acc.Keys && w.mem == v.mem - e.size
  {
  }

  lemma InAccountsAll(w: World)
    requires Inv(w)
    ensures forall h, e :: 0 <= h < |w.chains| && e in w.chains[h] ==> e in w.acc
    ensures forall e :: e in w.lu ==> e in w.acc
  {
    forall h, e | 0 <= h < |w.chains| && e in w.chains[h] ensures e in w.acc {
      assert ChainAgrees(w, h);
    }
  }

  lemma InAccounts(w: World, h: nat)
    requires Inv(w) && h < |w.chains|
    ensures forall e :: e in w.chains[h] ==> e in w.acc
  {
    assert ChainAgrees(w, h);
  }
}
