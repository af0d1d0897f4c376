/** The circular doubly linked lists of the DNS cache (src/core/clist.h), in place: the hash chains
    run through `next`/`prev`, the last-used list through `luNext`/`luPrev` of the same entries.
    A list head is an Entry of which only the links are used. */
module DnsRings {
  import opened Seqs
  import opened DnsModel

  function Succ(head: Entry, s: seq<Entry>, i: int): (e: Entry)
    requires -1 <= i < |s|
  {
    if i + 1 < |s| then s[i + 1] else head
  }

  function Pred(head: Entry, s: seq<Entry>, i: int): (e: Entry)
    requires 0 <= i <= |s|
  {
    if i > 0 then s[i - 1] else head
  }

  ghost predicate HashRing(head: Entry, s: seq<Entry>)
    reads head`next, head`prev, s`next, s`prev
  {
    && head !in s && Distinct(s)
    && head.next == Succ(head, s, -1) && head.prev == Pred(head, s, |s|)
    && (forall i {:trigger s[i].next} :: 0 <= i < |s| ==> s[i].next == Succ(head, s, i))
    && (forall i {:trigger s[i].prev} :: 0 <= i < |s| ==> s[i].prev == Pred(head, s, i))
  }

  ghost predicate LuRing(head: Entry, s: seq<Entry>)
    reads head`luNext, head`luPrev, s`luNext, s`luPrev
  {
    && head !in s && Distinct(s)
    && head.luNext == Succ(head, s, -1) && head.luPrev == Pred(head, s, |s|)
    && (forall i {:trigger s[i].luNext} :: 0 <= i < |s| ==> s[i].luNext == Succ(head, s, i))
    && (forall i {:trigger s[i].luPrev} :: 0 <= i < |s| ==> s[i].luPrev == Pred(head, s, i))
  }

  /** Neighbours after element `i` is cut out, in terms of the old positions. */
  lemma CutNeighbours(head: Entry, s: seq<Entry>, i: nat, k: nat)
    requires i < |s| && k < |s| - 1
    ensures var m := if k < i then k else k + 1;
            && Succ(head, Cut(s, i), k) == Succ(head, s, if k + 1 == i then i else m)
            && Pred(head, Cut(s, i), k) == Pred(head, s, if k == i then i else m)
  {
  }

  lemma CutEnds(head: Entry, s: seq<Entry>, i: nat)
    requires i < |s|
    ensures Succ(head, Cut(s, i), -1) == (if i == 0 then Succ(head, s, 0) else Succ(head, s, -1))
    ensures Pred(head, Cut(s, i), |s| - 1) == (if i == |s| - 1 then Pred(head, s, i) else Pred(head, s, |s|))
  {
  }

  /** Only the direct neighbours of element `i` are its neighbours. */
  lemma Apart(head: Entry, s: seq<Entry>, i: nat, m: nat)
    requires i < |s| && m < |s| && m != i && head !in s && Distinct(s)
    ensures s[m] != s[i]
    ensures s[m] == Pred(head, s, i) <==> m + 1 == i
    ensures s[m] == Succ(head, s, i) <==> m == i + 1
  {
    assert s[m] in s;
  }

  /** clist_append(head, c, next, prev) */
  method HashAppend(head: Entry, c: Entry, ghost s: seq<Entry>)
    requires HashRing(head, s) && c !in s && c != head
    modifies head`next, head`prev, s`next, c`next, c`prev
    ensures HashRing(head, s + [c])
  {
    c.prev := head.prev;
    c.next := head;
    c.prev.next := c;
    head.prev := c;
  }

  /** The links around element `i` skip it; all others are as before. */
  ghost predicate HashGap(head: Entry, s: seq<Entry>, i: nat)
    requires i < |s|
    reads head`next, head`prev, s`next, s`prev
  {
    && head !in s && Distinct(s)
    && head.next == (if i == 0 then Succ(head, s, 0) else Succ(head, s, -1))
    && head.prev == (if i == |s| - 1 then Pred(head, s, i) else Pred(head, s, |s|))
    && (forall m {:trigger s[m].next} :: 0 <= m < |s| && m != i ==>
          s[m].next == if m + 1 == i then Succ(head, s, i) else Succ(head, s, m))
    && (forall m {:trigger s[m].prev} :: 0 <= m < |s| && m != i ==>
          s[m].prev == if m == i + 1 then Pred(head, s, i) else Pred(head, s, m))
  }

  lemma HashGapCloses(head: Entry, s: seq<Entry>, i: nat)
    requires i < |s| && HashGap(head, s, i)
    ensures HashRing(head, Cut(s, i))
  {
    CutDistinct(s, i);
    CutEnds(head, s, i);
    CutMembers(s, i);
    var t := Cut(s, i);
    forall k | 0 <= k < |t| ensures t[k].next == Succ(head, t, k) && t[k].prev == Pred(head, t, k) {
      CutAt(s, i, k);
      CutNeighbours(head, s, i, k);
    }
  }

  /** clist_rm(c, next, prev) */
  method HashRm(c: Entry, ghost head: Entry, ghost s: seq<Entry>, ghost i: nat)
    requires HashRing(head, s) && i < |s| && s[i] == c
    modifies head`next, head`prev, s`next, s`prev
    ensures HashRing(head, Cut(s, i)) && c.next == null && c.prev == null
  {
    ghost var p, n := Pred(head, s, i), Succ(head, s, i);
    assert c.prev == p && c.next == n && c != p && c != n;
    c.prev.next := c.next;
    c.next.prev := c.prev;
    c.prev := null;
    c.next := null;
    forall m | 0 <= m < |s| && m != i
      ensures s[m].next == (if m + 1 == i then n else Succ(head, s, m))
      ensures s[m].prev == (if m == i + 1 then p else Pred(head, s, m))
    {
      Apart(head, s, i, m);
    }
    HashGapCloses(head, s, i);
  }

  /** clist_append(head, &c->last_used_lst, next, prev) */
  method LuAppend(head: Entry, c: Entry, ghost s: seq<Entry>)
    requires LuRing(head, s) && c !in s && c != head
    modifies head`luNext, head`luPrev, s`luNext, c`luNext, c`luPrev
    ensures LuRing(head, s + [c])
  {
    c.luPrev := head.luPrev;
    c.luNext := head;
    c.luPrev.luNext := c;
    head.luPrev := c;
  }

  /** The links around element `i` skip it; all others are as before. */
  ghost predicate LuGap(head: Entry, s: seq<Entry>, i: nat)
    requires i < |s|
    reads head`luNext, head`luPrev, s`luNext, s`luPrev
  {
    && head !in s && Distinct(s)
    && head.luNext == (if i == 0 then Succ(head, s, 0) else Succ(head, s, -1))
    && head.luPrev == (if i == |s| - 1 then Pred(head, s, i) else Pred(head, s, |s|))
    && (forall m {:trigger s[m].luNext} :: 0 <= m < |s| && m != i ==>
          s[m].luNext == if m + 1 == i then Succ(head, s, i) else Succ(head, s, m))
    && (forall m {:trigger s[m].luPrev} :: 0 <= m < |s| && m != i ==>
          s[m].luPrev == if m == i + 1 then Pred(head, s, i) else Pred(head, s, m))
  }

  lemma LuGapCloses(head: Entry, s: seq<Entry>, i: nat)
    requires i < |s| && LuGap(head, s, i)
    ensures LuRing(head, Cut(s, i))
  {
    CutDistinct(s, i);
    CutEnds(head, s, i);
    CutMembers(s, i);
    var t := Cut(s, i);
    forall k | 0 <= k < |t| ensures t[k].luNext == Succ(head, t, k) && t[k].luPrev == Pred(head, t, k) {
      CutAt(s, i, k);
      CutNeighbours(head, s, i, k);
    }
  }

  /** clist_rm(&c->last_used_lst, next, prev) */
  method LuRm(c: Entry, ghost head: Entry, ghost s: seq<Entry>, ghost i: nat)
    requires LuRing(head, s) && i < |s| && s[i] == c
    modifies head`luNext, head`luPrev, s`luNext, s`luPrev
    ensures LuRing(head, Cut(s, i)) && c.luNext == null && c.luPrev == null
  {
    ghost var p, n := Pred(head, s, i), Succ(head, s, i);
    assert c.luPrev == p && c.luNext == n && c != p && c != n;
    c.luPrev.luNext := c.luNext;
    c.luNext.luPrev := c.luPrev;
    c.luPrev := null;
    c.luNext := null;
    forall m | 0 <= m < |s| && m != i
      ensures s[m].luNext == (if m + 1 == i then n else Succ(head, s, m))
      ensures s[m].luPrev == (if m == i + 1 then p else Pred(head, s, m))
    {
      Apart(head, s, i, m);
    }
    LuGapCloses(head, s, i);
  }
}
