/** Keeping the SRV records of an entry ordered (src/core/dns_cache.c): a new or changed
    record is moved to its place by rewriting `next` links in place. */
module SrvOrder {
  import opened Seqs

  class Rr {
    const priority: int  // as stored: 16 bits
    const weight: int
    var next: Rr?

    constructor (priority: int, weight: int)
      ensures this.priority == priority % 65536 && this.weight == weight % 65536 && next == null
    {
      this.priority, this.weight, next := priority % 65536, weight % 65536, null;
    }
  }

  // ----- the order -----

  /** Does a record with this priority and weight belong in front of `r`? */
  predicate Before(priority: int, weight: int, r: Rr)
  {
    priority < r.priority || (priority == r.priority && weight > r.weight)
  }

  /** Priority ascending, and weight descending within a priority. */
  ghost predicate Ordered(s: seq<Rr>)
  {
    forall i, j :: 0 <= i < j < |s| ==>
      s[i].priority < s[j].priority || (s[i].priority == s[j].priority && s[i].weight >= s[j].weight)
  }

  /** No record belongs in front of an earlier one. */
  ghost predicate NoneEarly(s: seq<Rr>)
  {
    forall i, j :: 0 <= i < j < |s| ==> !Before(s[j].priority, s[j].weight, s[i])
  }

  lemma OrderedMeans(s: seq<Rr>)
    ensures Ordered(s) <==> NoneEarly(s)
  {
    if NoneEarly(s) {
      forall i, j | 0 <= i < j < |s|
        ensures s[i].priority < s[j].priority || (s[i].priority == s[j].priority && s[i].weight >= s[j].weight)
      {
        assert !Before(s[j].priority, s[j].weight, s[i]);
      }
    }
  }

  /** How many leading records stay in front of the given priority and weight. */
  function Rank(s: seq<Rr>, priority: int, weight: int): (k: nat)
    ensures k <= |s|
    ensures forall i :: 0 <= i < k ==> !Before(priority, weight, s[i])
    ensures k < |s| ==> Before(priority, weight, s[k])
  {
    if s == [] || Before(priority, weight, s[0]) then 0 else 1 + Rank(s[1..], priority, weight)
  }

  lemma {:induction false} RankUnique(s: seq<Rr>, priority: int, weight: int, k: nat)
    requires k <= |s| && forall i :: 0 <= i < k ==> !Before(priority, weight, s[i])
    requires k < |s| ==> Before(priority, weight, s[k])
    ensures Rank(s, priority, weight) == k
  {
    if k > 0 {
      RankUnique(s[1..], priority, weight, k - 1);
    }
  }

  function Placed(others: seq<Rr>, r: Rr, priority: int, weight: int): (s: seq<Rr>)
  {
    var k := Rank(others, priority, weight);
    others[..k] + [r] + others[k..]
  }

  lemma PlacedMultiset(others: seq<Rr>, r: Rr, k: nat)
    requires k <= |others|
    ensures multiset(others[..k] + [r] + others[k..]) == multiset(others) + multiset{r}
  {
    assert others == others[..k] + others[k..];
  }

  /** A record goes behind those of lower priority number, and behind those of its own priority that have as much
      weight or more; the others keep their order. */
  lemma PlacedExactly(others: seq<Rr>, r: Rr, priority: int, weight: int, i: nat)
    requires Ordered(others) && i < |others|
    ensures var s := Placed(others, r, priority, weight); var x := others[i];
            var k := if x.priority < priority || (x.priority == priority && x.weight >= weight) then i else i + 1;
            |s| == |others| + 1 && s[k] == x
  {
    var k := Rank(others, priority, weight);
    assert k < i ==> Before(priority, weight, others[k]);
  }

  /** The passed values sort `r` and `x` in an order that their stored values allow. */
  predicate Agrees(priority: int, weight: int, r: Rr, x: Rr)
  {
    if Before(priority, weight, x) then !Before(x.priority, x.weight, r)
    else !Before(r.priority, r.weight, x)
  }

  /** Putting a record at its rank among ordered records keeps the order if and only if the
      values used for the comparison and the stored ones agree about every other record. */
  lemma PlacedOrdered(others: seq<Rr>, r: Rr, priority: int, weight: int)
    requires Ordered(others)
    ensures Ordered(Placed(others, r, priority, weight))
       <==> forall i :: 0 <= i < |others| ==> Agrees(priority, weight, r, others[i])
  {
    hide Ordered;
    var k, s := Rank(others, priority, weight), Placed(others, r, priority, weight);
    OrderedMeans(others);
    OrderedMeans(s);
    forall i | k <= i < |others| ensures Before(priority, weight, others[i]) {
      assert i == k || !Before(others[i].priority, others[i].weight, others[k]);
    }
    if forall i :: 0 <= i < |others| ==> Agrees(priority, weight, r, others[i]) {
      PlacedSorted(others, r, k);
    }
    if NoneEarly(s) {
      forall i | 0 <= i < |others| ensures Agrees(priority, weight, r, others[i]) {
        assert others[i] == s[if i < k then i else i + 1] && s[k] == r;
      }
    }
  }

  lemma PlacedSorted(others: seq<Rr>, r: Rr, k: nat)
    requires NoneEarly(others) && k <= |others|
    requires forall i :: 0 <= i < k ==> !Before(r.priority, r.weight, others[i])
    requires forall i :: k <= i < |others| ==> !Before(others[i].priority, others[i].weight, r)
    ensures NoneEarly(others[..k] + [r] + others[k..])
  {
    hide Before;
    var s := others[..k] + [r] + others[k..];
    forall i, j | 0 <= i < j < |s| ensures !Before(s[j].priority, s[j].weight, s[i]) {
      var a, b := if i < k then i else i - 1, if j < k then j else j - 1;
      if i == k {
        assert s[j] == others[b];
      } else if j == k {
        assert s[i] == others[i];
      } else {
        assert s[i] == others[a] && s[j] == others[b];
      }
    }
  }

  ghost predicate InRange(priority: int, weight: int)
  {
    0 <= priority < 65536 && 0 <= weight < 65536
  }

  /** A priority outside 16 bits is compared as given but stored cut: then the order can break. */
  lemma OutOfRangeBreaksOrder(low: Rr, r: Rr, priority: int)
    requires priority == 65536 && r.priority == priority % 65536 && low.priority == 10
    ensures Ordered([low]) && !Ordered(Placed([low], r, priority, r.weight))
  {
    var s := Placed([low], r, priority, r.weight);
    assert s[0] == low && s[1] == r;
  }

  // ----- the linked list -----

  /** A place that holds a record pointer: the list head or the `next` field of a record. */
  datatype Link = Head | NextOf(node: Rr)

  class RrList {
    var first: Rr?
    ghost var nodes: seq<Rr>

    ghost predicate Valid()
      reads this, nodes
    {
      && Distinct(nodes)
      && first == (if nodes == [] then null else nodes[0])
      && forall i {:trigger nodes[i].next} :: 0 <= i < |nodes| ==>
           nodes[i].next == if i + 1 < |nodes| then nodes[i + 1] else null
    }

    constructor ()
      ensures Valid() && nodes == []
    {
      first, nodes := null, [];
    }

    /** The place that points to position `i`. */
    ghost function LinkAt(i: nat): (l: Link)
      reads this
      requires i <= |nodes|
    {
      if i == 0 then Head else NextOf(nodes[i - 1])
    }

    function Load(l: Link): (r: Rr?)
      reads this, if l.NextOf? then {l.node} else {}
    {
      if l.Head? then first else l.node.next
    }

    method Store(l: Link, r: Rr?)
      modifies this`first, (if l.NextOf? then {l.node} else {})`next
      ensures l.Head? ==> first == r
      ensures l.NextOf? ==> first == old(first) && l.node.next == r
    {
      if l.Head? {
        first := r;
      } else {
        l.node.next := r;
      }
    }

    /** The scan for the first other record that must come after, noting `newRr` on the way. */
    method FindPlace(newRr: Rr, priority: int, weight: int, ghost p: nat)
      returns (rrIter: Link, rrP: Link, known: bool, ghost i: nat)
      requires Valid() && p < |nodes| && nodes[p] == newRr
      ensures i <= |nodes| && i != p && rrIter == LinkAt(i)
      ensures known <==> p < i
      ensures known ==> rrP == LinkAt(p)
      ensures forall k :: 0 <= k < i && k != p ==> !Before(priority, weight, nodes[k])
      ensures i < |nodes| ==> Before(priority, weight, nodes[i])
    {
      rrP, known, rrIter, i := Head, false, Head, 0;
      while Load(rrIter) != null
        invariant i <= |nodes| && rrIter == LinkAt(i)
        invariant known <==> p < i
        invariant known ==> rrP == LinkAt(p)
        invariant forall k :: 0 <= k < i && k != p ==> !Before(priority, weight, nodes[k])
        decreases |nodes| - i
      {
        var crt := Load(rrIter);
        assert crt == nodes[i];
        if crt == newRr {
          rrP, known := rrIter, true;
        } else if Before(priority, weight, crt) {
          return;
        }
        rrIter := NextOf(crt);
        i := i + 1;
      }
    }

    /** The second scan, from the insertion place on, for the link to `newRr`. */
    method FindSelf(newRr: Rr, from: Link, ghost i: nat, ghost p: nat) returns (rrP: Link)
      requires Valid() && i <= p < |nodes| && nodes[p] == newRr && from == LinkAt(i)
      ensures rrP == LinkAt(p)
    {
      rrP := from;
      ghost var j := i;
      while Load(rrP) != null && Load(rrP) != newRr
        invariant i <= j <= p && rrP == LinkAt(j)
        decreases p - j
      {
        rrP := NextOf(Load(rrP));
        j := j + 1;
      }
    }

    /** *rr_p = (*rr_p)->next */
    method Unlink(rrP: Link, ghost p: nat)
      requires Valid() && p < |nodes| && rrP == LinkAt(p)
      modifies this, nodes
      ensures Valid() && nodes == Cut(old(nodes), p)
    {
      var r := Load(rrP);
      assert r == nodes[p];
      Store(rrP, r.next);
      ghost var was := nodes;
      nodes := Cut(nodes, p);
      assert forall k :: 0 <= k < |nodes| ==> nodes[k] == if k < p then was[k] else was[k + 1];
    }

    /** new_rr->next = *rr_iter; *rr_iter = new_rr */
    method Link(rrIter: Link, r: Rr, ghost k: nat)
      requires Valid() && k <= |nodes| && rrIter == LinkAt(k) && r !in nodes
      modifies this, nodes, r
      ensures Valid() && nodes == old(nodes[..k] + [r] + nodes[k..])
    {
      r.next := Load(rrIter);
      Store(rrIter, r);
      ghost var was := nodes;
      nodes := nodes[..k] + [r] + nodes[k..];
      assert forall j :: 0 <= j < |nodes| ==> nodes[j] == if j < k then was[j] else if j == k then r else was[j - 1];
    }

    /** Moves `newRr`, whose stored values were already updated, to its place.
        `priority` and `weight` are the values the caller passed, not yet cut to 16 bits. */
    method Reorder(newRr: Rr, priority: int, weight: int, ghost p: nat)
      requires Valid() && p < |nodes| && nodes[p] == newRr
      modifies this, nodes
      ensures Valid()
      ensures nodes == Placed(Cut(old(nodes), p), newRr, priority, weight)
    {
      var rrIter, rrP, known;
      ghost var i;
      rrIter, rrP, known, i := FindPlace(newRr, priority, weight, p);
      PlaceIsRank(nodes, p, i, priority, weight);
      if !known {
        rrP := FindSelf(newRr, rrIter, i, p);
      }
      if Load(rrIter) != newRr.next {
        ghost var k := if p < i then i - 1 else i;
        Unlink(rrP, p);
        Link(rrIter, newRr, k);
      }
    }
  }

  lemma PlaceIsRank(s: seq<Rr>, p: nat, i: nat, priority: int, weight: int)
    requires p < |s| && i <= |s| && i != p
    requires forall k :: 0 <= k < i && k != p ==> !Before(priority, weight, s[k])
    requires i < |s| ==> Before(priority, weight, s[i])
    ensures Rank(Cut(s, p), priority, weight) == if p < i then i - 1 else i
    ensures i == p + 1 ==> Placed(Cut(s, p), s[p], priority, weight) == s
  {
    hide Before, Rank;
    var k := if p < i then i - 1 else i;
    forall j | 0 <= j < |s| - 1 ensures Cut(s, p)[j] == s[if j < p then j else j + 1] {
      CutAt(s, p, j);
    }
    RankUnique(Cut(s, p), priority, weight, k);
    if i == p + 1 {
      TakenBack(s, p);
    }
  }

  /** With values that fit 16 bits the move restores the order. */
  lemma ReorderOrdered(s: seq<Rr>, p: nat, priority: int, weight: int)
    requires p < |s| && Ordered(Cut(s, p)) && InRange(priority, weight)
    requires s[p].priority == priority % 65536 && s[p].weight == weight % 65536
    ensures Ordered(Placed(Cut(s, p), s[p], priority, weight))
  {
    hide Ordered, Placed;
    PlacedOrdered(Cut(s, p), s[p], priority, weight);
  }

  /** The move loses and invents no record. */
  lemma ReorderPermutes(s: seq<Rr>, p: nat, priority: int, weight: int)
    requires p < |s|
    ensures multiset(Placed(Cut(s, p), s[p], priority, weight)) == multiset(s)
  {
    var others := Cut(s, p);
    PlacedMultiset(others, s[p], Rank(others, priority, weight));
    PlacedMultiset(others, s[p], p);
    TakenBack(s, p);
  }

  lemma TakenBack(s: seq<Rr>, p: nat)
    requires p < |s|
    ensures s == Cut(s, p)[..p] + [s[p]] + Cut(s, p)[p..]
  {
  }
}
