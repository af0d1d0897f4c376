/** A bucket of the destination blocklist in place (src/core/dst_blocklist.c:111-121, 524-611): a singly
    linked list, walked and cut through the place that holds the pointer to the current entry. */
module BlocklistChain {
  import opened Seqs
  import opened Blocklist

  /** struct dst_blst_entry in memory; `owner` is the list it was put in. */
  class Node {
    var e: Entry
    var next: Node?
    ghost var owner: Chain?

    constructor (e: Entry)
      ensures this.e == e && next == null && owner == null
    {
      this.e, next, owner := e, null, null;
    }
  }

  /** A place that holds an entry pointer: the list head or the `next` field of an entry. */
  datatype Link = Head | NextOf(node: Node)

  /** struct dst_blst_lst_head, with the nodes it leads to and what they hold. */
  class Chain {
    var first: Node?
    ghost var nodes: seq<Node>
    ghost var items: seq<Entry>

    constructor ()
      ensures Valid() && items == [] && nodes == []
    {
      first, nodes, items := null, [], [];
    }

    ghost predicate Linked()
      reads this`first, this`nodes, nodes`next
    {
      && Distinct(nodes)
      && first == (if nodes == [] then null else nodes[0])
      && forall i {:trigger nodes[i].next} :: 0 <= i < |nodes| ==>
           nodes[i].next == if i + 1 < |nodes| then nodes[i + 1] else null
    }

    ghost predicate Holds()
      reads this`nodes, this`items, nodes`e, nodes`owner
    {
      |items| == |nodes| && forall i :: 0 <= i < |nodes| ==> nodes[i].e == items[i] && nodes[i].owner == this
    }

    ghost predicate Valid()
      reads this, nodes
    {
      Linked() && Holds()
    }

    /** The place that points to position `i`. */
    ghost function LinkAt(i: nat): (l: Link)
      reads this
      requires i <= |nodes|
    {
      if i == 0 then Head else NextOf(nodes[i - 1])
    }

    function Load(l: Link): (n: Node?)
      reads this, if l.NextOf? then {l.node} else {}
    {
      if l.Head? then first else l.node.next
    }

    lemma LoadAt(i: nat)
      requires Valid() && i <= |nodes|
      ensures |items| == |nodes|
      ensures Load(LinkAt(i)) == if i < |nodes| then nodes[i] else null
      ensures i < |nodes| ==> nodes[i].e == items[i] && LinkAt(i + 1) == NextOf(nodes[i])
    {
      if i > 0 {
        assert nodes[i - 1].next == if i < |nodes| then nodes[i] else null;
      }
    }

    method Store(l: Link, n: Node?)
      modifies this`first, (if l.NextOf? then {l.node} else {})`next
      ensures l.Head? ==> first == n
      ensures l.NextOf? ==> first == old(first) && l.node.next == n
    {
      if l.Head? {
        first := n;
      } else {
        l.node.next := n;
      }
    }

    method Relink(crt: Link, ghost i: nat)
      requires Linked() && i < |nodes| && crt == LinkAt(i)
      modifies this`first, this`nodes, nodes`next
      ensures Linked() && nodes == Cut(old(nodes), i)
    {
      ghost var was := nodes;
      var n := Load(crt);
      assert n == was[i];
      Store(crt, n.next);
      nodes := Cut(nodes, i);
      assert forall k :: 0 <= k < |nodes| ==> nodes[k] == if k < i then was[k] else was[k + 1];
    }

    /** *crt = (*crt)->next */
    method Unlink(crt: Link, ghost i: nat)
      requires Valid() && i < |nodes| && crt == LinkAt(i)
      modifies this, nodes`next
      ensures Valid() && nodes == Cut(old(nodes), i) && items == Cut(old(items), i) && crt == LinkAt(i)
    {
      hide Linked;
      ghost var was, had := nodes, items;
      Relink(crt, i);
      items := Cut(items, i);
      assert crt == LinkAt(i);
      forall k | 0 <= k < |nodes| ensures nodes[k].e == items[k] && nodes[k].owner == this {
        CutAt(was, i, k);
        CutAt(had, i, k);
      }
    }

    /** An entry is written over. */
    method Rewrite(n: Node, e: Entry, ghost i: nat)
      requires Valid() && i < |nodes| && n == nodes[i]
      modifies this`items, n`e
      ensures Valid() && items == old(items)[i := e]
    {
      n.e := e;
      items := items[i := e];
    }

    /** dst_blocklist_lst_add */
    method Prepend(n: Node)
      requires Valid() && n !in nodes
      modifies this, n
      ensures Valid() && nodes == [n] + old(nodes) && items == [n.e] + old(items) && n.e == old(n.e)
    {
      n.next := first;
      first := n;
      ghost var was, had := nodes, items;
      n.owner := this;
      nodes, items := [n] + nodes, [n.e] + items;
      assert forall k :: 0 <= k < |nodes| ==> nodes[k] == if k == 0 then n else was[k - 1];
      assert forall k :: 0 <= k < |items| ==> items[k] == if k == 0 then n.e else had[k - 1];
    }
  }
}
