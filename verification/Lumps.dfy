/** Shallow copies of lump lists, the edits waiting to be made to a message (src/core/data_lump.c:466-480,
    518-646), under an allocator that may fail at any call. */
module Lumps {

  const LUMP_ADD := 2
  const DUPED := 0     // bit numbers in the flags
  const SHMEM := 1

  /** Text of an added header. */
  class Text {
  }

  class Lump {
    var op: int
    var typ: int
    var offset: int
    var value: Text?
    var len: int
    var flags: set<nat>
    var before: Lump?
    var after: Lump?
    var next: Lump?
  }

  datatype Dir = Next | Before | After

  /** The nodes of a list: a list of nodes by next, each with a list by before and one by after. */
  datatype Shape = End | Node(l: Lump, before: Shape, after: Shape, next: Shape)

  ghost function Nodes(s: Shape): (r: set<Lump>)
  {
    match s
    case End => {}
    case Node(l, b, a, n) => {l} + Nodes(b) + Nodes(a) + Nodes(n)
  }

  function Count(s: Shape): (n: nat)
  {
    match s
    case End => 0
    case Node(l, b, a, n) => 1 + Count(b) + Count(a) + Count(n)
  }

  /** No node twice. */
  ghost predicate Separate(s: Shape)
  {
    match s
    case End => true
    case Node(l, b, a, n) =>
      && Separate(b) && Separate(a) && Separate(n)
      && l !in Nodes(b) + Nodes(a) + Nodes(n)
      && Nodes(b) !! Nodes(a) && Nodes(b) !! Nodes(n) && Nodes(a) !! Nodes(n)
  }

  /** The list at p, followed in direction dir, is s. */
  ghost predicate Is(dir: Dir, p: Lump?, s: Shape)
    reads Nodes(s)
    decreases s
  {
    match s
    case End => p == null
    case Node(l, b, a, n) =>
      && p == l
      && match dir
         case Next => Is(Before, l.before, b) && Is(After, l.after, a) && Is(Next, l.next, n)
         case Before => Is(Before, l.before, b) && a == End && n == End
         case After => Is(After, l.after, a) && b == End && n == End
  }

  /** The second list copies the first node for node: same contents, text shared, marked as a
      copy, and no link but those of its own kind. */
  ghost predicate Copies(dir: Dir, s: Shape, c: Shape)
    reads Nodes(s), Nodes(c)
    decreases s
  {
    match s
    case End => c == End
    case Node(l, b, a, n) =>
      && c.Node? && SameContents(l, c.l)
      && (dir == Before ==> c.l.after == null && c.l.next == null)
      && (dir == After ==> c.l.before == null && c.l.next == null)
      && Copies(Before, b, c.before) && Copies(After, a, c.after) && Copies(Next, n, c.next)
  }

  ghost predicate SameContents(l: Lump, m: Lump)
    reads l, m`op, m`typ, m`offset, m`value, m`len, m`flags
  {
    && m.op == l.op && m.typ == l.typ && m.offset == l.offset && m.value == l.value && m.len == l.len
    && m.flags == l.flags + {DUPED}
  }

  lemma EndFacts(dir: Dir)
    ensures Is(dir, null, End) && Copies(dir, End, End) && Separate(End) && Nodes(End) == {} && Count(End) == 0
  {
  }

  lemma HeadFacts(dir: Dir, p: Lump?, s: Shape)
    requires Is(dir, p, s)
    ensures (p == null <==> s == End) && (p != null ==> s.Node? && s.l == p && p in Nodes(s) && Count(s) > 0)
  {
  }

  /** A node and its lists. */
  lemma Parts(dir: Dir, s: Shape)
    requires s.Node? && Is(dir, s.l, s)
    ensures Nodes(s) == {s.l} + Nodes(s.before) + Nodes(s.after) + Nodes(s.next)
    ensures Count(s) == 1 + Count(s.before) + Count(s.after) + Count(s.next)
    ensures dir != After ==> Is(Before, s.l.before, s.before)
    ensures dir != Before ==> Is(After, s.l.after, s.after)
    ensures dir == Next ==> Is(Next, s.l.next, s.next)
    ensures dir == Before ==> s.after == End && s.next == End
    ensures dir == After ==> s.before == End && s.next == End
  {
  }

  lemma NodesOf(l: Lump, b: Shape, a: Shape, n: Shape)
    ensures Nodes(Node(l, b, a, n)) == {l} + Nodes(b) + Nodes(a) + Nodes(n)
  {
  }

  /** A node copied after its lists were. */
  lemma Join(dir: Dir, s: Shape, c: Shape)
    requires s.Node? && c.Node? && SameContents(s.l, c.l)
    requires Is(if dir == After then Next else Before, c.l.before, c.before)
    requires Is(if dir == Before then Next else After, c.l.after, c.after) && Is(Next, c.l.next, c.next)
    requires Copies(Before, s.before, c.before) && Copies(After, s.after, c.after) && Copies(Next, s.next, c.next)
    requires Separate(c.before) && Separate(c.after) && Separate(c.next)
    requires c.l !in Nodes(c.before) + Nodes(c.after) + Nodes(c.next)
    requires Nodes(c.before) !! Nodes(c.after) && Nodes(c.before) !! Nodes(c.next) && Nodes(c.after) !! Nodes(c.next)
    requires dir == Before ==> c.after == End && c.next == End
    requires dir == After ==> c.before == End && c.next == End
    ensures Is(dir, c.l, c) && Copies(dir, s, c) && Separate(c)
  {
    hide SameContents;
  }

  /** What FreeShallow needs to know of a node with no lists, one list, two lists. */
  lemma Alone(m: Lump)
    requires m.before == null && m.after == null
    ensures Is(Before, m.before, End) && Is(After, m.after, End)
    ensures Separate(Node(m, End, End, End)) && Nodes(Node(m, End, End, End)) == {m}
  {
  }

  lemma Pair(m: Lump, b: Shape)
    requires m.after == null && m !in Nodes(b) && Separate(b)
    ensures Is(After, m.after, End) && Separate(Node(m, b, End, End)) && Nodes(Node(m, b, End, End)) == {m} + Nodes(b)
  {
  }

  /** b and a are the copied lists of m, a copy of the head of s. */
  ghost predicate Lists(m: Lump, s: Shape, b: Shape, a: Shape)
    requires s.Node?
    reads m`before, m`after, Nodes(s.before), Nodes(s.after), Nodes(b), Nodes(a)
  {
    && Is(Before, m.before, b) && Is(After, m.after, a) && Copies(Before, s.before, b) && Copies(After, s.after, a)
    && Separate(b) && Separate(a) && Nodes(b) !! Nodes(a) && m !in Nodes(b) + Nodes(a)
  }

  lemma ListsOpen(m: Lump, s: Shape, b: Shape, a: Shape)
    requires s.Node? && Lists(m, s, b, a)
    ensures Is(Before, m.before, b) && Is(After, m.after, a)
    ensures Separate(Node(m, b, a, End)) && Nodes(Node(m, b, a, End)) == {m} + (Nodes(b) + Nodes(a))
  {
    hide Is, Copies;
    EndFacts(Next);
  }

  lemma JoinNext(s: Shape, c: Shape)
    requires s.Node? && c.Node? && Lists(c.l, s, c.before, c.after) && SameContents(s.l, c.l)
    requires Is(Next, c.l.next, c.next) && Copies(Next, s.next, c.next) && Separate(c.next)
    requires c.l !in Nodes(c.next) && Nodes(c.before) + Nodes(c.after) !! Nodes(c.next)
    ensures Is(Next, c.l, c) && Copies(Next, s, c) && Separate(c)
    ensures Nodes(c) == {c.l} + (Nodes(c.before) + Nodes(c.after)) + Nodes(c.next)
  {
    hide Is, Copies, Separate, Nodes, SameContents;
    NodesOf(c.l, c.before, c.after, c.next);
    Join(Next, s, c);
  }

  /** Process memory: the k-th request succeeds if plan(k). */
  class Pkg {
    const plan: nat -> bool
    var calls: nat
    ghost var live: set<Lump>
    ghost var texts: set<Text>

    method Malloc() returns (l: Lump?)
      modifies this`calls, this`live
      ensures calls == old(calls) + 1 && (l != null <==> plan(old(calls)))
      ensures if l == null then live == old(live) else fresh(l) && live == old(live) + {l}
    {
      calls := calls + 1;
      if !plan(calls - 1) {
        return null;
      }
      l := new Lump;
      live := live + {l};
    }

    /** pkg_free: what is freed is allocated, so nothing is freed twice. */
    method Free(l: Lump)
      requires l in live
      modifies this`live
      ensures live == old(live) - {l}
    {
      live := live - {l};
    }

    method FreeText(t: Text)
      requires t in texts
      modifies this`texts
      ensures texts == old(texts) - {t}
    {
      texts := texts - {t};
    }

    method FreeBefores(p: Lump?, ghost b: Shape)
      requires Is(Before, p, b) && Separate(b) && Nodes(b) <= live
      modifies this`live
      ensures live == old(live) - Nodes(b)
    {
      var r := p;
      ghost var s := b;
      while r != null
        invariant Is(Before, r, s) && Separate(s) && Nodes(s) <= live
        invariant live - Nodes(s) == old(live) - Nodes(b)
        decreases s
      {
        var foo := r;
        r := r.before;
        s := s.before;
        Free(foo);
      }
    }

    method FreeAfters(p: Lump?, ghost a: Shape)
      requires Is(After, p, a) && Separate(a) && Nodes(a) <= live
      modifies this`live
      ensures live == old(live) - Nodes(a)
    {
      var r := p;
      ghost var s := a;
      while r != null
        invariant Is(After, r, s) && Separate(s) && Nodes(s) <= live
        invariant live - Nodes(s) == old(live) - Nodes(a)
        decreases s
      {
        var foo := r;
        r := r.after;
        s := s.after;
        Free(foo);
      }
    }

    /** free_shallow_lump */
    method FreeShallow(l: Lump, ghost b: Shape, ghost a: Shape)
      requires Is(Before, l.before, b) && Is(After, l.after, a) && Separate(Node(l, b, a, End))
      requires Nodes(Node(l, b, a, End)) <= live
      modifies this`live
      ensures live == old(live) - Nodes(Node(l, b, a, End))
    {
      FreeBefores(l.before, b);
      FreeAfters(l.after, a);
      Free(l);
    }

    /** What a request at an old count of n may have come to, when k allocations are needed. */
    ghost predicate Served(n: nat, k: nat, error: bool)
      reads this
    {
      if error then n < calls <= n + k && !plan(calls - 1)
      else calls == n + k && forall i :: n <= i < n + k ==> plan(i)
    }

    /** A new node with the contents of l. */
    method NewCopy(l: Lump) returns (m: Lump?)
      modifies this`calls, this`live
      ensures calls == old(calls) + 1 && (m != null <==> plan(old(calls)))
      ensures m == null ==> live == old(live)
      ensures m != null ==> fresh(m) && live == old(live) + {m} && SameContents(l, m)
                            && m.before == null && m.after == null && m.next == null
    {
      m := Malloc();
      if m != null {
        m.op, m.typ, m.offset, m.value, m.len := l.op, l.typ, l.offset, l.value, l.len;
        m.flags := l.flags + {DUPED};
        m.before, m.after, m.next := null, null, null;
      }
    }

    /** dup_lump_list_r: a whole copy or nothing. It fails exactly when one of the allocations
        needed fails, and then everything allocated on the way is freed again. */
    method DupR(l: Lump?, dir: Dir, ghost s: Shape, ghost all: set<Lump>)
      returns (r: Lump?, error: bool, ghost c: Shape)
      requires Is(dir, l, s) && Nodes(s) <= all
      modifies this`calls, this`live
      ensures Served(old(calls), Count(s), error)
      ensures error ==> r == null && live == old(live)
      ensures !error ==> && Is(dir, r, c) && Copies(dir, s, c) && Separate(c)
                         && fresh(Nodes(c)) && live == old(live) + Nodes(c)
      decreases s, 2
    {
      hide Is, Nodes, Count, Copies, Separate;
      EndFacts(dir);
      HeadFacts(dir, l, s);
      r, error, c := null, false, End;
      if l == null {
        return;
      }
      var m := NewCopy(l);
      if m == null {
        error := true;
        return;
      }
      match dir {
        case Next => error, c := DupNode(l, m, s, all);
        case Before => error, c := DupBefore(l, m, s, all);
        case After => error, c := DupAfter(l, m, s, all);
      }
      if !error {
        r := m;
      }
    }

    /** m is a copy of l without its lists, and nothing else points to it yet. */
    ghost predicate Bare(dir: Dir, l: Lump, m: Lump, s: Shape, all: set<Lump>)
      reads this, Nodes(s), m
    {
      && s.Node? && s.l == l && Is(dir, l, s) && Nodes(s) <= all && m !in all && SameContents(l, m)
      && m.before == null && m.after == null && m.next == null && m in live
    }

    method DupBefore(l: Lump, m: Lump, ghost s: Shape, ghost all: set<Lump>) returns (error: bool, ghost c: Shape)
      requires Bare(Before, l, m, s, all)
      modifies this`calls, this`live, m
      ensures Served(old(calls), Count(s) - 1, error)
      ensures error ==> live == old(live) - {m}
      ensures !error ==> && Is(Before, m, c) && Copies(Before, s, c) && Separate(c)
                         && m in Nodes(c) && fresh(Nodes(c) - {m}) && live == old(live) + Nodes(c)
      decreases s, 0
    {
      hide Is, Nodes, Count, Copies, Separate, SameContents;
      Parts(Before, s);
      Alone(m);
      var x;
      ghost var b;
      x, error, b := DupR(l.before, Before, s.before, all);
      c := Node(m, b, End, End);
      if error {
        FreeShallow(m, End, End);
        return;
      }
      m.before := x;
      NodesOf(m, b, End, End);
      EndFacts(After);
      EndFacts(Next);
      Join(Before, s, c);
    }

    method DupAfter(l: Lump, m: Lump, ghost s: Shape, ghost all: set<Lump>) returns (error: bool, ghost c: Shape)
      requires Bare(After, l, m, s, all)
      modifies this`calls, this`live, m
      ensures Served(old(calls), Count(s) - 1, error)
      ensures error ==> live == old(live) - {m}
      ensures !error ==> && Is(After, m, c) && Copies(After, s, c) && Separate(c)
                         && m in Nodes(c) && fresh(Nodes(c) - {m}) && live == old(live) + Nodes(c)
      decreases s, 0
    {
      hide Is, Nodes, Count, Copies, Separate, SameContents;
      Parts(After, s);
      Alone(m);
      var x;
      ghost var a;
      x, error, a := DupR(l.after, After, s.after, all);
      c := Node(m, End, a, End);
      if error {
        FreeShallow(m, End, End);
        return;
      }
      m.after := x;
      NodesOf(m, End, a, End);
      EndFacts(Before);
      EndFacts(Next);
      Join(After, s, c);
    }

    /** The first two of the three copies a node of the main list needs. */
    method DupLists(l: Lump, m: Lump, ghost s: Shape, ghost all: set<Lump>)
      returns (error: bool, ghost b: Shape, ghost a: Shape)
      requires Bare(Next, l, m, s, all)
      modifies this`calls, this`live, m`before, m`after
      ensures Served(old(calls), Count(s.before) + Count(s.after), error)
      ensures error ==> live == old(live) - {m}
      ensures !error ==> Lists(m, s, b, a) && fresh(Nodes(b) + Nodes(a)) && live == old(live) + (Nodes(b) + Nodes(a))
      decreases s, 0
    {
      hide Is, Nodes, Count, Copies, Separate, SameContents;
      Parts(Next, s);
      Alone(m);
      var x;
      a := End;
      x, error, b := DupR(l.before, Before, s.before, all);
      if error {
        FreeShallow(m, End, End);
        return;
      }
      m.before := x;
      Pair(m, b);
      x, error, a := DupR(l.after, After, s.after, all);
      if error {
        FreeShallow(m, b, End);
        return;
      }
      m.after := x;
    }

    method DupNode(l: Lump, m: Lump, ghost s: Shape, ghost all: set<Lump>) returns (error: bool, ghost c: Shape)
      requires Bare(Next, l, m, s, all)
      modifies this`calls, this`live, m
      ensures Served(old(calls), Count(s) - 1, error)
      ensures error ==> live == old(live) - {m}
      ensures !error ==> && Is(Next, m, c) && Copies(Next, s, c) && Separate(c)
                         && m in Nodes(c) && fresh(Nodes(c) - {m}) && live == old(live) + Nodes(c)
      decreases s, 1
    {
      hide Is, Nodes, Count, Copies, Separate, SameContents, Lists;
      Parts(Next, s);
      var x;
      ghost var b, a, n;
      error, b, a := DupLists(l, m, s, all);
      c := Node(m, b, a, End);
      if error {
        return;
      }
      x, error, n := DupR(l.next, Next, s.next, all);
      if error {
        ListsOpen(m, s, b, a);
        FreeShallow(m, b, a);
        return;
      }
      m.next := x;
      c := Node(m, b, a, n);
      JoinNext(s, c);
    }

    /** dup_lump_list */
    method Dup(l: Lump?, ghost s: Shape, ghost all: set<Lump>) returns (r: Lump?, ghost c: Shape)
      requires Is(Next, l, s) && Nodes(s) <= all
      modifies this`calls, this`live
      ensures r == null <==> l == null || exists k :: old(calls) <= k < old(calls) + Count(s) && !plan(k)
      ensures r == null ==> live == old(live)
      ensures r != null ==> && Is(Next, r, c) && Copies(Next, s, c) && Separate(c)
                            && fresh(Nodes(c)) && live == old(live) + Nodes(c)
    {
      hide Copies, Separate, Nodes, Count;
      var error;
      HeadFacts(Next, l, s);
      EndFacts(Next);
      ghost var n := calls;
      r, error, c := DupR(l, Next, s, all);
      if error {
        assert n <= calls - 1 < n + Count(s) && !plan(calls - 1);
      } else {
        assert Copies(Next, s, c);
        CopyHead(Next, s, c);
      }
    }

    /** The text of a lump that is not a copy goes with it. */
    method FreeNode(l: Lump)
      requires l in live && (Owns(l) ==> l.value in texts && SHMEM !in l.flags)
      modifies this`live, this`texts, l`value, l`len
      ensures live == old(live) - {l} && texts == old(texts) - old(OwnText(l))
      ensures old(Owns(l)) ==> l.value == null && l.len == 0
    {
      if DUPED !in l.flags && l.op == LUMP_ADD && l.value != null {
        FreeText(l.value);
        l.value := null;
        l.len := 0;
      }
      Free(l);
    }

    method FreeDupedBefores(p: Lump?, ghost b: Shape)
      requires Freeable(Before, p, b) && Nodes(b) <= live && Texts(b) <= texts
      modifies this`live, this`texts, Nodes(b)`value, Nodes(b)`len
      ensures live == old(live) - Nodes(b) && texts == old(texts) - old(Texts(b))
    {
      hide Freeable, Nodes, Texts, Owns, OwnText;
      var r := p;
      ghost var s := b;
      while r != null
        invariant Freeable(Before, r, s) && Nodes(s) <= live && Texts(s) <= texts
        invariant Nodes(s) <= Nodes(b) && live - Nodes(s) == old(live) - Nodes(b)
        invariant texts - Texts(s) == old(texts) - old(Texts(b))
        decreases s
      {
        FreeableHead(Before, r, s);
        Open(Before, s);
        var foo := r;
        r := r.before;
        s := s.before;
        FreeNode(foo);
      }
      FreeableHead(Before, r, s);
    }

    method FreeDupedAfters(p: Lump?, ghost a: Shape)
      requires Freeable(After, p, a) && Nodes(a) <= live && Texts(a) <= texts
      modifies this`live, this`texts, Nodes(a)`value, Nodes(a)`len
      ensures live == old(live) - Nodes(a) && texts == old(texts) - old(Texts(a))
    {
      hide Freeable, Nodes, Texts, Owns, OwnText;
      var r := p;
      ghost var s := a;
      while r != null
        invariant Freeable(After, r, s) && Nodes(s) <= live && Texts(s) <= texts
        invariant Nodes(s) <= Nodes(a) && live - Nodes(s) == old(live) - Nodes(a)
        invariant texts - Texts(s) == old(texts) - old(Texts(a))
        decreases s
      {
        FreeableHead(After, r, s);
        Open(After, s);
        var foo := r;
        r := r.after;
        s := s.after;
        FreeNode(foo);
      }
      FreeableHead(After, r, s);
    }

    /** free_duped_lump_list: every node of the list is freed once; of the texts, those of the
        nodes that are not copies. */
    method FreeDuped(p: Lump?, ghost c: Shape)
      requires Freeable(Next, p, c) && Nodes(c) <= live && Texts(c) <= texts
      modifies this`live, this`texts, Nodes(c)`value, Nodes(c)`len
      ensures live == old(live) - Nodes(c) && texts == old(texts) - old(Texts(c))
    {
      hide Freeable, Nodes, Texts, Owns, OwnText;
      var l := p;
      ghost var s := c;
      while l != null
        invariant Freeable(Next, l, s) && Nodes(s) <= live && Texts(s) <= texts
        invariant Nodes(s) <= Nodes(c) && live - Nodes(s) == old(live) - Nodes(c)
        invariant texts - Texts(s) == old(texts) - old(Texts(c))
        decreases s
      {
        FreeableHead(Next, l, s);
        Open(Next, s);
        var crt := l;
        l := l.next;
        FreeDupedBefores(crt.before, s.before);
        FreeDupedAfters(crt.after, s.after);
        FreeNode(crt);
        s := s.next;
      }
      FreeableHead(Next, l, s);
    }

    /** A copy made and freed again leaves process memory as it was, texts and all. */
    method DupThenFree(l: Lump?, ghost s: Shape, ghost all: set<Lump>)
      requires Is(Next, l, s) && Nodes(s) <= all
      modifies this`calls, this`live, this`texts
      ensures live == old(live) && texts == old(texts)
    {
      hide Copies, Separate, Nodes, Owned, Texts;
      ghost var c;
      var r;
      r, c := Dup(l, s, all);
      if r != null {
        CopiesOwnNothing(Next, s, c);
        FreeDuped(r, c);
      }
    }
  }

  lemma CopyHead(dir: Dir, s: Shape, c: Shape)
    requires Copies(dir, s, c)
    ensures s == End <==> c == End
  {
  }

  ghost predicate Owns(l: Lump)
    reads l
  {
    l.op == LUMP_ADD && l.value != null && DUPED !in l.flags
  }

  ghost function OwnText(l: Lump): (r: set<Text>)
    reads l
  {
    if Owns(l) then {l.value} else {}
  }

  /** The texts that go when the list does. */
  ghost function Texts(s: Shape): (r: set<Text>)
    reads Nodes(s)
    decreases s
  {
    match s
    case End => {}
    case Node(l, b, a, n) => OwnText(l) + Texts(b) + Texts(a) + Texts(n)
  }

  /** They are the values of the added lumps that are not marked as copies. */
  lemma {:induction false} TextsExactly(s: Shape, t: Text)
    ensures t in Texts(s) <==> exists l :: l in Nodes(s) && l.op == 2 && l.value == t && 0 !in l.flags
    decreases s
  {
    if s.Node? {
      TextsExactly(s.before, t);
      TextsExactly(s.after, t);
      TextsExactly(s.next, t);
    }
  }

  /** No text belongs to two nodes of the list, and none that would go is in shared memory (the
      program stops on one). */
  ghost predicate Owned(s: Shape)
    reads Nodes(s)
    decreases s
  {
    match s
    case End => true
    case Node(l, b, a, n) =>
      && (Owns(l) ==> SHMEM !in l.flags)
      && Owned(b) && Owned(a) && Owned(n)
      && OwnText(l) !! Texts(b) + Texts(a) + Texts(n)
      && Texts(b) !! Texts(a) && Texts(b) !! Texts(n) && Texts(a) !! Texts(n)
  }

  /** A list that can be freed. */
  ghost predicate Freeable(dir: Dir, p: Lump?, s: Shape)
    reads Nodes(s)
  {
    Is(dir, p, s) && Separate(s) && Owned(s)
  }

  /** The head of such a list and its parts, which have no node and no text in common. */
  lemma Open(dir: Dir, s: Shape)
    requires s.Node? && Freeable(dir, s.l, s)
    ensures Nodes(s) == {s.l} + Nodes(s.before) + Nodes(s.after) + Nodes(s.next)
    ensures s.l !in Nodes(s.before) + Nodes(s.after) + Nodes(s.next)
    ensures Nodes(s.before) !! Nodes(s.after) !! Nodes(s.next)
    ensures Texts(s) == OwnText(s.l) + Texts(s.before) + Texts(s.after) + Texts(s.next)
    ensures OwnText(s.l) !! Texts(s.before) !! Texts(s.after) !! Texts(s.next)
    ensures Owns(s.l) ==> s.l.value in OwnText(s.l) && SHMEM !in s.l.flags
    ensures dir != After ==> Freeable(Before, s.l.before, s.before)
    ensures dir != Before ==> Freeable(After, s.l.after, s.after)
    ensures dir == Next ==> Freeable(Next, s.l.next, s.next)
    ensures dir == Before ==> Nodes(s.after) + Nodes(s.next) == {} && Texts(s.after) + Texts(s.next) == {}
    ensures dir == After ==> Nodes(s.before) + Nodes(s.next) == {} && Texts(s.before) + Texts(s.next) == {}
  {
    hide Owns;
  }

  lemma FreeableHead(dir: Dir, p: Lump?, s: Shape)
    requires Freeable(dir, p, s)
    ensures if p == null then s == End && Nodes(s) == {} && Texts(s) == {} else s.Node? && s.l == p && p in Nodes(s)
  {
  }

  /** Copies share their texts and own none of them. */
  lemma {:induction false} CopiesOwnNothing(dir: Dir, s: Shape, c: Shape)
    requires Copies(dir, s, c)
    ensures Owned(c) && Texts(c) == {}
    decreases s
  {
    if s.Node? {
      CopiesOwnNothing(Before, s.before, c.before);
      CopiesOwnNothing(After, s.after, c.after);
      CopiesOwnNothing(Next, s.next, c.next);
    }
  }
}
