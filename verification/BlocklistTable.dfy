/** Flushing the blocklist, whole runs of its operations, and the operations themselves as they
    walk the linked buckets and change them in place. */
module BlocklistTable {
  import opened Seqs
  import opened Ticks
  import opened Blocklist
  import opened BlocklistOps
  import opened BlocklistAdd
  import opened BlocklistChain

  // ----- flush -----

  function Permanent(s: seq<Entry>): (r: seq<Entry>)
  {
    if s == [] then []
    else if PERMANENT in s[0].flags then [s[0]] + Permanent(s[1..])
    else Permanent(s[1..])
  }

  lemma {:induction false} PermanentKeeps(s: seq<Entry>)
    ensures forall e :: e in Permanent(s) <==> e in s && PERMANENT in e.flags
    ensures NoConflict(s) ==> NoConflict(Permanent(s))
    ensures Total(Permanent(s)) <= Total(s)
  {
    hide Conflict;
    if s != [] {
      PermanentKeeps(s[1..]);
      assert ([s[0]] + Permanent(s[1..]))[1..] == Permanent(s[1..]);
      assert s == [s[0]] + s[1..];
    }
  }

  /** dst_blst_flush from bucket h on. */
  function FlushFrom(b: State, h: nat): (r: State)
    requires InRange(b) && h <= TABLE_SIZE
    decreases TABLE_SIZE - h
  {
    if h == TABLE_SIZE then b else FlushFrom(With(b, h, Permanent(b.buckets[h])), h + 1)
  }

  lemma {:induction false} FlushFromResult(b: State, h: nat)
    requires Inv(b) && h <= TABLE_SIZE
    ensures var r := FlushFrom(b, h);
            && Inv(r) && r.hash == b.hash && r.mem <= b.mem
            && forall g :: 0 <= g < TABLE_SIZE ==>
                 r.buckets[g] == if g < h then b.buckets[g] else Permanent(b.buckets[g])
    decreases TABLE_SIZE - h
  {
    hide NoConflict, Permanent, Total, Sum;
    if h < TABLE_SIZE {
      var s := Permanent(b.buckets[h]);
      assert BucketOk(b, h);
      PermanentKeeps(b.buckets[h]);
      BelongsSub(b, h, s, b.buckets[h]);
      WithInv(b, h, s);
      FlushFromResult(With(b, h, s), h + 1);
    }
  }

  /** After a flush a lookup finds exactly what it found before, if that was permanent. */
  lemma FlushAnswers(b: State, q: Query, now: ticks)
    requires Inv(b) && q.proto != PROTO_NONE
    ensures InRange(FlushFrom(b, 0))
    ensures var was := Blocked(b, q, now); Blocked(FlushFrom(b, 0), q, now) == if PERMANENT in was then was else {}
  {
    hide NoConflict, Permanent, Total, Sum, Expired, Matches, FlushFrom, Search;
    FlushFromResult(b, 0);
    var h, r := Bucket(b, q.ip, q.port), FlushFrom(b, 0);
    PermanentKeeps(b.buckets[h]);
    LookupIsPlain(b, q, now);
    LookupIsPlain(r, q, now);
    if Find(b, q, now).rest != [] {
      var e :| Listed(b, e, q, now);
      ListedHere(b, e, q, now);
      if PERMANENT in e.flags {
        assert Listed(r, e, q, now);
      }
    }
    if Find(r, q, now).rest != [] {
      var e :| Listed(r, e, q, now);
      ListedHere(r, e, q, now);
      assert Listed(b, e, q, now);
    }
  }

  // ----- runs -----

  datatype Step =
    | Lookup(q: Query, now: ticks)
    | Delete(q: Query, now: ticks)
    | AddIp(q: Query, err: set<nat>, timeout: ticks, now: ticks, first: nat, clock: nat -> ticks, alloc: bool)
    | Timer(l: Limits, clock: nat -> ticks)
    | Flush

  function Apply(b: State, s: Step, max: int): (r: State)
    requires Inv(b)
  {
    match s
    case Lookup(q, now) => AfterFind(b, q, now)
    case Delete(q, now) => Del(b, q, now)
    case AddIp(q, err, timeout, now, first, clock, alloc) => Add(b, q, err, timeout, now, max, first, clock, alloc).b
    case Timer(l, clock) => Clean(b, l, clock).b
    case Flush => FlushFrom(b, 0)
  }

  /** Every operation keeps the table in order and the byte counter below its limit. */
  lemma StepKeeps(b: State, s: Step, max: int)
    requires Inv(b)
    ensures Inv(Apply(b, s, max)) && (b.mem < max ==> Apply(b, s, max).mem < max)
  {
    hide Inv, InRange, Search, Total, Sum, CleanFrom, FlushFrom, Add;
    InvRange(b);
    match s
    case Lookup(q, now) =>
      FindInv(b, q, now);
      FindSize(b, q, now);
    case Delete(q, now) =>
      DelInv(b, q, now);
      DelSize(b, q, now);
    case AddIp(q, err, timeout, now, first, clock, alloc) => AddInv(b, q, err, timeout, now, max, first, clock, alloc);
    case Timer(l, clock) => CleanInRange(b, l, clock);
    case Flush => FlushFromResult(b, 0);
  }

  lemma DelSize(b: State, q: Query, now: ticks)
    requires InRange(b)
    ensures Del(b, q, now).mem <= b.mem
  {
    var r := Find(b, q, now);
    FindSize(b, q, now);
    if r.rest != [] {
      TotalConcat(r.seen, r.rest);
      TotalConcat(r.seen, r.rest[1..]);
    }
  }

  function Run(b: State, steps: seq<Step>, max: int): (r: State)
    requires Inv(b)
    decreases |steps|
  {
    if steps == [] then b
    else
      StepKeeps(b, steps[0], max);
      Run(Apply(b, steps[0], max), steps[1..], max)
  }

  /** From the empty table on: entries in their buckets, no two that one query could mean, IPv6 bits
      true to the addresses, and the counter exact and below its limit. */
  lemma {:induction false} RunKeeps(b: State, steps: seq<Step>, max: int)
    requires Inv(b) && b.mem < max
    ensures Inv(Run(b, steps, max)) && 0 <= Run(b, steps, max).mem < max
    decreases |steps|
  {
    if steps != [] {
      StepKeeps(b, steps[0], max);
      RunKeeps(Apply(b, steps[0], max), steps[1..], max);
    }
  }

  lemma {:induction false} SumEmpty(buckets: seq<seq<Entry>>)
    requires forall h :: 0 <= h < |buckets| ==> buckets[h] == []
    ensures Sum(buckets) == 0
  {
    if buckets != [] {
      SumEmpty(buckets[1..]);
    }
  }

  lemma EmptyInv(b: State)
    requires InRange(b) && b.mem == 0 && forall h :: 0 <= h < |b.buckets| ==> b.buckets[h] == []
    ensures Inv(b)
  {
    SumEmpty(b.buckets);
  }

  // ----- the operations in place -----

  lemma CutTotal(s: seq<Entry>, i: nat)
    requires i < |s|
    ensures Total(Cut(s, i)) == Total(s) - Size(s[i])
  {
    TotalConcat(s[..i], s[i..]);
    TotalConcat(s[..i], s[i + 1..]);
    assert s == s[..i] + s[i..];
    assert s[i..][1..] == s[i + 1..];
  }

  /** A search of s0 that has passed i entries and left the list s. */
  ghost predicate Searching(s0: seq<Entry>, q: Query, now: ticks, s: seq<Entry>, i: nat)
  {
    i <= |s| && Search(s0, q, now) == var r := Search(s[i..], q, now); Scan(s[..i] + r.seen, r.rest)
  }

  lemma SearchingStart(s: seq<Entry>, q: Query, now: ticks)
    ensures Searching(s, q, now, s, 0)
  {
    hide Search;
    assert s[0..] == s;
    assert s[..0] + Search(s, q, now).seen == Search(s, q, now).seen;
  }

  lemma SearchingStep(s0: seq<Entry>, q: Query, now: ticks, s: seq<Entry>, i: nat)
    requires Searching(s0, q, now, s, i) && i < |s|
    ensures Expired(s[i], now) ==> Searching(s0, q, now, Cut(s, i), i)
    ensures !Expired(s[i], now) && !Matches(s[i], q) ==> Searching(s0, q, now, s, i + 1)
    ensures !Expired(s[i], now) && Matches(s[i], q) ==> Search(s0, q, now) == Scan(s[..i], s[i..])
  {
    hide Expired, Matches;
    assert s[i..][1..] == s[i + 1..];
    assert Cut(s, i)[i..] == s[i + 1..] && Cut(s, i)[..i] == s[..i];
    var r := Search(s[i + 1..], q, now);
    assert s[..i] + ([s[i]] + r.seen) == s[..i + 1] + r.seen;
    assert s[..i] + [] == s[..i];
  }

  lemma SearchingEnd(s0: seq<Entry>, q: Query, now: ticks, s: seq<Entry>)
    requires Searching(s0, q, now, s, |s|)
    ensures Search(s0, q, now) == Scan(s, [])
  {
    assert s[|s|..] == [];
    assert s[..|s|] + [] == s;
  }

  /** A cleaning of bucket s0 that has passed i entries, removed no, and left the list s. */
  ghost predicate Cleaning1(s0: seq<Entry>, limit: ticks, mem0: int, target: int,
                            s: seq<Entry>, i: nat, mem: int, no: nat)
  {
    && i <= |s|
    && CleanBucket(s0, limit, mem0, target)
       == var r := CleanBucket(s[i..], limit, mem, target); Cleaned(s[..i] + r.left, r.mem, no + r.no, r.stop)
  }

  lemma CleaningStart(s: seq<Entry>, limit: ticks, mem: int, target: int)
    ensures Cleaning1(s, limit, mem, target, s, 0, mem, 0)
  {
    hide CleanBucket;
    assert s[0..] == s;
    var r := CleanBucket(s, limit, mem, target);
    assert s[..0] + r.left == r.left;
  }

  lemma CleaningStep(s0: seq<Entry>, limit: ticks, mem0: int, target: int, s: seq<Entry>, i: nat, mem: int, no: nat)
    requires Cleaning1(s0, limit, mem0, target, s, i, mem, no) && i < |s|
    ensures var m := mem - Size(s[i]);
            if !Expired(s[i], limit) then Cleaning1(s0, limit, mem0, target, s, i + 1, mem, no)
            else if m <= target then CleanBucket(s0, limit, mem0, target) == Cleaned(Cut(s, i), m, no + 1, true)
            else Cleaning1(s0, limit, mem0, target, Cut(s, i), i, m, no + 1)
  {
    hide Expired, Size;
    assert s[i..][1..] == s[i + 1..];
    assert Cut(s, i)[i..] == s[i + 1..] && Cut(s, i)[..i] == s[..i];
    if !Expired(s[i], limit) {
      var r := CleanBucket(s[i + 1..], limit, mem, target);
      assert s[..i] + ([s[i]] + r.left) == s[..i + 1] + r.left;
    }
  }

  lemma CleaningEnd(s0: seq<Entry>, limit: ticks, mem0: int, target: int, s: seq<Entry>, mem: int, no: nat)
    requires Cleaning1(s0, limit, mem0, target, s, |s|, mem, no)
    ensures CleanBucket(s0, limit, mem0, target) == Cleaned(s, mem, no, false)
  {
    assert s[|s|..] == [];
    assert s[..|s|] + [] == s;
  }

  lemma PermanentStep(s: seq<Entry>, i: nat)
    requires i < |s|
    ensures PERMANENT in s[i].flags ==> s[..i] + Permanent(s[i..]) == s[..i + 1] + Permanent(s[i + 1..])
    ensures PERMANENT !in s[i].flags ==> s[..i] + Permanent(s[i..]) == Cut(s, i)[..i] + Permanent(Cut(s, i)[i..])
  {
    assert s[i..][1..] == s[i + 1..];
    assert Cut(s, i)[i..] == s[i + 1..] && Cut(s, i)[..i] == s[..i];
    assert s[..i] + [s[i]] == s[..i + 1];
    assert s[..i] + ([s[i]] + Permanent(s[i + 1..])) == (s[..i] + [s[i]]) + Permanent(s[i + 1..]);
  }

  lemma PermanentEnd(s: seq<Entry>)
    ensures s[..|s|] + Permanent(s[|s|..]) == s
  {
    assert s[|s|..] == [];
  }

  class Table {
    const hash: (seq<int>, int) -> nat
    const heads: seq<Chain>
    var mem: int
    var start: ticks     // where the next cleaning begins, in 32 bits
    ghost var buckets: seq<seq<Entry>>
    ghost var repr: set<Node>

    ghost predicate Kept(h: nat)
      requires h < |heads| == |buckets|
      reads this`buckets, this`repr, heads, repr
    {
      && (forall n :: n in heads[h].nodes ==> n in repr)
      && heads[h].Valid()
      && heads[h].items == buckets[h]
    }

    /** The lists hold the buckets, and no entry is in two lists. */
    ghost predicate Valid()
      reads this`buckets, this`repr, heads, repr
    {
      && |heads| == |buckets| == TABLE_SIZE
      && Distinct(heads)
      && forall h :: 0 <= h < |heads| ==> Kept(h)
    }

    ghost function Value(): (b: State)
      reads this
    {
      State(hash, buckets, mem)
    }

    /** `crt` is the place in list h that points to position i. */
    ghost predicate At(h: nat, crt: Link, i: nat)
      reads this`buckets, this`repr, heads, repr
    {
      Valid() && h < |heads| && i <= |heads[h].nodes| && crt == heads[h].LinkAt(i)
    }

    lemma Sizes()
      requires Valid()
      ensures |heads| == |buckets| == TABLE_SIZE
    {
    }

    lemma AtHead(h: nat)
      requires Valid() && h < |heads|
      ensures At(h, Head, 0)
    {
    }

    lemma AtPlace(h: nat, crt: Link, i: nat)
      requires At(h, crt, i)
      ensures Valid() && |heads| == |buckets| == TABLE_SIZE && h < |heads|
      ensures i <= |buckets[h]| == |heads[h].nodes|
      ensures heads[h].Load(crt) == null <==> i == |buckets[h]|
      ensures i < |buckets[h]| ==>
                && heads[h].Load(crt) == heads[h].nodes[i] && heads[h].Load(crt).e == buckets[h][i]
                && At(h, NextOf(heads[h].Load(crt)), i + 1)
    {
      assert Kept(h);
      heads[h].LoadAt(i);
    }

    /** List h shares nothing with the others. */
    ghost predicate Apart(h: nat)
      requires h < |heads|
      reads heads
    {
      forall g :: 0 <= g < |heads| && g != h ==>
        heads[g] != heads[h] && forall n :: n in heads[h].nodes ==> n !in heads[g].nodes
    }

    lemma Owned(g: nat, n: Node)
      requires Valid() && g < |heads| && n in heads[g].nodes
      ensures n.owner == heads[g]
    {
      assert Kept(g);
    }

    lemma ListsApart(h: nat)
      requires Valid() && h < |heads|
      ensures Apart(h) && Kept(h)
    {
      hide Chain.Linked;
      forall g, n | 0 <= g < |heads| && g != h && n in heads[h].nodes
        ensures n !in heads[g].nodes
      {
        Owned(h, n);
        if n in heads[g].nodes {
          Owned(g, n);
        }
      }
    }

    constructor (hash: (seq<int>, int) -> nat)
      requires forall ip, port :: hash(ip, port) < TABLE_SIZE
      ensures this.hash == hash && Valid() && Inv(Value()) && mem == 0 && start == 0 && repr == {}
      ensures forall h :: 0 <= h < TABLE_SIZE ==> buckets[h] == []
      ensures fresh(heads)
    {
      this.hash := hash;
      var list: seq<Chain> := [];
      while |list| < TABLE_SIZE
        invariant |list| <= TABLE_SIZE && Distinct(list) && fresh(list)
        invariant forall k :: 0 <= k < |list| ==> list[k].Valid() && list[k].nodes == [] && list[k].items == []
      {
        var c := new Chain();
        list := list + [c];
      }
      heads := list;
      buckets := seq(TABLE_SIZE, _ => []);
      repr := {};
      mem := 0;
      start := 0;
      new;
      EmptyInv(Value());
    }

    /** Unlinks and frees one entry. */
    method RemoveAt(h: nat, crt: Link, ghost i: nat)
      requires At(h, crt, i) && i < |buckets[h]|
      modifies this`buckets, this`mem, heads, repr
      ensures At(h, crt, i) && repr == old(repr)
      ensures Value() == With(old(Value()), h, Cut(old(buckets[h]), i))
      ensures mem == old(mem) - Size(old(buckets[h][i]))
    {
      hide Chain.Linked;
      AtPlace(h, crt, i);
      ListsApart(h);
      CutTotal(buckets[h], i);
      var e := heads[h].Load(crt).e;
      heads[h].Unlink(crt, i);
      buckets := buckets[h := Cut(buckets[h], i)];
      mem := mem - Size(e);
      forall g | 0 <= g < |heads| && g != h ensures Kept(g) {
        assert old(Kept(g) && Apart(h));
      }
    }

    /** The walk of a lookup, which unlinks what has expired, up to the place of the first match. */
    method Walk(h: nat, q: Query, now: ticks) returns (crt: Link, ghost i: nat)
      requires Valid() && InRange(Value()) && h == hash(q.ip, q.port)
      modifies this`buckets, this`mem, heads, repr
      ensures repr == old(repr) && Value() == AfterFind(old(Value()), q, now)
      ensures At(h, crt, i) && i == |Blocklist.Find(old(Value()), q, now).seen|
    {
      hide Search, Expired, Matches, Searching, Total, Valid, At;
      Sizes();
      ghost var b, s0 := Value(), buckets[h];
      crt, i := Head, 0;
      AtHead(h);
      AtPlace(h, crt, i);
      SearchingStart(s0, q, now);
      while heads[h].Load(crt) != null
        invariant At(h, crt, i) && h < |heads| && |buckets| == TABLE_SIZE && repr == old(repr)
        invariant (heads[h].Load(crt) == null <==> i == |buckets[h]|) && i <= |buckets[h]|
        invariant Value() == With(b, h, buckets[h]) && Searching(s0, q, now, buckets[h], i)
        decreases |buckets[h]| - i
      {
        AtPlace(h, crt, i);
        SearchingStep(s0, q, now, buckets[h], i);
        var n := heads[h].Load(crt);
        if Expired(n.e, now) {
          RemoveAt(h, crt, i);
        } else if Matches(n.e, q) {
          assert buckets[h][..i] + buckets[h][i..] == buckets[h];
          return;
        } else {
          crt, i := NextOf(n), i + 1;
        }
        AtPlace(h, crt, i);
      }
      SearchingEnd(s0, q, now, buckets[h]);
      assert buckets[h] + [] == buckets[h];
    }

    method Find(h: nat, q: Query, now: ticks) returns (e: Node?)
      requires Valid() && InRange(Value()) && h == hash(q.ip, q.port)
      modifies this`buckets, this`mem, heads, repr
      ensures Valid() && repr == old(repr) && Value() == AfterFind(old(Value()), q, now)
      ensures var r := Blocklist.Find(old(Value()), q, now);
              && (e == null <==> r.rest == [])
              && (e != null ==> |r.seen| < |heads[h].nodes| && e == heads[h].nodes[|r.seen|] && e.e == r.rest[0])
    {
      hide Search, Total, Valid, At;
      var crt, i := Walk(h, q, now);
      AtPlace(h, crt, i);
      e := heads[h].Load(crt);
    }

    method Delete(q: Query, now: ticks) returns (ret: int)
      requires Valid() && InRange(Value())
      modifies this`buckets, this`mem, heads, repr
      ensures Valid() && repr == old(repr) && Value() == Del(old(Value()), q, now)
      ensures ret == if Hit(old(Value()), q, now) then 1 else 0
    {
      hide Search, Total, Valid, At;
      ghost var r := Blocklist.Find(Value(), q, now);
      var h := hash(q.ip, q.port);
      var crt, i := Walk(h, q, now);
      AtPlace(h, crt, i);
      if heads[h].Load(crt) == null {
        return 0;
      }
      assert Cut(r.seen + r.rest, |r.seen|) == r.seen + r.rest[1..];
      RemoveAt(h, crt, i);
      AtPlace(h, crt, i);
      ret := 1;
    }

    method IsBlocklisted(q: Query, now: ticks) returns (flags: set<nat>)
      requires Valid() && InRange(Value())
      modifies this`buckets, this`mem, heads, repr
      ensures Valid() && repr == old(repr)
      ensures flags == Blocked(old(Value()), q, now)
      ensures Value() == AfterFind(old(Value()), q, now)
    {
      hide Search, Total, Valid, At;
      var h := hash(q.ip, q.port);
      Sizes();
      AtHead(h);
      AtPlace(h, Head, 0);
      if heads[h].first == null {
        EmptySearch(Value(), q, now);
        return {};
      }
      var e := Find(h, q, now);
      flags := if e == null then {} else e.e.flags;
    }

    /** The inner loop of a cleaning. */
    method CleanOne(h: nat, limit: ticks, target: int) returns (no: nat, stop: bool)
      requires Valid() && h < |heads|
      modifies this`buckets, this`mem, heads, repr
      ensures Valid() && repr == old(repr)
      ensures var r := CleanBucket(old(buckets[h]), limit, old(mem), target);
              && Value() == With(old(Value()), h, r.left) && mem == r.mem
              && no == r.no && stop == r.stop
    {
      hide CleanBucket, Expired, Cleaning1, Total, Valid, At;
      Sizes();
      var crt := Head;
      no, stop := 0, false;
      ghost var i, b, s0 := 0, Value(), buckets[h];
      AtHead(h);
      AtPlace(h, crt, i);
      CleaningStart(s0, limit, mem, target);
      while heads[h].Load(crt) != null
        invariant At(h, crt, i) && h < |heads| && |buckets| == |b.buckets| == TABLE_SIZE && repr == old(repr)
        invariant (heads[h].Load(crt) == null <==> i == |buckets[h]|) && i <= |buckets[h]|
        invariant Value() == With(b, h, buckets[h])
        invariant Cleaning1(s0, limit, b.mem, target, buckets[h], i, mem, no) && !stop
        decreases |buckets[h]| - i
      {
        AtPlace(h, crt, i);
        CleaningStep(s0, limit, b.mem, target, buckets[h], i, mem, no);
        var n := heads[h].Load(crt);
        if Expired(n.e, limit) {
          RemoveAt(h, crt, i);
          AtPlace(h, crt, i);
          no := no + 1;
          if mem <= target {
            stop := true;
            return;
          }
        } else {
          crt, i := NextOf(n), i + 1;
        }
        AtPlace(h, crt, i);
      }
      AtPlace(h, crt, i);
      CleaningEnd(s0, limit, b.mem, target, buckets[h], mem, no);
    }

    method CleanExpired(target: int, delta: nat, timeout: nat, clock: nat -> ticks) returns (no: nat)
      requires Valid() && Inv(Value())
      modifies this`buckets, this`mem, this`start, heads, repr
      ensures Valid() && repr == old(repr)
      ensures var r := Clean(old(Value()), Limits(target, delta, timeout, old(start)), clock);
              Value() == r.b && no == r.no && start == (old(start) + r.passed) % MODULUS
    {
      hide CleanFrom, CleanBucket, Inv, InRange, After, Place, Total, Valid, At;
      ghost var b := Value();
      var l := Limits(target, delta, timeout, start);
      InvRange(b);
      Sizes();
      ghost var first := start;
      var t0: ticks := clock(0);
      var now: ticks := t0;
      var k, c := 0, 1;
      no := 0;
      while k < TABLE_SIZE
        invariant k <= TABLE_SIZE && Inv(Value()) && InRange(Value()) && start == first
        invariant Valid() && |heads| == |buckets| == TABLE_SIZE && repr == old(repr)
        invariant CleanFrom(b, l, 0, t0, t0, clock, 1)
                  == var r := CleanFrom(Value(), l, k, t0, now, clock, c); r.(no := r.no + no)
      {
        var h := Place(l, k);
        CleanFromStep(Value(), l, k, t0, now, clock, c);
        InvRange(Value());
        AtHead(h);
        AtPlace(h, Head, 0);
        if heads[h].first != null {
          CleanStepInv(Value(), h, After(now, delta), target);
          ghost var d := With(Value(), h, CleanBucket(buckets[h], After(now, delta), mem, target).left);
          InvRange(d);
          var n, stop := CleanOne(h, After(now, delta), target);
          no := no + n;
          if stop {
            break;
          }
          now, c := clock(c), c + 1;
          if (now - t0) % MODULUS >= timeout {
            break;
          }
        }
        k := k + 1;
      }
      if k == TABLE_SIZE {
        CleanFromStep(Value(), l, k, t0, now, clock, c);
      }
      start := (start + k) % MODULUS;
    }

    /** Renews the entry found. */
    method Renew(q: Query, now: ticks, n: Node, flags: set<nat>, expire: ticks, ghost b: State)
      requires InRange(b) && Hit(b, q, now) && Value() == AfterFind(b, q, now) && Valid()
      requires IS_IPV6 in flags <==> IsV6(q.ip)
      requires var i, nodes := |Blocklist.Find(b, q, now).seen|, heads[hash(q.ip, q.port)].nodes;
               i < |nodes| && n == nodes[i] && n.e == Blocklist.Find(b, q, now).rest[0]
      modifies this`buckets, heads, repr
      ensures Valid() && repr == old(repr) && Value() == Merge(b, q, now, flags, expire)
    {
      hide Search, Reached, Chain.Linked;
      var h := hash(q.ip, q.port);
      ghost var r := Blocklist.Find(b, q, now);
      ghost var e := Merged(r.rest[0], flags, expire);
      MergedBucket(r, e);
      ListsApart(h);
      heads[h].Rewrite(n, Merged(n.e, flags, expire), |r.seen|);
      buckets := buckets[h := buckets[h][|r.seen| := e]];
      forall g | 0 <= g < |heads| && g != h ensures Kept(g) {
        assert old(Kept(g) && Apart(h));
      }
    }

    method AddEntry(q: Query, flags: set<nat>, expire: ticks)
      requires Valid() && InRange(Value())
      modifies this`buckets, this`mem, this`repr, heads, repr
      ensures Valid() && fresh(repr - old(repr)) && Value() == Insert(old(Value()), q, flags, expire)
    {
      hide Chain.Linked;
      InsertSize(Value(), q, flags, expire);
      var h, e := hash(q.ip, q.port), New(q, flags, expire);
      mem := mem + Size(e);
      ListsApart(h);
      var n := new Node(e);
      heads[h].Prepend(n);
      repr := repr + {n};
      buckets := buckets[h := [e] + buckets[h]];
      forall g | 0 <= g < |heads| && g != h ensures Kept(g) {
        assert old(Kept(g) && Apart(h));
      }
    }

    method AddIp(q: Query, err: set<nat>, timeout: ticks, now: ticks, max: int, clock: nat -> ticks, alloc: bool)
      returns (ret: int)
      requires Valid() && Inv(Value())
      modifies this`buckets, this`mem, this`start, this`repr, heads, repr
      ensures Valid() && fresh(repr - old(repr))
      ensures var r := Add(old(Value()), q, err, timeout, now, max, old(start), clock, alloc);
              Value() == r.b && ret == r.ret && start == (old(start) + r.passed) % MODULUS
    {
      hide Search, Inv, InRange, CleanFrom, Total, After, ClearOf, Valid;
      ghost var b := Value();
      InvRange(b);
      var h, f, expire := hash(q.ip, q.port), Flags(err, q.ip), After(now, timeout);
      FindInv(b, q, now);
      var e := Find(h, q, now);
      if e != null {
        Renew(q, now, e, f, expire, b);
        return 0;
      }
      InvRange(Value());
      var size := Size(New(q, f, expire));
      if mem + size >= max {
        CleanInRange(Value(), AddLimits(Value(), start), clock);
        var no := CleanExpired(mem / 16 * 14, 0, CLEAN_TICKS, clock);
        if mem + size >= max {
          return -1;
        }
      }
      if !alloc {
        return E_OUT_OF_MEM;
      }
      AddEntry(q, f, expire);
      ret := 0;
    }

    method FlushOne(h: nat)
      requires Valid() && h < |heads|
      modifies this`buckets, this`mem, heads, repr
      ensures Valid() && repr == old(repr)
      ensures Value() == With(old(Value()), h, Permanent(old(buckets[h])))
    {
      hide Permanent, Total, Valid, At;
      Sizes();
      ghost var i, b, s0 := 0, Value(), buckets[h];
      var crt := Head;
      AtHead(h);
      AtPlace(h, crt, i);
      assert s0[..0] + Permanent(s0[0..]) == Permanent(s0) by { assert s0[0..] == s0; }
      while heads[h].Load(crt) != null
        invariant At(h, crt, i) && h < |heads| && |buckets| == |b.buckets| == TABLE_SIZE && repr == old(repr)
        invariant (heads[h].Load(crt) == null <==> i == |buckets[h]|) && i <= |buckets[h]|
        invariant Value() == With(b, h, buckets[h])
        invariant buckets[h][..i] + Permanent(buckets[h][i..]) == Permanent(s0)
        decreases |buckets[h]| - i
      {
        AtPlace(h, crt, i);
        PermanentStep(buckets[h], i);
        var n := heads[h].Load(crt);
        if PERMANENT in n.e.flags {
          crt, i := NextOf(n), i + 1;
        } else {
          RemoveAt(h, crt, i);
        }
        AtPlace(h, crt, i);
      }
      AtPlace(h, crt, i);
      PermanentEnd(buckets[h]);
    }

    method FlushAll()
      requires Valid() && Inv(Value())
      modifies this`buckets, this`mem, heads, repr
      ensures Valid() && repr == old(repr)
      ensures Value() == FlushFrom(old(Value()), 0)
    {
      hide Total, Permanent, Valid;
      Sizes();
      ghost var b := Value();
      var h := 0;
      while h < TABLE_SIZE
        invariant h <= TABLE_SIZE && InRange(Value()) && FlushFrom(Value(), h) == FlushFrom(b, 0)
        invariant Valid() && |heads| == TABLE_SIZE && repr == old(repr)
      {
        FlushOne(h);
        h := h + 1;
      }
    }
  }

  /** What renewing an entry makes of its bucket, and of its size. */
  lemma MergedBucket(r: Scan, e: Entry)
    requires r.rest != [] && Size(e) == Size(r.rest[0])
    ensures (r.seen + r.rest)[|r.seen| := e] == r.seen + ([e] + r.rest[1..])
    ensures Total(r.seen + ([e] + r.rest[1..])) == Total(r.seen + r.rest)
  {
    TotalConcat(r.seen, r.rest);
    TotalConcat(r.seen, [e] + r.rest[1..]);
    assert ([e] + r.rest[1..])[1..] == r.rest[1..];
  }

  lemma EmptySearch(b: State, q: Query, now: ticks)
    requires InRange(b) && b.buckets[Bucket(b, q.ip, q.port)] == []
    ensures Blocklist.Find(b, q, now) == Scan([], []) && AfterFind(b, q, now) == b
  {
  }

  /** One turn of the cleaning. */
  lemma CleanFromStep(b: State, l: Limits, k: nat, t0: ticks, now: ticks, clock: nat -> ticks, c: nat)
    requires InRange(b) && k <= TABLE_SIZE
    ensures k == TABLE_SIZE ==> CleanFrom(b, l, k, t0, now, clock, c) == Cleaning(b, 0, k, Done)
    ensures k < TABLE_SIZE && b.buckets[Place(l, k)] == [] ==>
              CleanFrom(b, l, k, t0, now, clock, c) == CleanFrom(b, l, k + 1, t0, now, clock, c)
    ensures k < TABLE_SIZE && b.buckets[Place(l, k)] != [] ==>
              var s := CleanBucket(b.buckets[Place(l, k)], After(now, l.delta), b.mem, l.target);
              var d := With(b, Place(l, k), s.left);
              && (s.stop ==> CleanFrom(b, l, k, t0, now, clock, c) == Cleaning(d, s.no, k, Target))
              && (!s.stop && (clock(c) - t0) % MODULUS >= l.timeout ==>
                    CleanFrom(b, l, k, t0, now, clock, c) == Cleaning(d, s.no, k, TimedOut))
              && (!s.stop && (clock(c) - t0) % MODULUS < l.timeout ==>
                    CleanFrom(b, l, k, t0, now, clock, c)
                    == var r := CleanFrom(d, l, k + 1, t0, clock(c), clock, c + 1); r.(no := r.no + s.no))
  {
    hide CleanBucket, Place, After, Total;
  }
}
