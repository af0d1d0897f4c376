/** Adding to the destination blocklist (src/core/dst_blocklist.c:692-756), and what it does to lookups. */
module BlocklistAdd {
  import opened Seqs
  import opened Ticks
  import opened Blocklist
  import opened BlocklistOps

  const E_OUT_OF_MEM := -2
  const CLEAN_TICKS := 4     // MS_TO_TICKS(250)

  /** The IPv6 bit is the table's own: callers cannot set or clear it. */
  function Flags(err: set<nat>, ip: seq<int>): (f: set<nat>)
    ensures IS_IPV6 in f <==> IsV6(ip)
    ensures f - {IS_IPV6} == err - {IS_IPV6}
  {
    if IsV6(ip) then err + {IS_IPV6} else err - {IS_IPV6}
  }

  function Merged(e: Entry, flags: set<nat>, expire: ticks): (r: Entry)
  {
    e.(flags := e.flags + flags, expire := expire)
  }

  /** The entry found gets the new flags and the new time. */
  function Merge(b: State, q: Query, now: ticks, flags: set<nat>, expire: ticks): (r: State)
    requires InRange(b) && Find(b, q, now).rest != []
  {
    var r := Find(b, q, now);
    With(b, Bucket(b, q.ip, q.port), r.seen + ([Merged(r.rest[0], flags, expire)] + r.rest[1..]))
  }

  function New(q: Query, flags: set<nat>, expire: ticks): (e: Entry)
  {
    Entry(q.ip, q.port, q.proto, flags, expire)
  }

  /** A new entry goes to the head of its bucket. */
  function Insert(b: State, q: Query, flags: set<nat>, expire: ticks): (r: State)
    requires InRange(b)
  {
    var h := Bucket(b, q.ip, q.port);
    With(b, h, [New(q, flags, expire)] + b.buckets[h])
  }

  lemma MergeInv(b: State, q: Query, now: ticks, err: set<nat>, expire: ticks)
    requires Inv(b) && Find(b, q, now).rest != []
    ensures Inv(Merge(b, q, now, Flags(err, q.ip), expire))
  {
    hide NoConflict, Reached;
    FindInv(b, q, now);
    var c, h, r := AfterFind(b, q, now), Bucket(b, q.ip, q.port), Find(b, q, now);
    var e := Merged(r.rest[0], Flags(err, q.ip), expire);
    assert BucketOk(c, h);
    ReplaceNoConflict(r.seen, r.rest, e);
    assert Belongs(b, h, r.seen + r.rest);
    assert r.rest[0] in r.seen + r.rest;
    BelongsSub(b, h, r.seen + r.rest[1..], r.seen + r.rest);
    assert Belongs(b, h, r.seen + ([e] + r.rest[1..]));
    WithInv(b, h, r.seen + ([e] + r.rest[1..]));
  }

  lemma ReplaceNoConflict(s: seq<Entry>, t: seq<Entry>, e: Entry)
    requires t != [] && NoConflict(s + t)
    requires e.ip == t[0].ip && e.port == t[0].port && e.proto == t[0].proto
    ensures NoConflict(s + ([e] + t[1..]))
  {
    var u := [e] + t[1..];
    NoConflictConcat(s, t);
    NoConflictConcat(s, u);
    assert u[1..] == t[1..];
    assert ClearOf(e, t[1..]) by { assert ClearOf(t[0], t[1..]); }
    forall x | x in s ensures ClearOf(x, u) {
      assert ClearOf(x, t);
      assert t[0] in t;
    }
  }

  /** Inserting keeps the table in order if and only if nothing in the bucket conflicts with the
      new entry. (The lock is given up while memory is freed, so another process can get there first.) */
  lemma InsertInv(b: State, q: Query, err: set<nat>, expire: ticks)
    requires Inv(b)
    ensures Inv(Insert(b, q, Flags(err, q.ip), expire))
            <==> ClearOf(New(q, Flags(err, q.ip), expire), b.buckets[Bucket(b, q.ip, q.port)])
  {
    hide Conflict;
    var h, e := Bucket(b, q.ip, q.port), New(q, Flags(err, q.ip), expire);
    var s := b.buckets[h];
    assert BucketOk(b, h);
    assert ([e] + s)[1..] == s;
    if ClearOf(e, s) {
      assert Belongs(b, h, [e] + s);
      WithInv(b, h, [e] + s);
    } else {
      assert !NoConflict([e] + s);
      assert !BucketOk(Insert(b, q, Flags(err, q.ip), expire), h);
    }
  }

  datatype Added = Added(b: State, ret: int, passed: nat)

  /** dst_blocklist_add_ip; `passed` is how far the cleaning went. */
  function Add(b: State, q: Query, err: set<nat>, timeout: ticks, now: ticks,
               max: int, first: nat, clock: nat -> ticks, alloc: bool): (r: Added)
    requires Inv(b)
  {
    var f, expire := Flags(err, q.ip), After(now, timeout);
    if Find(b, q, now).rest != [] then Added(Merge(b, q, now, f, expire), 0, 0)
    else
      FindInv(b, q, now);
      var c, size := AfterFind(b, q, now), Size(New(q, f, expire));
      var full := c.mem + size >= max;
      var d := if full then Clean(c, AddLimits(c, first), clock) else Cleaning(c, 0, 0, Done);
      CleanInRange(c, AddLimits(c, first), clock);
      if full && d.b.mem + size >= max then Added(d.b, -1, d.passed)
      else if !alloc then Added(d.b, E_OUT_OF_MEM, d.passed)
      else Added(Insert(d.b, q, f, expire), 0, d.passed)
  }

  /** Frees down to 14 sixteenths of what is used, for at most 250 ms. */
  function AddLimits(b: State, first: nat): (l: Limits)
  {
    Limits(b.mem / 16 * 14, 0, CLEAN_TICKS, first)
  }

  lemma CleanInRange(b: State, l: Limits, clock: nat -> ticks)
    requires Inv(b)
    ensures Inv(Clean(b, l, clock).b) && InRange(Clean(b, l, clock).b)
    ensures Clean(b, l, clock).b.hash == b.hash && Clean(b, l, clock).b.mem <= b.mem
  {
    hide CleanFrom, Inv;
    InvRange(b);
    CleanFromInv(b, l, 0, clock(0), clock(0), clock, 1);
    InvRange(Clean(b, l, clock).b);
  }

  /** After a miss nothing in the bucket conflicts with what was asked for. */
  lemma MissClear(b: State, q: Query, now: ticks, flags: set<nat>, expire: ticks)
    requires Inv(b) && Find(b, q, now).rest == []
    ensures ClearOf(New(q, flags, expire), AfterFind(b, q, now).buckets[Bucket(b, q.ip, q.port)])
  {
    hide Expired, NoConflict;
    var h := Bucket(b, q.ip, q.port);
    assert BucketOk(b, h);
    SearchMembers(b.buckets[h], q, now);
    assert Left(Find(b, q, now)) == Find(b, q, now).seen;
    assert forall x :: x in Left(Find(b, q, now)) ==> x in b.buckets[h] && !Matches(x, q);
  }

  /** Cleaning only takes away, so a bucket stays clear of an entry. */
  lemma {:induction false} CleanFromClear(b: State, l: Limits, k: nat, t0: ticks, now: ticks, clock: nat -> ticks,
                                          c: nat, e: Entry, g: nat)
    requires InRange(b) && k <= TABLE_SIZE && g < TABLE_SIZE && ClearOf(e, b.buckets[g])
    ensures var r := CleanFrom(b, l, k, t0, now, clock, c).b; |r.buckets| == TABLE_SIZE && ClearOf(e, r.buckets[g])
    decreases TABLE_SIZE - k
  {
    hide CleanBucket, Total, Place, After, Reached, Conflict;
    if k < TABLE_SIZE {
      var h := Place(l, k);
      if b.buckets[h] == [] {
        CleanFromClear(b, l, k + 1, t0, now, clock, c, e, g);
      } else {
        var s := CleanBucket(b.buckets[h], After(now, l.delta), b.mem, l.target);
        CleanBucketKeeps(b.buckets[h], After(now, l.delta), b.mem, l.target);
        assert ClearOf(e, With(b, h, s.left).buckets[g]);
        CleanFromClear(With(b, h, s.left), l, k + 1, t0, clock(c), clock, c + 1, e, g);
      }
    }
  }

  /** The table stays in order, and the byte counter stays below its limit once it is. */
  lemma AddInv(b: State, q: Query, err: set<nat>, timeout: ticks, now: ticks,
               max: int, first: nat, clock: nat -> ticks, alloc: bool)
    requires Inv(b)
    ensures var r := Add(b, q, err, timeout, now, max, first, clock, alloc);
            Inv(r.b) && r.b.hash == b.hash && (r.b.mem < max || r.b.mem <= b.mem)
  {
    hide Inv, CleanFrom, Conflict, Belongs, NoConflict, Total, Search, ClearOf, After;
    InvRange(b);
    var f, expire := Flags(err, q.ip), After(now, timeout);
    if Find(b, q, now).rest != [] {
      MergeInv(b, q, now, err, expire);
      MergeSize(b, q, now, f, expire);
    } else {
      FindInv(b, q, now);
      var c, h := AfterFind(b, q, now), Bucket(b, q.ip, q.port);
      InvRange(c);
      FindSize(b, q, now);
      MissClear(b, q, now, f, expire);
      CleanInRange(c, AddLimits(c, first), clock);
      CleanFromClear(c, AddLimits(c, first), 0, clock(0), clock(0), clock, 1, New(q, f, expire), h);
      InsertInv(c, q, err, expire);
      InsertInv(Clean(c, AddLimits(c, first), clock).b, q, err, expire);
      InsertSize(c, q, f, expire);
      InsertSize(Clean(c, AddLimits(c, first), clock).b, q, f, expire);
    }
  }

  lemma FindSize(b: State, q: Query, now: ticks)
    requires InRange(b)
    ensures AfterFind(b, q, now).mem <= b.mem
  {
    SearchTotal(b.buckets[Bucket(b, q.ip, q.port)], q, now);
  }

  lemma InsertSize(b: State, q: Query, flags: set<nat>, expire: ticks)
    requires InRange(b)
    ensures Insert(b, q, flags, expire).mem == b.mem + Size(New(q, flags, expire))
  {
    var s := b.buckets[Bucket(b, q.ip, q.port)];
    assert ([New(q, flags, expire)] + s)[1..] == s;
  }

  lemma MergeSize(b: State, q: Query, now: ticks, flags: set<nat>, expire: ticks)
    requires InRange(b) && Find(b, q, now).rest != [] && (IS_IPV6 in flags <==> IsV6(q.ip))
    ensures Merge(b, q, now, flags, expire).mem <= b.mem
  {
    hide Reached;
    var r := Find(b, q, now);
    var u := [Merged(r.rest[0], flags, expire)] + r.rest[1..];
    SearchTotal(b.buckets[Bucket(b, q.ip, q.port)], q, now);
    TotalConcat(r.seen, r.rest);
    TotalConcat(r.seen, u);
    assert u[1..] == r.rest[1..];
  }

  // ----- what an add does to lookups -----

  /** now + timeout is still ahead of now. */
  predicate Future(timeout: ticks)
  {
    0 < timeout <= MODULUS / 2
  }

  lemma FutureLive(now: ticks, timeout: ticks)
    ensures Reached(now, After(now, timeout)) <==> !Future(timeout)
  {
  }

  predicate Hit(b: State, q: Query, now: ticks)
    requires InRange(b)
  {
    Find(b, q, now).rest != []
  }

  /** A lookup in a bucket made of entries that do not match, one entry, and a tail. */
  lemma PastSeen(b: State, q: Query, p: Query, now: ticks, e: Entry, t: seq<Entry>, c: State)
    requires InRange(b) && InRange(c) && c.hash == b.hash && p.ip == q.ip && p.port == q.port
    requires q.proto == PROTO_NONE || q.proto == p.proto
    requires c.buckets[Bucket(b, q.ip, q.port)] == Find(b, q, now).seen + ([e] + t)
    ensures Hit(c, p, now)
            <==> (!Expired(e, now) && Matches(e, p)) || FirstMatch(Live(t, now), p) != None
    ensures !Expired(e, now) && Matches(e, p) ==> Blocked(c, p, now) == e.flags
  {
    hide Expired, Live;
    var h, seen := Bucket(b, q.ip, q.port), Find(b, q, now).seen;
    SearchMembers(b.buckets[h], q, now);
    SearchIsFirst(c.buckets[h], p, now);
    LiveConcat(seen, [e] + t, now);
    LiveMembers(seen, now);
    assert forall x :: x in seen ==> !Matches(x, p);
    NoneBefore(Live(seen, now), Live([e] + t, now), p);
    LiveCons(e, t, now);
    var l := Live(t, now);
    assert ([e] + l)[1..] == l;
  }

  lemma LiveCons(e: Entry, t: seq<Entry>, now: ticks)
    ensures Live([e] + t, now) == if Expired(e, now) then Live(t, now) else [e] + Live(t, now)
  {
    hide Expired;
    assert ([e] + t)[1..] == t;
  }

  /** A merge changes no lookup's outcome, whatever protocol it asks for: it only renews what
      was found already. */
  lemma MergeHits(b: State, q: Query, p: Query, now: ticks, err: set<nat>, expire: ticks)
    requires Inv(b) && Hit(b, q, now) && p.ip == q.ip && p.port == q.port && !Reached(now, expire)
    requires q.proto == PROTO_NONE || q.proto == p.proto
    ensures InRange(Merge(b, q, now, Flags(err, q.ip), expire))
    ensures Hit(Merge(b, q, now, Flags(err, q.ip), expire), p, now) <==> Hit(b, p, now)
  {
    hide NoConflict, Belongs, Live, Search;
    MergeInv(b, q, now, err, expire);
    var r, f := Find(b, q, now), Flags(err, q.ip);
    var e := Merged(r.rest[0], f, expire);
    PastSeen(b, q, p, now, e, r.rest[1..], Merge(b, q, now, f, expire));
    FindInv(b, q, now);
    assert [r.rest[0]] + r.rest[1..] == r.rest;
    PastSeen(b, q, p, now, r.rest[0], r.rest[1..], AfterFind(b, q, now));
    SameAfterFind(b, q, p, now);
  }

  lemma SameAfterFind(b: State, q: Query, p: Query, now: ticks)
    requires Inv(b)
    ensures InRange(AfterFind(b, q, now)) && (Hit(AfterFind(b, q, now), p, now) <==> Hit(b, p, now))
  {
    hide Expired, Live, NoConflict, Belongs, Matches;
    FindInv(b, q, now);
    var h, c := Bucket(b, p.ip, p.port), AfterFind(b, q, now);
    SearchLive(b.buckets[Bucket(b, q.ip, q.port)], q, now);
    assert Live(c.buckets[h], now) == Live(b.buckets[h], now);
    SearchIsFirst(b.buckets[h], p, now);
    SearchIsFirst(c.buckets[h], p, now);
  }

  /** What was added is found: a destination just added is blocked, with at least the flags given,
      if and only if its time to expire lies ahead. */
  lemma AddBlocks(b: State, q: Query, err: set<nat>, timeout: ticks, now: ticks,
                  max: int, first: nat, clock: nat -> ticks, alloc: bool)
    requires Inv(b) && q.proto != PROTO_NONE
    requires Add(b, q, err, timeout, now, max, first, clock, alloc).ret == 0
    ensures var r := Add(b, q, err, timeout, now, max, first, clock, alloc).b;
            && InRange(r)
            && (Hit(r, q, now) <==> Future(timeout))
            && (Future(timeout) ==> Flags(err, q.ip) <= Blocked(r, q, now))
  {
    hide NoConflict, Belongs, Live, Search, CleanFrom, After, Reached, Inv, InRange;
    InvRange(b);
    AddInv(b, q, err, timeout, now, max, first, clock, alloc);
    FutureLive(now, timeout);
    var f, expire := Flags(err, q.ip), After(now, timeout);
    var r := Add(b, q, err, timeout, now, max, first, clock, alloc).b;
    InvRange(r);
    if Hit(b, q, now) {
      var s := Find(b, q, now);
      PastSeen(b, q, q, now, Merged(s.rest[0], f, expire), s.rest[1..], r);
      RestIsOther(b, q, now);
    } else {
      InsertedAlone(b, q, err, timeout, now, max, first, clock, alloc);
      AloneHit(r, q, q, New(q, f, expire), now);
    }
  }

  /** After a miss the new entry stands alone: any lookup it matches finds it. */
  lemma InsertedAlone(b: State, q: Query, err: set<nat>, timeout: ticks, now: ticks,
                      max: int, first: nat, clock: nat -> ticks, alloc: bool)
    requires Inv(b) && !Hit(b, q, now)
    requires Add(b, q, err, timeout, now, max, first, clock, alloc).ret == 0
    ensures var r := Add(b, q, err, timeout, now, max, first, clock, alloc).b;
            var e := New(q, Flags(err, q.ip), After(now, timeout));
            InRange(r) && Alone(r, q, e)
  {
    hide NoConflict, Belongs, Live, Search, CleanFrom, After, Reached, Inv, InRange, Conflict;
    InvRange(b);
    AddInv(b, q, err, timeout, now, max, first, clock, alloc);
    InvRange(Add(b, q, err, timeout, now, max, first, clock, alloc).b);
    FindInv(b, q, now);
    var c, h, e := AfterFind(b, q, now), Bucket(b, q.ip, q.port), New(q, Flags(err, q.ip), After(now, timeout));
    InvRange(c);
    MissClear(b, q, now, e.flags, e.expire);
    CleanInRange(c, AddLimits(c, first), clock);
    CleanFromClear(c, AddLimits(c, first), 0, clock(0), clock(0), clock, 1, e, h);
  }

  /** The entry heads its bucket and nothing after it conflicts with it. */
  ghost predicate Alone(b: State, q: Query, e: Entry)
    requires InRange(b)
  {
    var s := b.buckets[Bucket(b, q.ip, q.port)];
    s != [] && s[0] == e && ClearOf(e, s[1..])
  }

  lemma AloneHit(b: State, q: Query, p: Query, e: Entry, now: ticks)
    requires InRange(b) && Alone(b, q, e) && e == New(q, e.flags, e.expire) && (IS_IPV6 in e.flags <==> IsV6(q.ip))
    requires p.ip == q.ip && p.port == q.port && (q.proto == PROTO_NONE || q.proto == p.proto)
    ensures Hit(b, p, now) <==> !Expired(e, now)
    ensures !Expired(e, now) ==> Blocked(b, p, now) == e.flags
  {
    hide Expired, Live;
    var s := b.buckets[Bucket(b, q.ip, q.port)];
    var l := Live(s[1..], now);
    assert [s[0]] + s[1..] == s;
    LiveCons(e, s[1..], now);
    assert ([e] + l)[1..] == l;
    SearchIsFirst(s, p, now);
    LiveMembers(s[1..], now);
    forall x | x in l ensures !Matches(x, p) {
      assert !Conflict(e, x);
    }
    NoneBefore(l, [], p);
    assert l + [] == l;
  }

  /** A wildcard blocks every protocol if and only if it made an entry of its own; merged into an
      entry found before, it leaves each protocol blocked or not as it was. */
  lemma WildcardCovers(b: State, q: Query, p: Query, err: set<nat>, timeout: ticks, now: ticks,
                       max: int, first: nat, clock: nat -> ticks, alloc: bool)
    requires Inv(b) && q.proto == PROTO_NONE && p.ip == q.ip && p.port == q.port && Future(timeout)
    requires Add(b, q, err, timeout, now, max, first, clock, alloc).ret == 0
    ensures var r := Add(b, q, err, timeout, now, max, first, clock, alloc).b;
            InRange(r) && (Hit(r, p, now) <==> !Hit(b, q, now) || Hit(b, p, now))
  {
    hide NoConflict, Belongs, Live, Search, CleanFrom, After, Reached, Inv, InRange;
    InvRange(b);
    FutureLive(now, timeout);
    var f, expire := Flags(err, q.ip), After(now, timeout);
    if Hit(b, q, now) {
      MergeHits(b, q, p, now, err, expire);
    } else {
      InsertedAlone(b, q, err, timeout, now, max, first, clock, alloc);
      AloneHit(Add(b, q, err, timeout, now, max, first, clock, alloc).b, q, p, New(q, f, expire), now);
    }
  }

  /** What a lookup finds in a list. */
  function Seen(s: seq<Entry>, p: Query, t: ticks): (r: Option<Entry>)
  {
    FirstMatch(Live(s, t), p)
  }

  lemma SeenConcat(x: seq<Entry>, y: seq<Entry>, p: Query, t: ticks)
    ensures Seen(x + y, p, t) == if Seen(x, p, t) != None then Seen(x, p, t) else Seen(y, p, t)
  {
    LiveConcat(x, y, t);
    FirstConcat(Live(x, t), Live(y, t), p);
  }

  lemma {:induction false} FirstConcat(x: seq<Entry>, y: seq<Entry>, p: Query)
    ensures FirstMatch(x + y, p) == if FirstMatch(x, p) != None then FirstMatch(x, p) else FirstMatch(y, p)
  {
    hide Matches;
    if x == [] {
      assert x + y == y;
    } else {
      assert (x + y)[1..] == x[1..] + y;
      FirstConcat(x[1..], y, p);
    }
  }

  lemma SeenOne(e: Entry, y: seq<Entry>, p: Query, t: ticks)
    requires !Matches(e, p)
    ensures Seen([e] + y, p, t) == Seen(y, p, t)
  {
    hide Matches, Expired;
    LiveCons(e, y, t);
    assert ([e] + Live(y, t))[1..] == Live(y, t);
  }

  lemma SeenIsBlocked(b: State, c: State, p: Query, t: ticks)
    requires InRange(b) && InRange(c) && b.hash == c.hash
    requires Seen(b.buckets[Bucket(b, p.ip, p.port)], p, t) == Seen(c.buckets[Bucket(b, p.ip, p.port)], p, t)
    ensures Blocked(b, p, t) == Blocked(c, p, t)
  {
    hide Matches, Expired, Live;
    SearchIsFirst(b.buckets[Bucket(b, p.ip, p.port)], p, t);
    SearchIsFirst(c.buckets[Bucket(b, p.ip, p.port)], p, t);
  }

  predicate Elsewhere(p: Query, q: Query)
  {
    p.ip != q.ip || p.port != q.port
  }

  lemma MergeOthers(b: State, q: Query, p: Query, now: ticks, flags: set<nat>, expire: ticks, t: ticks)
    requires InRange(b) && Hit(b, q, now) && Elsewhere(p, q) && AllStayExpired(b, now, t)
    ensures var r := Merge(b, q, now, flags, expire); InRange(r) && Blocked(r, p, t) == Blocked(b, p, t)
  {
    hide Expired, Live, Search, Seen;
    var r, h := Find(b, q, now), Bucket(b, q.ip, q.port);
    var e := Merged(r.rest[0], flags, expire);
    SearchLive(b.buckets[h], q, now);
    SearchMembers(b.buckets[h], q, now);
    LiveLater(b.buckets[h], Left(r), now, t);
    assert Seen(Left(r), p, t) == Seen(b.buckets[h], p, t) by { SeenByLive(Left(r), b.buckets[h], p, t); }
    SeenConcat(r.seen, r.rest, p, t);
    SeenConcat(r.seen, [e] + r.rest[1..], p, t);
    assert [r.rest[0]] + r.rest[1..] == r.rest;
    SeenOne(r.rest[0], r.rest[1..], p, t);
    SeenOne(e, r.rest[1..], p, t);
    SeenIsBlocked(b, Merge(b, q, now, flags, expire), p, t);
  }

  lemma SeenByLive(s: seq<Entry>, r: seq<Entry>, p: Query, t: ticks)
    requires Live(s, t) == Live(r, t)
    ensures Seen(s, p, t) == Seen(r, p, t)
  {
  }

  lemma InsertOthers(b: State, q: Query, p: Query, flags: set<nat>, expire: ticks, t: ticks)
    requires InRange(b) && Elsewhere(p, q)
    ensures InRange(Insert(b, q, flags, expire)) && Blocked(Insert(b, q, flags, expire), p, t) == Blocked(b, p, t)
  {
    hide Expired, Live, Search, Seen;
    SeenOne(New(q, flags, expire), b.buckets[Bucket(b, q.ip, q.port)], p, t);
    SeenIsBlocked(b, Insert(b, q, flags, expire), p, t);
  }

  /** Whether it merges, inserts, cleans or fails, an add changes no later answer about another
      address or port. */
  lemma AddOthers(b: State, q: Query, p: Query, err: set<nat>, timeout: ticks, now: ticks,
                  max: int, first: nat, clock: nat -> ticks, alloc: bool, t: ticks)
    requires Inv(b) && Elsewhere(p, q) && AllStayExpired(b, now, t) && Late(b, 0, clock(0), clock, t)
    ensures var r := Add(b, q, err, timeout, now, max, first, clock, alloc).b;
            InRange(r) && Blocked(r, p, t) == Blocked(b, p, t)
  {
    hide NoConflict, Belongs, CleanFrom, After, Reached, Inv, InRange, Late, AllStayExpired, SameLive, Live, Search;
    hide AllIn;
    InvRange(b);
    var f, expire := Flags(err, q.ip), After(now, timeout);
    if Hit(b, q, now) {
      MergeOthers(b, q, p, now, f, expire, t);
    } else {
      FindInv(b, q, now);
      FindKeepsAnswers(b, q, now, p, t);
      var c, h := AfterFind(b, q, now), Bucket(b, q.ip, q.port);
      SearchMembers(b.buckets[h], q, now);
      LateWith(b, h, Left(Find(b, q, now)), 0, clock(0), clock, 0, t);
      var d := Clean(c, AddLimits(c, first), clock).b;
      CleanInRange(c, AddLimits(c, first), clock);
      CleanFromLive(c, AddLimits(c, first), 0, clock(0), clock(0), clock, 1, t);
      SameAnswers(c, d, p, t);
      InsertOthers(c, q, p, f, expire, t);
      InsertOthers(d, q, p, f, expire, t);
    }
  }

  lemma HitByAny(b: State, q: Query, now: ticks)
    requires InRange(b) && Hit(b, q, now)
    ensures Hit(b, q.(proto := PROTO_NONE), now)
  {
    hide Expired;
    var s, r := b.buckets[Bucket(b, q.ip, q.port)], Find(b, q, now);
    SearchMembers(s, q, now);
    assert r.rest[0] in Left(r);
    SearchComplete(s, q.(proto := PROTO_NONE), now, r.rest[0]);
  }

  /** The failing family: one protocol blocked first, then the address for any protocol. A lookup
      for a third one still misses, though both adds report success. */
  lemma WildcardShadowed(b: State, q: Query, p: Query, err: set<nat>, timeout: ticks, now: ticks,
                         max: int, clock: nat -> ticks)
    requires Inv(b) && b.mem + 2 * ENTRY_SIZE < max && Future(timeout) && p.ip == q.ip && p.port == q.port
    requires q.proto != PROTO_NONE && p.proto != PROTO_NONE && q.proto != p.proto && !Hit(b, q, now) && !Hit(b, p, now)
    ensures var one := Add(b, q, err, timeout, now, max, 0, clock, true);
            one.ret == 0 && Inv(one.b) &&
            var two := Add(one.b, q.(proto := PROTO_NONE), err, timeout, now, max, 0, clock, true);
            two.ret == 0 && InRange(two.b) && !Hit(two.b, p, now)
  {
    hide NoConflict, Belongs, Live, Search, CleanFrom, After, Reached, Inv, InRange, Seen, Total;
    InvRange(b);
    FindSize(b, q, now);
    var one := Add(b, q, err, timeout, now, max, 0, clock, true);
    AddInv(b, q, err, timeout, now, max, 0, clock, true);
    InvRange(one.b);
    AddBlocks(b, q, err, timeout, now, max, 0, clock, true);
    HitByAny(one.b, q, now);
    StillMisses(b, q, p, now, New(q, Flags(err, q.ip), After(now, timeout)));
    WildcardCovers(one.b, q.(proto := PROTO_NONE), p, err, timeout, now, max, 0, clock, true);
  }

  lemma StillMisses(b: State, q: Query, p: Query, now: ticks, e: Entry)
    requires Inv(b) && !Hit(b, q, now) && !Hit(b, p, now) && e == New(q, e.flags, e.expire) && !Matches(e, p)
    ensures InRange(AfterFind(b, q, now)) && InRange(Insert(AfterFind(b, q, now), q, e.flags, e.expire))
    ensures !Hit(Insert(AfterFind(b, q, now), q, e.flags, e.expire), p, now)
  {
    hide NoConflict, Belongs, Live, Search, Reached, Matches, Total;
    SameAfterFind(b, q, p, now);
    var c, h := AfterFind(b, q, now), Bucket(b, p.ip, p.port);
    var d := Insert(c, q, e.flags, e.expire);
    SeenOne(e, c.buckets[h], p, now);
    SearchIsFirst(c.buckets[h], p, now);
    SearchIsFirst(d.buckets[h], p, now);
  }

  // ----- how long an added destination is blocked -----

  /** The flags found before, those given, and the bit of the table's own. */
  function FlagsAfter(was: set<nat>, err: set<nat>, ip: seq<int>): (f: set<nat>)
  {
    was + (err - {0}) + if |ip| == 16 then {0} else {}
  }

  /** The entry that a successful add leaves for the destination. */
  ghost predicate Holds(r: State, e: Entry, q: Query, flags: set<nat>, timeout: ticks, now: ticks)
  {
    && InTable(r, e) && e.ip == q.ip && e.port == q.port && (e.proto == 0 || q.proto == 0 || e.proto == q.proto)
    && e.expire == (now + timeout) % 0x1_0000_0000 && e.flags == flags
  }

  lemma AddHolds(b: State, q: Query, err: set<nat>, timeout: ticks, now: ticks,
                 max: int, first: nat, clock: nat -> ticks, alloc: bool) returns (e: Entry)
    requires Inv(b) && InRange(b) && Add(b, q, err, timeout, now, max, first, clock, alloc).ret == 0
    ensures Holds(Add(b, q, err, timeout, now, max, first, clock, alloc).b, e, q,
                  FlagsAfter(Blocked(b, q, now), err, q.ip), timeout, now)
  {
    hide Search, CleanFrom, Inv, InRange, Total, InTable;
    InvRange(b);
    var f, expire, s := Flags(err, q.ip), After(now, timeout), Find(b, q, now);
    if s.rest != [] {
      e := Merged(s.rest[0], f, expire);
      FoundLive(b, q, now);
      MergeListed(b, q, now, f, expire);
    } else {
      e := New(q, f, expire);
      FindInv(b, q, now);
      InvRange(AfterFind(b, q, now));
      CleanInRange(AfterFind(b, q, now), AddLimits(AfterFind(b, q, now), first), clock);
      var c := AfterFind(b, q, now);
      InsertListed(if c.mem + Size(e) >= max then Clean(c, AddLimits(c, first), clock).b else c, q, f, expire);
    }
  }

  lemma InsertListed(b: State, q: Query, flags: set<nat>, expire: ticks)
    requires InRange(b)
    ensures InTable(Insert(b, q, flags, expire), New(q, flags, expire))
  {
    var r, h := Insert(b, q, flags, expire), Bucket(b, q.ip, q.port);
    assert r.buckets[h][0] == New(q, flags, expire);
  }

  lemma MergeListed(b: State, q: Query, now: ticks, flags: set<nat>, expire: ticks)
    requires InRange(b) && Find(b, q, now).rest != []
    ensures InTable(Merge(b, q, now, flags, expire), Merged(Find(b, q, now).rest[0], flags, expire))
  {
    hide Search, Total;
    var r, h, s := Merge(b, q, now, flags, expire), Bucket(b, q.ip, q.port), Find(b, q, now);
    assert r.buckets[h][|s.seen|] == Merged(s.rest[0], flags, expire);
  }

  /** A destination added for `timeout` ticks is blocked k ticks later if k is less, at most 2^31 less, with the
      flags it had and those given; and not blocked if k is as much or more, less than 2^31 more. */
  lemma AddBlocksUntil(b: State, q: Query, err: set<nat>, timeout: ticks, now: ticks,
                       max: int, first: nat, clock: nat -> ticks, alloc: bool, k: nat)
    requires Inv(b) && q.proto != 0 && Add(b, q, err, timeout, now, max, first, clock, alloc).ret == 0
    ensures var r, t: ticks := Add(b, q, err, timeout, now, max, first, clock, alloc).b, (now + k) % 0x1_0000_0000;
            && InRange(r)
            && (k < timeout <= k + 0x8000_0000 ==>
                  Find(r, q, t).rest != [] && Blocked(r, q, t) == FlagsAfter(Blocked(b, q, now), err, q.ip))
            && (timeout <= k < timeout + 0x8000_0000 ==> Find(r, q, t).rest == [] && Blocked(r, q, t) == {})
  {
    hide Search, Inv, InRange, Add, Ahead, InTable, FlagsAfter;
    InvRange(b);
    AddInv(b, q, err, timeout, now, max, first, clock, alloc);
    var r, t: ticks := Add(b, q, err, timeout, now, max, first, clock, alloc).b, (now + k) % 0x1_0000_0000;
    InvRange(r);
    var e := AddHolds(b, q, err, timeout, now, max, first, clock, alloc);
    EntryDecides(r, e, q, t);
    LaterTicks(now, timeout, k);
  }

  lemma FoundLive(b: State, q: Query, now: ticks)
    requires InRange(b) && Find(b, q, now).rest != []
    ensures Matches(Find(b, q, now).rest[0], q)
  {
    FoundIsLive(b.buckets[Bucket(b, q.ip, q.port)], q, now);
  }

  lemma AddInSteps(x: nat, d: nat)
    ensures (x % 0x1_0000_0000 + d) % 0x1_0000_0000 == (x + d) % 0x1_0000_0000
  {
  }

  lemma LaterTicks(now: ticks, timeout: ticks, k: nat)
    ensures var t: ticks, x: ticks := (now + k) % 0x1_0000_0000, (now + timeout) % 0x1_0000_0000;
            && (k < timeout <= k + 0x8000_0000 ==> Ahead(t, x))
            && (timeout <= k < timeout + 0x8000_0000 ==> !Ahead(t, x))
  {
    hide Reached;
    var t: ticks, x: ticks := (now + k) % 0x1_0000_0000, (now + timeout) % 0x1_0000_0000;
    ReachedExactly(t, x);
    if k < timeout <= k + 0x8000_0000 {
      AddInSteps(now + k, timeout - k);
      assert AheadBy(t, x, timeout - k);
    } else if timeout <= k < timeout + 0x8000_0000 {
      AddInSteps(now + timeout, k - timeout);
      assert BehindBy(t, x, k - timeout);
    }
  }

  // ----- how much an add frees -----

  lemma {:induction false} BucketStopsInTime(s: seq<Entry>, limit: ticks, mem: int, target: int)
    requires mem >= target
    ensures CleanBucket(s, limit, mem, target).mem + 36 >= target
    ensures !CleanBucket(s, limit, mem, target).stop ==> CleanBucket(s, limit, mem, target).mem >= target
  {
    hide Expired;
    if s != [] {
      var m := if Expired(s[0], limit) then mem - Size(s[0]) else mem;
      if m >= target {
        BucketStopsInTime(s[1..], limit, m, target);
      }
    }
  }

  lemma {:induction false} CleanStopsInTime(b: State, l: Limits, k: nat, t0: ticks, now: ticks, clock: nat -> ticks,
                                            c: nat)
    requires Inv(b) && InRange(b) && k <= TABLE_SIZE && b.mem >= l.target
    ensures CleanFrom(b, l, k, t0, now, clock, c).b.mem + 36 >= l.target
    decreases TABLE_SIZE - k
  {
    hide Inv, InRange, CleanBucket, Total, Place, After;
    InvRange(b);
    if k < TABLE_SIZE {
      var h := Place(l, k);
      if b.buckets[h] == [] {
        CleanStopsInTime(b, l, k + 1, t0, now, clock, c);
      } else {
        var limit := After(now, l.delta);
        CleanStepInv(b, h, limit, l.target);
        BucketStopsInTime(b.buckets[h], limit, b.mem, l.target);
        var s := CleanBucket(b.buckets[h], limit, b.mem, l.target);
        InvRange(With(b, h, s.left));
        if !s.stop {
          CleanStopsInTime(With(b, h, s.left), l, k + 1, t0, clock(c), clock, c + 1);
        }
      }
    }
  }

  /** The bytes in use while an add is under way: before, and what a new entry for the destination takes. */
  function NewSize(ip: seq<int>): (n: nat)
  {
    if |ip| == 16 then 36 else 24
  }

  /** An add that finds no entry fails for lack of room if and only if the new entry, after a cleaning if it did
      not fit before, would reach the limit. The cleaning goes no further than one entry below 7/8. */
  lemma AddRoom(b: State, q: Query, err: set<nat>, timeout: ticks, now: ticks,
                max: int, first: nat, clock: nat -> ticks, alloc: bool)
    requires Inv(b) && InRange(b) && !Hit(b, q, now)
    ensures var r, c := Add(b, q, err, timeout, now, max, first, clock, alloc), AfterFind(b, q, now).mem;
            var m := r.b.mem - if r.ret == 0 then NewSize(q.ip) else 0;
            && (c + NewSize(q.ip) < max ==> m == c && r.ret == if alloc then 0 else -2)
            && (c + NewSize(q.ip) >= max ==>
                  && m <= c && 8 * (m + 36) + 112 > 7 * c
                  && r.ret == if m + NewSize(q.ip) >= max then -1 else if alloc then 0 else -2)
  {
    hide Inv, InRange, CleanFrom, Search, Total, Insert;
    InvRange(b);
    FindInv(b, q, now);
    var c, e := AfterFind(b, q, now), New(q, Flags(err, q.ip), After(now, timeout));
    InvRange(c);
    var l := AddLimits(c, first);
    CleanInRange(c, l, clock);
    SumPositive(c);
    CleanStopsInTime(c, l, 0, clock(0), clock(0), clock, 1);
    assert Size(e) == NewSize(q.ip);
    InsertSize(c, q, e.flags, e.expire);
    InsertSize(Clean(c, l, clock).b, q, e.flags, e.expire);
  }

  lemma SumPositive(b: State)
    requires Inv(b)
    ensures b.mem >= 0
  {
  }

  /** A new entry comes first: asked for without a protocol, its destination is answered with its flags. */
  lemma NewestFirst(b: State, q: Query, flags: set<nat>, expire: ticks, now: ticks)
    requires InRange(b) && Ahead(now, expire) && (0 in flags <==> |q.ip| == 16)
    ensures InRange(Insert(b, q, flags, expire))
    ensures Blocked(Insert(b, q, flags, expire), Query(q.ip, q.port, 0), now) == flags
  {
    hide Total, Ahead, Reached;
    ReachedExactly(now, expire);
    var r, h := Insert(b, q, flags, expire), Bucket(b, q.ip, q.port);
    assert r.buckets[h][0] == New(q, flags, expire);
  }
}
