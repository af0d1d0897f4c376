/** The destination blocklist (src/core/dst_blocklist.c): hash buckets of blocked destinations with
    wildcard protocols, expiry on the way of every search, and a byte counter. */
module Blocklist {
  import opened Seqs
  import opened Ticks

  const PROTO_NONE := 0      // any protocol
  const IS_IPV6 := 0         // bit numbers in the flags
  const PERMANENT := 7
  const TABLE_SIZE := 1024
  const ENTRY_SIZE := 24     // sizeof(struct dst_blst_entry), room for an IPv4 address

  /** Destination asked for; 16 address bytes make it IPv6. */
  datatype Query = Query(ip: seq<int>, port: int, proto: int)

  /** struct dst_blst_entry; the flags are a bit set. */
  datatype Entry = Entry(ip: seq<int>, port: int, proto: int, flags: set<nat>, expire: ticks)

  predicate IsV6(ip: seq<int>)
  {
    |ip| == 16
  }

  predicate Compatible(p: int, q: int)
  {
    p == PROTO_NONE || q == PROTO_NONE || p == q
  }

  predicate Matches(e: Entry, q: Query)
  {
    e.port == q.port && (IS_IPV6 in e.flags <==> IsV6(q.ip)) && Compatible(e.proto, q.proto) && e.ip == q.ip
  }

  predicate Expired(e: Entry, now: ticks)
  {
    Reached(now, e.expire)
  }

  /** DST_BLST_ENTRY_SIZE */
  function Size(e: Entry): (n: nat)
  {
    ENTRY_SIZE + if IS_IPV6 in e.flags then 12 else 0
  }

  function Total(s: seq<Entry>): (n: nat)
  {
    if s == [] then 0 else Size(s[0]) + Total(s[1..])
  }

  lemma {:induction false} TotalConcat(s: seq<Entry>, t: seq<Entry>)
    ensures Total(s + t) == Total(s) + Total(t)
  {
    if s == [] {
      assert s + t == t;
    } else {
      assert (s + t)[1..] == s[1..] + t;
      TotalConcat(s[1..], t);
    }
  }

  // ----- one bucket -----

  /** A search ends with the entries passed over, and the match followed by the rest unseen. */
  datatype Scan = Scan(seen: seq<Entry>, rest: seq<Entry>)

  /** _dst_blocklist_lst_find: expired entries on the way are dropped. */
  function Search(s: seq<Entry>, q: Query, now: ticks): (r: Scan)
    ensures r.rest != [] ==> !Expired(r.rest[0], now) && Matches(r.rest[0], q)
  {
    if s == [] then Scan([], [])
    else if Expired(s[0], now) then Search(s[1..], q, now)
    else if Matches(s[0], q) then Scan([], s)
    else
      var r := Search(s[1..], q, now);
      r.(seen := [s[0]] + r.seen)
  }

  function Left(r: Scan): (s: seq<Entry>)
  {
    r.seen + r.rest
  }

  function Live(s: seq<Entry>, now: ticks): (l: seq<Entry>)
  {
    if s == [] then [] else if Expired(s[0], now) then Live(s[1..], now) else [s[0]] + Live(s[1..], now)
  }

  lemma {:induction false} LiveConcat(s: seq<Entry>, t: seq<Entry>, now: ticks)
    ensures Live(s + t, now) == Live(s, now) + Live(t, now)
  {
    hide Expired;
    if s == [] {
      assert s + t == t;
    } else {
      assert (s + t)[1..] == s[1..] + t;
      LiveConcat(s[1..], t, now);
    }
  }

  /** What the search drops was expired: the live entries are the same, in the same order. */
  lemma {:induction false} SearchLive(s: seq<Entry>, q: Query, now: ticks)
    ensures Live(Left(Search(s, q, now)), now) == Live(s, now)
  {
    hide Expired, Matches;
    if s != [] {
      SearchLive(s[1..], q, now);
      LeftStep(s, q, now);
      var l := Left(Search(s[1..], q, now));
      assert ([s[0]] + l)[1..] == l;
    }
  }

  lemma {:induction false} SearchTotal(s: seq<Entry>, q: Query, now: ticks)
    ensures Total(Left(Search(s, q, now))) <= Total(s)
  {
    hide Expired, Matches, Size;
    if s != [] {
      SearchTotal(s[1..], q, now);
      LeftStep(s, q, now);
      var l := Left(Search(s[1..], q, now));
      assert ([s[0]] + l)[1..] == l;
    }
  }

  lemma LeftStep(s: seq<Entry>, q: Query, now: ticks)
    requires s != []
    ensures Left(Search(s, q, now)) == var l := Left(Search(s[1..], q, now));
                                       if Expired(s[0], now) then l else if Matches(s[0], q) then s else [s[0]] + l
  {
    hide Expired, Matches;
    var r := Search(s[1..], q, now);
    assert [] + s == s;
    assert ([s[0]] + r.seen) + r.rest == [s[0]] + Left(r);
  }

  ghost predicate AllIn(s: seq<Entry>, t: seq<Entry>)
  {
    forall e :: e in s ==> e in t
  }

  lemma {:induction false} SearchMembers(s: seq<Entry>, q: Query, now: ticks)
    ensures AllIn(Left(Search(s, q, now)), s)
    ensures forall e :: e in Search(s, q, now).seen ==> !Expired(e, now) && !Matches(e, q)
  {
    hide Expired, Matches;
    if s != [] {
      SearchMembers(s[1..], q, now);
      var r := Search(s[1..], q, now);
      assert s == [s[0]] + s[1..];
      assert ([s[0]] + r.seen) + r.rest == [s[0]] + Left(r);
      assert [] + s == s;
    }
  }

  // ----- entries that may not stand side by side -----

  /** Same address and port, and a protocol that one query could ask both for. */
  predicate Conflict(a: Entry, b: Entry)
  {
    a.ip == b.ip && a.port == b.port && Compatible(a.proto, b.proto)
  }

  ghost predicate ClearOf(e: Entry, s: seq<Entry>)
  {
    forall x :: x in s ==> !Conflict(e, x)
  }

  ghost predicate NoConflict(s: seq<Entry>)
  {
    s == [] || (ClearOf(s[0], s[1..]) && NoConflict(s[1..]))
  }

  ghost predicate AllClear(s: seq<Entry>, t: seq<Entry>)
  {
    forall x :: x in s ==> ClearOf(x, t)
  }

  lemma {:induction false} NoConflictConcat(s: seq<Entry>, t: seq<Entry>)
    ensures NoConflict(s + t) <==> NoConflict(s) && NoConflict(t) && AllClear(s, t)
  {
    hide Conflict;
    if s == [] {
      assert s + t == t;
    } else {
      assert (s + t)[1..] == s[1..] + t;
      NoConflictConcat(s[1..], t);
      ClearSplit(s, t);
    }
  }

  lemma ClearSplit(s: seq<Entry>, t: seq<Entry>)
    requires s != []
    ensures AllClear(s, t) <==> ClearOf(s[0], t) && AllClear(s[1..], t)
    ensures ClearOf(s[0], s[1..] + t) <==> ClearOf(s[0], s[1..]) && ClearOf(s[0], t)
  {
    hide Conflict;
    if ClearOf(s[0], t) && AllClear(s[1..], t) {
      forall x | x in s ensures ClearOf(x, t) {
        assert x == s[0] || x in s[1..];
      }
    }
    assert forall x :: x in s[1..] + t <==> x in s[1..] || x in t;
  }

  lemma {:induction false} SearchNoConflict(s: seq<Entry>, q: Query, now: ticks)
    requires NoConflict(s)
    ensures NoConflict(Left(Search(s, q, now)))
  {
    hide Expired, Matches, Conflict;
    if s == [] {
      assert Left(Scan([], [])) == [];
    } else {
      SearchNoConflict(s[1..], q, now);
      var r := Search(s[1..], q, now);
      if Expired(s[0], now) {
        assert Search(s, q, now) == r;
      } else if Matches(s[0], q) {
        assert [] + s == s;
      } else {
        SearchMembers(s[1..], q, now);
        assert ([s[0]] + r.seen) + r.rest == [s[0]] + Left(r);
        assert ([s[0]] + Left(r))[1..] == Left(r);
      }
    }
  }

  // ----- the table -----

  datatype State = State(hash: (seq<int>, int) -> nat, buckets: seq<seq<Entry>>, mem: int)

  function Bucket(b: State, ip: seq<int>, port: int): (h: nat)
  {
    b.hash(ip, port)
  }

  function Sum(buckets: seq<seq<Entry>>): (n: nat)
  {
    if buckets == [] then 0 else Total(buckets[0]) + Sum(buckets[1..])
  }

  lemma {:induction false} SumUpdate(buckets: seq<seq<Entry>>, h: nat, s: seq<Entry>)
    requires h < |buckets|
    ensures Sum(buckets[h := s]) == Sum(buckets) - Total(buckets[h]) + Total(s)
  {
    if h == 0 {
      assert buckets[0 := s][1..] == buckets[1..];
    } else {
      assert buckets[h := s][1..] == buckets[1..][h - 1 := s];
      SumUpdate(buckets[1..], h - 1, s);
    }
  }

  ghost predicate InRange(b: State)
  {
    |b.buckets| == TABLE_SIZE && forall ip, port :: b.hash(ip, port) < TABLE_SIZE
  }

  /** An entry belongs to its bucket, and its IPv6 bit says how long its address is. */
  ghost predicate Belongs(b: State, h: nat, s: seq<Entry>)
  {
    forall e :: e in s ==> Bucket(b, e.ip, e.port) == h && (IS_IPV6 in e.flags <==> IsV6(e.ip))
  }

  ghost predicate BucketOk(b: State, h: nat)
    requires h < |b.buckets|
  {
    NoConflict(b.buckets[h]) && Belongs(b, h, b.buckets[h])
  }

  ghost predicate Inv(b: State)
  {
    && InRange(b) && b.mem == Sum(b.buckets)
    && forall h :: 0 <= h < |b.buckets| ==> BucketOk(b, h)
  }

  /** Replaces one bucket and keeps the byte counter in step. */
  function With(b: State, h: nat, s: seq<Entry>): (r: State)
    requires h < |b.buckets|
  {
    b.(buckets := b.buckets[h := s], mem := b.mem - Total(b.buckets[h]) + Total(s))
  }

  lemma WithInv(b: State, h: nat, s: seq<Entry>)
    requires Inv(b) && h < |b.buckets| && NoConflict(s) && Belongs(b, h, s)
    ensures Inv(With(b, h, s))
  {
    hide NoConflict, Total;
    SumUpdate(b.buckets, h, s);
    var r := With(b, h, s);
    forall g | 0 <= g < |r.buckets| ensures BucketOk(r, g) {
      assert BucketOk(b, g);
      assert r.buckets[g] == if g == h then s else b.buckets[g];
    }
  }

  lemma BelongsSub(b: State, h: nat, s: seq<Entry>, t: seq<Entry>)
    requires Belongs(b, h, t) && AllIn(s, t)
    ensures Belongs(b, h, s)
  {
  }

  // ----- lookups -----

  function Find(b: State, q: Query, now: ticks): (r: Scan)
    requires InRange(b)
  {
    Search(b.buckets[Bucket(b, q.ip, q.port)], q, now)
  }

  function AfterFind(b: State, q: Query, now: ticks): (r: State)
    requires InRange(b)
  {
    With(b, Bucket(b, q.ip, q.port), Left(Find(b, q, now)))
  }

  /** dst_is_blocklisted_ip: the flags of the entry found, or 0. */
  function Blocked(b: State, q: Query, now: ticks): (flags: set<nat>)
    requires InRange(b)
  {
    var r := Find(b, q, now);
    if r.rest == [] then {} else r.rest[0].flags
  }

  lemma FindInv(b: State, q: Query, now: ticks)
    requires Inv(b)
    ensures Inv(AfterFind(b, q, now))
  {
    hide NoConflict, Matches, Reached;
    var h := Bucket(b, q.ip, q.port);
    assert BucketOk(b, h);
    SearchNoConflict(b.buckets[h], q, now);
    SearchMembers(b.buckets[h], q, now);
    BelongsSub(b, h, Left(Find(b, q, now)), b.buckets[h]);
    WithInv(b, h, Left(Find(b, q, now)));
  }

  /** Reference: the entry is somewhere in the table, not expired, and matches. */
  ghost predicate Listed(b: State, e: Entry, q: Query, now: ticks)
  {
    !Expired(e, now) && Matches(e, q) && exists h :: 0 <= h < |b.buckets| && e in b.buckets[h]
  }

  lemma ListedHere(b: State, e: Entry, q: Query, now: ticks)
    requires Inv(b) && Listed(b, e, q, now)
    ensures e in b.buckets[Bucket(b, q.ip, q.port)]
  {
    hide NoConflict, Reached, Compatible;
    var h :| 0 <= h < |b.buckets| && e in b.buckets[h];
    assert BucketOk(b, h);
  }

  /** A search misses only when nothing live matches; before a hit everything live was passed over. */
  lemma {:induction false} SearchComplete(s: seq<Entry>, q: Query, now: ticks, e: Entry)
    requires e in s && !Expired(e, now) && Matches(e, q)
    ensures Search(s, q, now).rest != [] && e in Search(s, q, now).rest
  {
    hide Expired, Matches;
    if s[0] != e || s[0] in s[1..] {
      if e in s[1..] {
        SearchComplete(s[1..], q, now, e);
      }
    }
  }

  lemma {:induction false} ConflictPlaces(s: seq<Entry>, i: nat, j: nat)
    requires NoConflict(s) && i < j < |s|
    ensures !Conflict(s[i], s[j])
  {
    hide Conflict;
    if i == 0 {
      assert s[j] == s[1..][j - 1];
    } else {
      ConflictPlaces(s[1..], i - 1, j - 1);
    }
  }

  /** For a concrete protocol a lookup equals a lookup in the plain set of live entries: it hits if
      and only if some live entry matches, and that entry is the only one. */
  lemma LookupIsPlain(b: State, q: Query, now: ticks)
    requires Inv(b) && q.proto != PROTO_NONE
    ensures Find(b, q, now).rest != [] <==> exists e :: Listed(b, e, q, now)
    ensures forall e :: Listed(b, e, q, now) ==> Blocked(b, q, now) == e.flags
  {
    hide Expired, NoConflict;
    var h := Bucket(b, q.ip, q.port);
    var s, r := b.buckets[h], Find(b, q, now);
    assert BucketOk(b, h);
    SearchMembers(s, q, now);
    if r.rest != [] {
      assert r.rest[0] in Left(r);
      assert Listed(b, r.rest[0], q, now);
    }
    forall e | Listed(b, e, q, now) ensures Find(b, q, now).rest != [] && Blocked(b, q, now) == e.flags {
      ListedHere(b, e, q, now);
      SearchComplete(s, q, now, e);
      OnlyOne(s, q, now, e);
    }
  }

  lemma OnlyOne(s: seq<Entry>, q: Query, now: ticks, e: Entry)
    requires NoConflict(s) && q.proto != PROTO_NONE && Matches(e, q)
    requires var r := Search(s, q, now); r.rest != [] && e in r.rest
    ensures e == Search(s, q, now).rest[0]
  {
    hide Expired;
    var r := Search(s, q, now);
    SearchNoConflict(s, q, now);
    NoConflictConcat(r.seen, r.rest);
    var j :| 0 <= j < |r.rest| && r.rest[j] == e;
    if j > 0 {
      ConflictPlaces(r.rest, 0, j);
    }
  }

  // ----- answers depend on the live entries only -----

  function FirstMatch(l: seq<Entry>, q: Query): (r: Option<Entry>)
  {
    if l == [] then None else if Matches(l[0], q) then Some(l[0]) else FirstMatch(l[1..], q)
  }

  lemma {:induction false} SearchIsFirst(s: seq<Entry>, q: Query, now: ticks)
    ensures var r := Search(s, q, now).rest;
            FirstMatch(Live(s, now), q) == if r == [] then None else Some(r[0])
  {
    hide Expired, Matches;
    if s != [] {
      SearchIsFirst(s[1..], q, now);
      var l := Live(s[1..], now);
      assert ([s[0]] + l)[1..] == l;
    }
  }

  /** Same live entries in every bucket at time t. */
  ghost predicate SameLive(b: State, c: State, t: ticks)
  {
    && b.hash == c.hash && |b.buckets| == |c.buckets|
    && forall h :: 0 <= h < |b.buckets| ==> Live(c.buckets[h], t) == Live(b.buckets[h], t)
  }

  lemma SameAnswers(b: State, c: State, q: Query, t: ticks)
    requires InRange(b) && SameLive(b, c, t)
    ensures InRange(c) && Blocked(c, q, t) == Blocked(b, q, t)
  {
    hide Expired, Matches, Live;
    var h := Bucket(b, q.ip, q.port);
    SearchIsFirst(b.buckets[h], q, t);
    SearchIsFirst(c.buckets[h], q, t);
  }

  /** Time t is not before now as far as these entries go: what has expired stays expired. */
  ghost predicate StaysExpired(s: seq<Entry>, now: ticks, t: ticks)
  {
    forall e :: e in s ==> Expired(e, now) ==> Expired(e, t)
  }

  lemma {:induction false} LiveTwice(s: seq<Entry>, now: ticks, t: ticks)
    requires StaysExpired(s, now, t)
    ensures Live(Live(s, now), t) == Live(s, t)
  {
    hide Expired;
    if s != [] {
      assert forall e :: e in s[1..] ==> e in s;
      LiveTwice(s[1..], now, t);
      var l := Live(s[1..], now);
      assert ([s[0]] + l)[1..] == l;
      assert s[0] in s;
    }
  }

  /** Dropping expired entries changes nothing that is live later. */
  lemma LiveLater(s: seq<Entry>, r: seq<Entry>, now: ticks, t: ticks)
    requires Live(r, now) == Live(s, now) && AllIn(r, s) && StaysExpired(s, now, t)
    ensures Live(r, t) == Live(s, t)
  {
    LiveTwice(s, now, t);
    LiveTwice(r, now, t);
  }

  ghost predicate AllStayExpired(b: State, now: ticks, t: ticks)
  {
    forall h :: 0 <= h < |b.buckets| ==> StaysExpired(b.buckets[h], now, t)
  }

  /** Expiry on the way of a search is invisible: whatever is asked later is answered as if the
      search had not touched the table. */
  lemma FindKeepsAnswers(b: State, q: Query, now: ticks, q2: Query, t: ticks)
    requires Inv(b) && AllStayExpired(b, now, t)
    ensures InRange(AfterFind(b, q, now)) && Blocked(AfterFind(b, q, now), q2, t) == Blocked(b, q2, t)
  {
    hide Expired, Matches, Live, NoConflict, Belongs, StaysExpired;
    var h := Bucket(b, q.ip, q.port);
    SearchLive(b.buckets[h], q, now);
    SearchMembers(b.buckets[h], q, now);
    LiveLater(b.buckets[h], Left(Find(b, q, now)), now, t);
    SameAnswers(b, AfterFind(b, q, now), q2, t);
  }

  // ----- deletion -----

  /** _dst_blocklist_del */
  function Del(b: State, q: Query, now: ticks): (r: State)
    requires InRange(b)
  {
    var r := Find(b, q, now);
    if r.rest == [] then AfterFind(b, q, now) else With(b, Bucket(b, q.ip, q.port), r.seen + r.rest[1..])
  }

  lemma DelInv(b: State, q: Query, now: ticks)
    requires Inv(b)
    ensures Inv(Del(b, q, now))
  {
    hide NoConflict, Matches, Reached;
    FindInv(b, q, now);
    var h, r := Bucket(b, q.ip, q.port), Find(b, q, now);
    if r.rest != [] {
      var c := AfterFind(b, q, now);
      assert BucketOk(c, h);
      CutNoConflict(r.seen, r.rest);
      assert AllIn(r.seen + r.rest[1..], c.buckets[h]);
      assert Belongs(b, h, c.buckets[h]);
      BelongsSub(b, h, r.seen + r.rest[1..], c.buckets[h]);
      WithInv(b, h, r.seen + r.rest[1..]);
    }
  }

  lemma CutNoConflict(s: seq<Entry>, t: seq<Entry>)
    requires t != [] && NoConflict(s + t)
    ensures NoConflict(s + t[1..])
  {
    hide Conflict;
    NoConflictConcat(s, t);
    NoConflictConcat(s, t[1..]);
    forall x | x in s ensures ClearOf(x, t[1..]) {
      assert ClearOf(x, t);
    }
  }

  /** Deleting for a concrete protocol leaves nothing live that matches it. A wildcard deletes the
      first match only: nothing is left if and only if there was at most one live match. */
  lemma DelLeaves(b: State, q: Query, now: ticks)
    requires Inv(b)
    ensures InRange(Del(b, q, now))
    ensures q.proto != PROTO_NONE ==> Find(Del(b, q, now), q, now).rest == []
    ensures Find(Del(b, q, now), q, now).rest == []
            <==> Find(b, q, now).rest == [] || FirstMatch(Live(Find(b, q, now).rest[1..], now), q) == None
  {
    hide Expired, Live, NoConflict, Belongs, Matches;
    DelInv(b, q, now);
    var h, r := Bucket(b, q.ip, q.port), Find(b, q, now);
    SearchIsFirst(b.buckets[h], q, now);
    SearchIsFirst(Del(b, q, now).buckets[h], q, now);
    if r.rest == [] {
      SearchLive(b.buckets[h], q, now);
    } else {
      SkipSeen(r.seen, r.rest[1..], q, now, b.buckets[h]);
      if q.proto != PROTO_NONE {
        RestIsOther(b, q, now);
      }
    }
  }

  lemma SkipSeen(seen: seq<Entry>, t: seq<Entry>, q: Query, now: ticks, s: seq<Entry>)
    requires seen == Search(s, q, now).seen
    ensures FirstMatch(Live(seen + t, now), q) == FirstMatch(Live(t, now), q)
  {
    hide Expired, Matches;
    SearchMembers(s, q, now);
    LiveConcat(seen, t, now);
    LiveMembers(seen, now);
    NoneBefore(Live(seen, now), Live(t, now), q);
  }

  lemma {:induction false} LiveMembers(s: seq<Entry>, now: ticks)
    ensures AllIn(Live(s, now), s)
  {
    hide Expired;
    if s != [] {
      LiveMembers(s[1..], now);
      assert s == [s[0]] + s[1..];
    }
  }

  lemma {:induction false} NoneBefore(s: seq<Entry>, t: seq<Entry>, q: Query)
    requires forall e :: e in s ==> !Matches(e, q)
    ensures FirstMatch(s + t, q) == FirstMatch(t, q)
  {
    hide Matches;
    if s == [] {
      assert s + t == t;
    } else {
      assert (s + t)[1..] == s[1..] + t;
      NoneBefore(s[1..], t, q);
    }
  }

  lemma RestIsOther(b: State, q: Query, now: ticks)
    requires Inv(b) && q.proto != PROTO_NONE && Find(b, q, now).rest != []
    ensures FirstMatch(Live(Find(b, q, now).rest[1..], now), q) == None
  {
    hide Expired, Live;
    var h, r := Bucket(b, q.ip, q.port), Find(b, q, now);
    assert BucketOk(b, h);
    SearchNoConflict(b.buckets[h], q, now);
    NoConflictConcat(r.seen, r.rest);
    LiveMembers(r.rest[1..], now);
    forall e | e in Live(r.rest[1..], now) ensures !Matches(e, q) {
      assert ClearOf(r.rest[0], r.rest[1..]);
    }
    NoneBefore(Live(r.rest[1..], now), [], q);
    assert Live(r.rest[1..], now) + [] == Live(r.rest[1..], now);
  }

  // ----- what a lookup means -----

  ghost predicate InTable(b: State, e: Entry)
  {
    exists h :: 0 <= h < |b.buckets| && e in b.buckets[h]
  }

  /** Same address and port, the same protocol or none given on one side, and 1 to 2^31 ticks to go. */
  ghost predicate Blocks(e: Entry, q: Query, now: ticks)
  {
    e.ip == q.ip && e.port == q.port && (e.proto == 0 || q.proto == 0 || e.proto == q.proto) && Ahead(now, e.expire)
  }

  lemma BlocksExactly(b: State, e: Entry, q: Query, now: ticks)
    requires Inv(b) && InTable(b, e)
    ensures Listed(b, e, q, now) <==> Blocks(e, q, now)
  {
    hide NoConflict, Ahead;
    var h :| 0 <= h < |b.buckets| && e in b.buckets[h];
    assert BucketOk(b, h);
    ReachedExactly(now, e.expire);
  }

  /** A lookup hits if and only if an entry of the table blocks the destination, answers with the flags of one
      that does, and for a concrete protocol there is only that one. */
  lemma BlockedExactly(b: State, q: Query, now: ticks)
    requires Inv(b)
    ensures Find(b, q, now).rest != [] <==> exists e :: InTable(b, e) && Blocks(e, q, now)
    ensures Find(b, q, now).rest == [] ==> Blocked(b, q, now) == {}
    ensures Find(b, q, now).rest != [] ==>
              exists e :: InTable(b, e) && Blocks(e, q, now) && Blocked(b, q, now) == e.flags
    ensures q.proto != 0 ==> forall e :: InTable(b, e) && Blocks(e, q, now) ==> Blocked(b, q, now) == e.flags
  {
    hide Expired, NoConflict, Matches, Blocks, Search, BucketOk;
    var h := Bucket(b, q.ip, q.port);
    var s, r := b.buckets[h], Find(b, q, now);
    SearchMembers(s, q, now);
    if r.rest != [] {
      assert r.rest[0] in Left(r);
      assert r.rest[0] in s && InTable(b, r.rest[0]);
      FoundIsLive(s, q, now);
      BlocksExactly(b, r.rest[0], q, now);
    }
    forall e | InTable(b, e) && Blocks(e, q, now)
      ensures r.rest != [] && (q.proto != 0 ==> Blocked(b, q, now) == e.flags)
    {
      BlocksExactly(b, e, q, now);
      ListedHere(b, e, q, now);
      SearchComplete(s, q, now, e);
      if q.proto != 0 {
        LookupIsPlain(b, q, now);
      }
    }
  }

  lemma FoundIsLive(s: seq<Entry>, q: Query, now: ticks)
    ensures var r := Search(s, q, now).rest; r != [] ==> !Expired(r[0], now) && Matches(r[0], q)
  {
  }

  /** The one entry that a query for a concrete protocol can mean decides it at every time. */
  lemma EntryDecides(b: State, e: Entry, q: Query, now: ticks)
    requires Inv(b) && q.proto != 0 && InTable(b, e)
    requires e.ip == q.ip && e.port == q.port && (e.proto == 0 || e.proto == q.proto)
    ensures Find(b, q, now).rest != [] <==> Ahead(now, e.expire)
    ensures Ahead(now, e.expire) ==> Blocked(b, q, now) == e.flags
  {
    hide NoConflict, Ahead, Search, InTable;
    BlockedExactly(b, q, now);
    forall x | InTable(b, x) && Blocks(x, q, now) ensures x == e {
      SameEntry(b, e, x);
    }
    assert Ahead(now, e.expire) ==> Blocks(e, q, now);
  }

  lemma SameEntry(b: State, x: Entry, y: Entry)
    requires Inv(b) && InTable(b, x) && InTable(b, y) && Conflict(x, y)
    ensures x == y
  {
    var g :| 0 <= g < |b.buckets| && x in b.buckets[g];
    var h :| 0 <= h < |b.buckets| && y in b.buckets[h];
    assert BucketOk(b, g) && BucketOk(b, h);
    assert g == h;
    var i :| 0 <= i < |b.buckets[g]| && b.buckets[g][i] == x;
    var j :| 0 <= j < |b.buckets[g]| && b.buckets[g][j] == y;
    if i < j {
      ConflictPlaces(b.buckets[g], i, j);
    } else if j < i {
      ConflictPlaces(b.buckets[g], j, i);
    }
  }

  lemma {:induction false} SearchKeeps(s: seq<Entry>, q: Query, now: ticks, e: Entry)
    requires e in s && !Expired(e, now)
    ensures e in Left(Search(s, q, now))
  {
    hide Expired, Matches;
    LeftStep(s, q, now);
    if e in s[1..] {
      SearchKeeps(s[1..], q, now, e);
    }
  }

  lemma CutMember(s: seq<Entry>, t: seq<Entry>, e: Entry)
    requires t != [] && NoConflict(s + t)
    ensures e in s + t[1..] <==> e in s + t && e != t[0]
  {
    hide Conflict;
    NoConflictConcat(s, t);
    assert forall x :: x in t <==> x == t[0] || x in t[1..];
    assert Conflict(t[0], t[0]) by { SelfConflict(t[0]); }
    assert t[0] !in t[1..] by { assert ClearOf(t[0], t[1..]); }
    forall x | x in s ensures x != t[0] {
      assert ClearOf(x, t) && t[0] in t;
    }
  }

  lemma SelfConflict(e: Entry)
    ensures Conflict(e, e)
  {
  }

  /** Of the entries that have time to go, a deletion takes out the one that blocks the destination, and no other;
      for the wildcard protocol one of those that do. */
  lemma DelExactly(b: State, q: Query, now: ticks, e: Entry)
    requires Inv(b) && InTable(b, e) && Ahead(now, e.expire)
    ensures Blocks(e, q, now) || InTable(Del(b, q, now), e)
    ensures q.proto != 0 && Blocks(e, q, now) ==> !InTable(Del(b, q, now), e)
    ensures forall x :: InTable(Del(b, q, now), x) ==> InTable(b, x)
  {
    hide NoConflict, Ahead, Search, Belongs, Matches;
    var h, r, d := Bucket(b, q.ip, q.port), Find(b, q, now), Del(b, q, now);
    var g :| 0 <= g < |b.buckets| && e in b.buckets[g];
    assert BucketOk(b, h);
    ReachedExactly(now, e.expire);
    SearchMembers(b.buckets[h], q, now);
    SearchNoConflict(b.buckets[h], q, now);
    if g == h {
      SearchKeeps(b.buckets[h], q, now, e);
    }
    forall x ensures x in d.buckets[h] <==> x in Left(r) && (r.rest == [] || x != r.rest[0]) {
      if r.rest != [] {
        CutMember(r.seen, r.rest, x);
      }
    }
    BlocksExactly(b, e, q, now);
    DelFound(b, q, now, e);
    if g != h {
      assert d.buckets[g] == b.buckets[g];
    }
    if q.proto != 0 && Blocks(e, q, now) && InTable(d, e) {
      ListedHere(b, e, q, now);
      DelGone(b, q, now, e);
    }
  }

  /** What is found blocks the destination; and if an entry blocks it, for a concrete protocol that is found. */
  lemma DelFound(b: State, q: Query, now: ticks, e: Entry)
    requires Inv(b) && InTable(b, e)
    ensures var r := Find(b, q, now).rest;
            && (r != [] && r[0] == e ==> Blocks(e, q, now))
            && (q.proto != 0 && Blocks(e, q, now) ==> r != [] && r[0] == e)
  {
    hide NoConflict, Search, Belongs, Blocks;
    var s, r := b.buckets[Bucket(b, q.ip, q.port)], Find(b, q, now);
    assert BucketOk(b, Bucket(b, q.ip, q.port));
    BlocksExactly(b, e, q, now);
    FoundIsLive(s, q, now);
    if q.proto != 0 && Blocks(e, q, now) {
      ListedHere(b, e, q, now);
      SearchComplete(s, q, now, e);
      OnlyOne(s, q, now, e);
    }
  }

  lemma DelGone(b: State, q: Query, now: ticks, e: Entry)
    requires Inv(b) && Find(b, q, now).rest != [] && Find(b, q, now).rest[0] == e
    ensures !InTable(Del(b, q, now), e)
  {
    hide NoConflict, Search;
    var h, r, d := Bucket(b, q.ip, q.port), Find(b, q, now), Del(b, q, now);
    assert BucketOk(b, h);
    SearchMembers(b.buckets[h], q, now);
    SearchNoConflict(b.buckets[h], q, now);
    CutMember(r.seen, r.rest, e);
    assert e in Left(r);
    forall g | 0 <= g < |d.buckets| ensures e !in d.buckets[g] {
      if g != h {
        assert BucketOk(b, g);
      }
    }
  }
}
