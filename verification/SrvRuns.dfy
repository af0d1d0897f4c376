/** What the SRV iterator hands out, in terms of the records of an entry and their times
    (src/core/dns_cache.c:2292-2409). */
module SrvRuns {
  import opened Seqs
  import opened Ticks
  import opened SrvSelect

  /** A record counts while its expiry is 1 to 2^31 ticks ahead; in a permanent entry it always does. */
  ghost predicate InForce(e: SrvEntry, now: ticks, k: nat)
    requires k < |e.rrs|
  {
    e.permanent || Ahead(now, e.rrs[k].expire)
  }

  lemma LiveExactly(e: SrvEntry, now: ticks, k: nat)
    requires k < |e.rrs|
    ensures View(e, now)[k] == Record(e.rrs[k].priority, e.rrs[k].weight, InForce(e, now, k))
  {
    hide Ahead;
    ReachedExactly(now, e.rrs[k].expire);
  }

  /** The 8-bit index is enough for the records in force. */
  ghost predicate IndexSuffices(e: SrvEntry, now: ticks)
  {
    |e.rrs| < 256 || forall k :: |e.rrs| % 256 <= k < |e.rrs| ==> !InForce(e, now, k)
  }

  lemma IndexExactly(e: SrvEntry, now: ticks)
    ensures IndexSuffices(e, now) <==> IndexHolds(View(e, now))
  {
    hide InForce, IsLive, View;
    forall k | 0 <= k < |e.rrs| ensures View(e, now)[k].live <==> InForce(e, now, k) {
      LiveExactly(e, now, k);
    }
  }

  ghost predicate InRange(e: SrvEntry, pick: Option<nat>)
  {
    pick.Some? && pick.value < |e.rrs|
  }

  ghost predicate ByPriority(e: SrvEntry)
  {
    forall j, k :: 0 <= j < k < |e.rrs| ==> e.rrs[j].priority <= e.rrs[k].priority
  }

  /** Answers without repetition, none after a none, and in a sorted entry by priority. */
  ghost predicate Orderly(e: SrvEntry, out: seq<Option<nat>>)
  {
    forall i, j :: 0 <= i < j < |out| && out[j].Some? ==>
      && out[i].Some? && out[i] != out[j]
      && (ByPriority(e) && InRange(e, out[i]) && InRange(e, out[j]) ==>
            e.rrs[out[i].value].priority <= e.rrs[out[j].value].priority)
  }

  lemma {:induction false} UpTo(n: nat, s: set<nat>)
    requires forall k :: k in s ==> k < n
    ensures |s| <= n
  {
    if n == 0 {
      assert s == {};
    } else {
      UpTo(n - 1, s - {n - 1});
    }
  }

  /** A run as long as the entry hands out record k if and only if it is in force; a run of any length
      hands out no other, none twice, and in priority order. */
  lemma HandedOutExactly(e: SrvEntry, now: ticks, seeds: seq<(nat, nat)>)
    requires IndexSuffices(e, now)
    ensures var out := Run(View(e, now), START, seeds);
            && Orderly(e, out)
            && (forall i :: 0 <= i < |out| && out[i].Some? ==> InRange(e, out[i]) && InForce(e, now, out[i].value))
            && (|seeds| >= |e.rrs| ==>
                  forall k :: 0 <= k < |e.rrs| ==> (Some(k) in out <==> InForce(e, now, k)))
  {
    hide InForce, Run, View;
    var v := View(e, now);
    IndexExactly(e, now);
    FullRun(v, seeds);
    forall k | 0 <= k < |v| ensures v[k] == Record(e.rrs[k].priority, e.rrs[k].weight, InForce(e, now, k)) {
      LiveExactly(e, now, k);
    }
    assert ByPriority(e) ==> Sorted(v);
    UpTo(|v|, LiveRecords(v));
  }

  /** The weights of the first `k` records of the group at the cursor that are in force and not yet tried. */
  ghost function OpenWeight(e: SrvEntry, now: ticks, cur: Cursor, k: nat): (sum: nat)
    requires cur.no + k <= |e.rrs|
  {
    if k == 0 then 0
    else OpenWeight(e, now, cur, k - 1)
         + if InForce(e, now, cur.no + k - 1) && k - 1 !in cur.tried then e.rrs[cur.no + k - 1].weight else 0
  }

  lemma {:induction false} SumExactly(e: SrvEntry, now: ticks, cur: Cursor, k: nat)
    requires cur.no < |e.rrs| && k <= GroupLen(View(e, now), cur.no)
    ensures Sum(Group(View(e, now), cur), k) == OpenWeight(e, now, cur, k)
  {
    hide InForce, View, GroupLen, Group;
    if k > 0 {
      SumExactly(e, now, cur, k - 1);
      GroupAt(View(e, now), cur, k - 1);
      LiveExactly(e, now, cur.no + k - 1);
    }
  }

  /** The draws out of the weight sum that make the iterator hand out record k. */
  ghost function DrawsFor(e: SrvEntry, now: ticks, cur: Cursor, seed0: nat, k: nat): (seeds: set<nat>)
    requires cur.no < |e.rrs|
  {
    set seed: nat | seed < OpenWeight(e, now, cur, GroupLen(View(e, now), cur.no))
      && Next(View(e, now), cur, seed, seed0).1 == Some(k)
  }

  /** RFC 2782 for entries: outside the lottery, of the equally likely draws as many hand out a record of the
      group as its weight says, if it is in force and not yet tried, and otherwise none. */
  lemma ShareExactly(e: SrvEntry, now: ticks, cur: Cursor, seed0: nat, k: nat)
    requires cur.no <= k < |e.rrs| && k < cur.no + GroupLen(View(e, now), cur.no)
    requires var s := Group(View(e, now), cur);
             Found(s, |s|) >= 2 && Sum(s, |s|) > 0 && (Zeros(s, |s|) == 0 || Random(seed0, ZERO_WEIGHT_CHANCE) != 0)
    ensures |DrawsFor(e, now, cur, seed0, k)|
            == if InForce(e, now, k) && k - cur.no !in cur.tried then e.rrs[k].weight else 0
  {
    hide InForce, View, GroupLen, Group, Choose, Found, Zeros;
    var v := View(e, now);
    var s := Group(v, cur);
    SumExactly(e, now, cur, |s|);
    GroupAt(v, cur, k - cur.no);
    LiveExactly(e, now, k);
    ProportionalToWeight(s, seed0, k - cur.no);
    assert DrawsFor(e, now, cur, seed0, k) == SeedsFor(s, seed0, k - cur.no);
  }
}
