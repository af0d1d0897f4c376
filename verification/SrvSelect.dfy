/** SRV record selection (src/core/dns_cache.c): the iterator that hands out the
    records of an SRV entry, priority group by priority group, by weighted draw. */
module SrvSelect {
  import opened Seqs
  import opened Ticks

  const MAX_GROUP := 64           // bits in srv_flags_t
  const ZERO_WEIGHT_CHANCE := 1000
  const NO_MODULUS := 256         // the cursor index is an unsigned char

  datatype SrvRr = SrvRr(priority: nat, weight: nat, expire: ticks)

  datatype SrvEntry = SrvEntry(permanent: bool, rrs: seq<SrvRr>)

  /** Start of the current group and, as bit positions, the records of it already handed out. */
  datatype Cursor = Cursor(no: nat, tried: set<nat>)

  const START := Cursor(0, {})

  ghost predicate WellFormed(e: SrvEntry)
  {
    forall k :: 0 <= k < |e.rrs| ==> e.rrs[k].priority < 65536 && e.rrs[k].weight < 65536
  }

  predicate IsLive(e: SrvEntry, now: ticks, k: nat)
    requires k < |e.rrs|
  {
    e.permanent || !Reached(now, e.rrs[k].expire)
  }

  /** A record as one moment sees it. */
  datatype Record = Record(priority: nat, weight: nat, live: bool)

  function View(e: SrvEntry, now: ticks): (v: seq<Record>)
    ensures |v| == |e.rrs|
    ensures forall k :: 0 <= k < |v| ==> v[k] == Record(e.rrs[k].priority, e.rrs[k].weight, IsLive(e, now, k))
  {
    ViewTo(e, now, |e.rrs|)
  }

  function ViewTo(e: SrvEntry, now: ticks, k: nat): (v: seq<Record>)
    requires k <= |e.rrs|
    ensures |v| == k
    ensures forall i :: 0 <= i < k ==> v[i] == Record(e.rrs[i].priority, e.rrs[i].weight, IsLive(e, now, i))
  {
    if k == 0 then []
    else ViewTo(e, now, k - 1) + [Record(e.rrs[k - 1].priority, e.rrs[k - 1].weight, IsLive(e, now, k - 1))]
  }

  // ----- one priority group -----

  /** What the scan sees of a record: may it be chosen, and its weight. */
  datatype Slot = Slot(open: bool, weight: nat)

  /** How far the group of record `n` reaches, given that its first `k` records belong to it. */
  function GroupFrom(v: seq<Record>, n: nat, k: nat): (len: nat)
    requires n < |v| && k <= MAX_GROUP && n + k <= |v|
    ensures k <= len <= MAX_GROUP && n + len <= |v|
    decreases |v| - n - k
  {
    if k < MAX_GROUP && n + k < |v| && v[n + k].priority == v[n].priority then GroupFrom(v, n, k + 1)
    else k
  }

  lemma {:induction false} GroupPriority(v: seq<Record>, n: nat, k: nat, j: nat)
    requires n < |v| && k <= MAX_GROUP && n + k <= |v| && k <= j < GroupFrom(v, n, k)
    ensures v[n + j].priority == v[n].priority
    decreases |v| - n - k
  {
    if k < j {
      GroupPriority(v, n, k + 1, j);
    }
  }

  function GroupLen(v: seq<Record>, n: nat): (len: nat)
    requires n < |v|
    ensures 0 < len <= MAX_GROUP && n + len <= |v|
  {
    GroupFrom(v, n, 0)
  }

  function SlotAt(v: seq<Record>, cur: Cursor, k: nat): (s: Slot)
    requires cur.no + k < |v|
  {
    Slot(v[cur.no + k].live && k !in cur.tried, v[cur.no + k].weight)
  }

  function Slots(v: seq<Record>, cur: Cursor, k: nat): (s: seq<Slot>)
    requires cur.no + k <= |v|
    ensures |s| == k
  {
    if k == 0 then [] else Slots(v, cur, k - 1) + [SlotAt(v, cur, k - 1)]
  }

  lemma {:induction false} SlotsAt(v: seq<Record>, cur: Cursor, k: nat, i: nat)
    requires cur.no + k <= |v| && i < k
    ensures Slots(v, cur, k)[i] == SlotAt(v, cur, i)
  {
    if i < k - 1 {
      SlotsAt(v, cur, k - 1, i);
    }
  }

  function Group(v: seq<Record>, cur: Cursor): (s: seq<Slot>)
    requires cur.no < |v|
    ensures |s| == GroupLen(v, cur.no)
  {
    Slots(v, cur, GroupLen(v, cur.no))
  }

  lemma GroupAt(v: seq<Record>, cur: Cursor, i: nat)
    requires cur.no < |v| && i < GroupLen(v, cur.no)
    ensures Group(v, cur)[i] == SlotAt(v, cur, i)
    ensures v[cur.no + i].priority == v[cur.no].priority
  {
    SlotsAt(v, cur, GroupLen(v, cur.no), i);
    GroupPriority(v, cur.no, 0, i);
  }

  function Weight(s: seq<Slot>, k: nat): (w: nat)
    requires k < |s|
  {
    if s[k].open then s[k].weight else 0
  }

  /** Sum of the weights of the open slots before `k`. */
  function Sum(s: seq<Slot>, k: nat): (sum: nat)
    requires k <= |s|
  {
    if k == 0 then 0 else Sum(s, k - 1) + Weight(s, k - 1)
  }

  function Found(s: seq<Slot>, k: nat): (n: nat)
    requires k <= |s|
  {
    if k == 0 then 0 else Found(s, k - 1) + if s[k - 1].open then 1 else 0
  }

  function Zeros(s: seq<Slot>, k: nat): (n: nat)
    requires k <= |s|
  {
    if k == 0 then 0 else Zeros(s, k - 1) + if s[k - 1].open && s[k - 1].weight == 0 then 1 else 0
  }

  lemma {:induction false} FoundNone(s: seq<Slot>, k: nat)
    requires k <= |s|
    ensures Found(s, k) == 0 <==> forall i :: 0 <= i < k ==> !s[i].open
  {
    if k > 0 {
      FoundNone(s, k - 1);
    }
  }

  /** The slot remembered by the scan: the last open one of weight 0, or else the first open one. */
  function Saved(s: seq<Slot>, k: nat): (i: int)
    requires k <= |s|
    ensures -1 <= i < k
    ensures i == -1 <==> Found(s, k) == 0
    ensures i >= 0 ==> s[i].open
  {
    if k == 0 then -1
    else
      var i := Saved(s, k - 1);
      if s[k - 1].open && (i == -1 || s[k - 1].weight == 0) then k - 1 else i
  }

  /** The running sum stored for slot `k`; 0 marks a slot to skip over. */
  function RunningSum(s: seq<Slot>, k: nat): (sum: nat)
    requires k < |s|
  {
    if s[k].open then Sum(s, k + 1) else 0
  }

  /** First slot from `k` on whose running sum reaches `r`. */
  function FirstReaching(s: seq<Slot>, r: nat, k: nat): (i: nat)
    requires k <= |s|
    ensures k <= i <= |s|
    ensures i < |s| ==> RunningSum(s, i) >= r
    decreases |s| - k
  {
    if k == |s| || RunningSum(s, k) >= r then k else FirstReaching(s, r, k + 1)
  }

  lemma {:induction false} BeforeFirst(s: seq<Slot>, r: nat, k: nat, j: nat)
    requires k <= |s| && k <= j < FirstReaching(s, r, k)
    ensures RunningSum(s, j) < r
    decreases |s| - k
  {
    if k < j {
      BeforeFirst(s, r, k + 1, j);
    }
  }

  /** fastrand_max(max) as a draw that is given from outside: any number, cut to 0..max. */
  function Random(seed: nat, max: nat): (r: nat)
    ensures r <= max
  {
    if seed <= max then seed else max
  }

  predicate Lottery(s: seq<Slot>, seed: nat, seed0: nat)
    requires Sum(s, |s|) > 0
  {
    Random(seed, Sum(s, |s|) - 1) == 0 && Zeros(s, |s|) > 0 && Random(seed0, ZERO_WEIGHT_CHANCE) == 0
  }

  function Choose(s: seq<Slot>, seed: nat, seed0: nat): (i: int)
    requires Found(s, |s|) > 0
    ensures 0 <= i <= |s|
  {
    var sum := Sum(s, |s|);
    if Found(s, |s|) == 1 || sum == 0 || Lottery(s, seed, seed0) then Saved(s, |s|)
    else FirstReaching(s, Random(seed, sum - 1) + 1, 0)
  }

  lemma ChooseOpen(s: seq<Slot>, seed: nat, seed0: nat)
    requires Found(s, |s|) > 0
    ensures var i := Choose(s, seed, seed0); i < |s| && s[i].open
  {
    var sum := Sum(s, |s|);
    if sum > 0 {
      DrawIsOpen(s, Random(seed, sum - 1) + 1);
    }
  }

  lemma {:induction false} SumGrows(s: seq<Slot>, j: nat, k: nat)
    requires j <= k <= |s|
    ensures Sum(s, j) <= Sum(s, k)
  {
    if j < k {
      SumGrows(s, j, k - 1);
    }
  }

  /** A draw between 1 and the sum hits an open slot, the one whose weight interval contains it. */
  lemma DrawIsOpen(s: seq<Slot>, r: nat)
    requires 1 <= r <= Sum(s, |s|)
    ensures var i := FirstReaching(s, r, 0);
            i < |s| && s[i].open && Sum(s, i) < r <= Sum(s, i + 1)
  {
    var i := FirstReaching(s, r, 0);
    forall j | 0 <= j < i ensures RunningSum(s, j) < r {
      BeforeFirst(s, r, 0, j);
    }
    SumBelow(s, r, i);
  }

  /** While no running sum reaches `r`, neither does the sum itself. */
  lemma {:induction false} SumBelow(s: seq<Slot>, r: nat, k: nat)
    requires k <= |s| && r >= 1
    requires forall j :: 0 <= j < k ==> RunningSum(s, j) < r
    ensures Sum(s, k) < r
  {
    if k > 0 {
      SumBelow(s, r, k - 1);
      assert RunningSum(s, k - 1) < r;
    }
  }

  /** The drawn slot is determined by the weight intervals alone. */
  lemma DrawExactly(s: seq<Slot>, r: nat, i: nat)
    requires 1 <= r <= Sum(s, |s|) && i < |s|
    ensures FirstReaching(s, r, 0) == i <==> s[i].open && Sum(s, i) < r <= Sum(s, i + 1)
  {
    DrawIsOpen(s, r);
    var j := FirstReaching(s, r, 0);
    if s[i].open && Sum(s, i) < r <= Sum(s, i + 1) {
      if j < i {
        SumGrows(s, j + 1, i);
      } else if i < j {
        SumGrows(s, i + 1, j);
      }
    }
  }

  ghost function Interval(lo: nat, hi: nat): (r: set<nat>)
    requires lo <= hi
    ensures forall x :: x in r <==> lo <= x < hi
    ensures |r| == hi - lo
  {
    if lo == hi then {} else Interval(lo, hi - 1) + {hi - 1}
  }

  /** The seeds below the weight sum that make the draw choose slot `i`. */
  ghost function SeedsFor(s: seq<Slot>, seed0: nat, i: nat): (seeds: set<nat>)
    requires Found(s, |s|) > 0
  {
    set seed: nat | seed < Sum(s, |s|) && Choose(s, seed, seed0) == i
  }

  /** RFC 2782: without the zero-weight lottery a record is chosen by exactly as many of the
      equally likely draws as its weight says; closed and zero-weight slots by none. */
  lemma ProportionalToWeight(s: seq<Slot>, seed0: nat, i: nat)
    requires Found(s, |s|) >= 2 && Sum(s, |s|) > 0 && i < |s|
    requires Zeros(s, |s|) == 0 || Random(seed0, ZERO_WEIGHT_CHANCE) != 0
    ensures |SeedsFor(s, seed0, i)| == Weight(s, i)
  {
    var sum := Sum(s, |s|);
    SumGrows(s, i + 1, |s|);
    forall seed: nat | seed < sum
      ensures Choose(s, seed, seed0) == i <==> s[i].open && Sum(s, i) <= seed < Sum(s, i + 1)
    {
      SeedExactly(s, seed, seed0, i);
    }
    if s[i].open {
      assert SeedsFor(s, seed0, i) == Interval(Sum(s, i), Sum(s, i + 1));
    } else {
      assert SeedsFor(s, seed0, i) == {};
    }
  }

  /** In terms of the seed, for a sum that the lottery does not cut into. */
  lemma SeedExactly(s: seq<Slot>, seed: nat, seed0: nat, i: nat)
    requires Found(s, |s|) >= 2 && seed < Sum(s, |s|) && i < |s|
    requires Zeros(s, |s|) == 0 || Random(seed0, ZERO_WEIGHT_CHANCE) != 0
    ensures Choose(s, seed, seed0) == i <==> s[i].open && Sum(s, i) <= seed < Sum(s, i + 1)
  {
    SmallSeed(seed, Sum(s, |s|));
    DrawExactly(s, seed + 1, i);
  }

  lemma SmallSeed(seed: nat, sum: nat)
    requires seed < sum
    ensures Random(seed, sum - 1) == seed
  {
  }

  /** When the lottery is won the last open record of weight zero is chosen. */
  lemma {:induction false} LotteryWinner(s: seq<Slot>, k: nat)
    requires k <= |s| && Zeros(s, k) > 0
    ensures var i := Saved(s, k);
            && 0 <= i < k && s[i].open && s[i].weight == 0
            && forall j :: i < j < k ==> !(s[j].open && s[j].weight == 0)
  {
    if !(s[k - 1].open && s[k - 1].weight == 0) {
      LotteryWinner(s, k - 1);
    }
  }

  /** Without weights there is no draw: the last open record is taken. A single open record always is. */
  lemma NoDraw(s: seq<Slot>, seed: nat, seed0: nat)
    requires Found(s, |s|) > 0 && (Found(s, |s|) == 1 || Sum(s, |s|) == 0)
    ensures var i := Choose(s, seed, seed0);
            0 <= i < |s| && s[i].open && forall j :: i < j < |s| ==> !s[j].open
  {
    hide Choose;
    ChooseOpen(s, seed, seed0);
    var i := Choose(s, seed, seed0);
    assert i == Saved(s, |s|) by { SavedChosen(s, seed, seed0); }
    forall j | i < j < |s| ensures !s[j].open {
      if s[j].open {
        if Found(s, |s|) == 1 {
          FoundOne(s, i, j, |s|);
        } else {
          SumGrows(s, j + 1, |s|);
          ZeroIsCounted(s, j, |s|);
          LotteryWinner(s, |s|);
        }
      }
    }
  }

  lemma SavedChosen(s: seq<Slot>, seed: nat, seed0: nat)
    requires Found(s, |s|) > 0 && (Found(s, |s|) == 1 || Sum(s, |s|) == 0)
    ensures Choose(s, seed, seed0) == Saved(s, |s|)
  {
  }

  lemma {:induction false} FoundOne(s: seq<Slot>, i: nat, j: nat, k: nat)
    requires i < j < k <= |s| && s[i].open && s[j].open
    ensures Found(s, k) >= 2
  {
    if j == k - 1 {
      FoundNone(s, k - 1);
      assert s[i].open;
    } else {
      FoundOne(s, i, j, k - 1);
    }
  }

  lemma {:induction false} ZeroIsCounted(s: seq<Slot>, j: nat, k: nat)
    requires j < k <= |s| && s[j].open && s[j].weight == 0
    ensures Zeros(s, k) > 0
  {
    if j < k - 1 {
      ZeroIsCounted(s, j, k - 1);
    }
  }

  /** The pairs of draws that win the lottery. */
  ghost function Wins(s: seq<Slot>): (pairs: set<(nat, nat)>)
    requires Sum(s, |s|) > 0
  {
    set x: nat, y: nat | x < Sum(s, |s|) && y <= ZERO_WEIGHT_CHANCE && Lottery(s, x, y) :: (x, y)
  }

  /** Of the S * 1001 pairs of draws exactly one wins, if a record without weight is open. */
  lemma LotteryOdds(s: seq<Slot>)
    requires Sum(s, |s|) > 0 && Zeros(s, |s|) > 0
    ensures Wins(s) == {(0, 0)}
  {
    assert Lottery(s, 0, 0);
  }

  /** How many pairs of draws, the second one below `n`, choose slot `i`. */
  ghost function PairsFor(s: seq<Slot>, i: nat, n: nat): (pairs: nat)
    requires Found(s, |s|) > 0
  {
    if n == 0 then 0 else PairsFor(s, i, n - 1) + |SeedsFor(s, n - 1, i)|
  }

  /** The lottery included: of the S * 1001 pairs of draws a record is chosen by 1001 for each unit of
      its weight, but the pair that wins the lottery is taken from the first open record with weight
      and given to the last open record without. */
  lemma PairsExactly(s: seq<Slot>, i: nat)
    requires Found(s, |s|) >= 2 && Sum(s, |s|) > 0 && i < |s|
    ensures PairsFor(s, i, ZERO_WEIGHT_CHANCE + 1)
            == 1001 * Weight(s, i)
               + (if Zeros(s, |s|) > 0 && i == Saved(s, |s|) then 1 else 0)
               - if Zeros(s, |s|) > 0 && Weight(s, i) > 0 && Sum(s, i) == 0 then 1 else 0
  {
    hide Choose, SeedsFor;
    if Zeros(s, |s|) == 0 {
      ProportionalToWeight(s, 0, i);
    } else {
      WonSeeds(s, i);
    }
    PairsFrom(s, i, ZERO_WEIGHT_CHANCE + 1);
  }

  lemma {:induction false} PairsFrom(s: seq<Slot>, i: nat, n: nat)
    requires Found(s, |s|) >= 2 && Sum(s, |s|) > 0 && i < |s| && 1 <= n <= ZERO_WEIGHT_CHANCE + 1
    ensures PairsFor(s, i, n) == |SeedsFor(s, 0, i)| + (n - 1) * Weight(s, i)
  {
    hide Choose, SeedsFor;
    if n > 1 {
      PairsFrom(s, i, n - 1);
      ProportionalToWeight(s, n - 1, i);
    }
  }

  /** The first draws that choose a record when the second one is 0. */
  lemma WonSeeds(s: seq<Slot>, i: nat)
    requires Found(s, |s|) >= 2 && Sum(s, |s|) > 0 && Zeros(s, |s|) > 0 && i < |s|
    ensures |SeedsFor(s, 0, i)| == Weight(s, i) + (if i == Saved(s, |s|) then 1 else 0)
                                   - if Weight(s, i) > 0 && Sum(s, i) == 0 then 1 else 0
  {
    hide Choose, Saved, Zeros;
    var sum := Sum(s, |s|);
    SumGrows(s, i + 1, |s|);
    LotteryWinner(s, |s|);
    forall seed: nat | seed < sum
      ensures Choose(s, seed, 0) == i
              <==> if seed == 0 then i == Saved(s, |s|) else s[i].open && Sum(s, i) <= seed < Sum(s, i + 1)
    {
      WonSeed(s, seed, i);
    }
    if i == Saved(s, |s|) {
      assert SeedsFor(s, 0, i) == {0};
    } else if Weight(s, i) == 0 {
      assert SeedsFor(s, 0, i) == {};
    } else {
      assert SeedsFor(s, 0, i) == Interval(if Sum(s, i) == 0 then 1 else Sum(s, i), Sum(s, i + 1));
    }
  }

  lemma WonSeed(s: seq<Slot>, seed: nat, i: nat)
    requires Found(s, |s|) >= 2 && seed < Sum(s, |s|) && Zeros(s, |s|) > 0 && i < |s|
    ensures Choose(s, seed, 0) == i
            <==> if seed == 0 then i == Saved(s, |s|) else s[i].open && Sum(s, i) <= seed < Sum(s, i + 1)
  {
    hide Sum, Found, Zeros, Saved;
    SmallSeed(seed, Sum(s, |s|));
    DrawExactly(s, seed + 1, i);
  }

  /** The weight sum of a group fits the 32-bit counter. */
  lemma {:induction false} SumFits(s: seq<Slot>, k: nat)
    requires k <= |s| <= MAX_GROUP && forall j :: 0 <= j < |s| ==> s[j].weight < 65536
    ensures Sum(s, k) <= k * 65535 < 0x1_0000_0000
  {
    if k > 0 {
      SumFits(s, k - 1);
    }
  }

  // ----- one call of the iterator -----

  /** From group start `cur.no`: skip exhausted groups, then choose. */
  function NextFrom(v: seq<Record>, cur: Cursor, seed: nat, seed0: nat): (r: (Cursor, Option<nat>))
    requires cur.no <= |v|
    decreases |v| - cur.no
  {
    if cur.no == |v| then (Cursor(cur.no % NO_MODULUS, cur.tried), None)
    else
      var s := Group(v, cur);
      if Found(s, |s|) == 0 then NextFrom(v, Cursor(cur.no + |s|, {}), seed, seed0)
      else
        var i := Choose(s, seed, seed0);
        (Cursor(cur.no % NO_MODULUS, cur.tried + {i}), Some(cur.no + i))
  }

  function Next(v: seq<Record>, cur: Cursor, seed: nat, seed0: nat): (r: (Cursor, Option<nat>))
  {
    NextFrom(v, Cursor(if cur.no <= |v| then cur.no else |v|, cur.tried), seed, seed0)
  }

  /** The answers of repeated calls, one per pair of seeds. */
  function Run(v: seq<Record>, cur: Cursor, seeds: seq<(nat, nat)>): (out: seq<Option<nat>>)
    ensures |out| == |seeds|
    decreases |seeds|
  {
    if seeds == [] then []
    else
      var (cur', pick) := Next(v, cur, seeds[0].0, seeds[0].1);
      [pick] + Run(v, cur', seeds[1..])
  }

  // ----- the whole run -----

  /** The live records that the cursor has not handed out yet. */
  ghost function Remaining(v: seq<Record>, cur: Cursor): (rest: set<nat>)
    requires cur.no <= |v|
  {
    set k: nat | cur.no <= k < |v| && v[k].live
      && !(k < cur.no + GroupLen(v, cur.no) && k - cur.no in cur.tried)
  }

  ghost predicate Sorted(v: seq<Record>)
  {
    forall j, k :: 0 <= j < k < |v| ==> v[j].priority <= v[k].priority
  }

  /** What one call does to the remaining records: it hands one of the lowest priority out, or there is none. */
  ghost predicate TakesOne(v: seq<Record>, rest: set<nat>, rest': set<nat>, pick: Option<nat>)
  {
    && (pick.None? <==> rest == {})
    && (pick.Some? ==> pick.value in rest)
    && rest' == rest - (if pick.Some? then {pick.value} else {})
    && (Valid(v, pick) && Sorted(v) ==>
          forall k :: k in rest && k < |v| ==> v[pick.value].priority <= v[k].priority)
  }

  /** The 8-bit index is enough: there are fewer than 256 records, or the live ones all stand below the
      index that is stored at the end of the list. */
  ghost predicate IndexHolds(v: seq<Record>)
  {
    |v| < NO_MODULUS || forall k :: |v| % NO_MODULUS <= k < |v| ==> !v[k].live
  }

  lemma {:induction false} NextTakesOne(v: seq<Record>, cur: Cursor, seed: nat, seed0: nat)
    requires cur.no <= |v| && IndexHolds(v)
    ensures Delivers(v, cur, NextFrom(v, cur, seed, seed0))
    decreases |v| - cur.no
  {
    if cur.no == |v| {
      assert Remaining(v, cur) == {};
      assert Remaining(v, Cursor(|v| % NO_MODULUS, cur.tried)) == {};
    } else if Exhausted(v, cur) {
      NextSkips(v, cur, seed, seed0);
      NextTakesOne(v, Cursor(cur.no + GroupLen(v, cur.no), {}), seed, seed0);
      SkipDelivers(v, cur, NextFrom(v, cur, seed, seed0));
    } else {
      NextPicks(v, cur, seed, seed0);
    }
  }

  predicate Exhausted(v: seq<Record>, cur: Cursor)
    requires cur.no < |v|
  {
    var s := Group(v, cur);
    Found(s, |s|) == 0
  }

  ghost predicate Delivers(v: seq<Record>, cur: Cursor, r: (Cursor, Option<nat>))
    requires cur.no <= |v|
  {
    r.0.no <= |v| && TakesOne(v, Remaining(v, cur), Remaining(v, r.0), r.1)
  }

  lemma SkipDelivers(v: seq<Record>, cur: Cursor, r: (Cursor, Option<nat>))
    requires cur.no < |v| && Exhausted(v, cur)
    requires Delivers(v, Cursor(cur.no + GroupLen(v, cur.no), {}), r)
    ensures Delivers(v, cur, r)
  {
    SkipGroup(v, cur);
  }

  lemma NextSkips(v: seq<Record>, cur: Cursor, seed: nat, seed0: nat)
    requires cur.no < |v|
    requires Exhausted(v, cur)
    ensures NextFrom(v, cur, seed, seed0) == NextFrom(v, Cursor(cur.no + GroupLen(v, cur.no), {}), seed, seed0)
  {
  }

  lemma NextPicks(v: seq<Record>, cur: Cursor, seed: nat, seed0: nat)
    requires cur.no < |v| && IndexHolds(v)
    requires !Exhausted(v, cur)
    ensures Delivers(v, cur, NextFrom(v, cur, seed, seed0))
  {
    var s := Group(v, cur);
    ChooseOpen(s, seed, seed0);
    GroupAt(v, cur, Choose(s, seed, seed0));
    TakeSlot(v, cur, Choose(s, seed, seed0));
  }

  lemma SkipGroup(v: seq<Record>, cur: Cursor)
    requires cur.no < |v|
    requires Exhausted(v, cur)
    ensures Remaining(v, cur) == Remaining(v, Cursor(cur.no + GroupLen(v, cur.no), {}))
  {
    var s := Group(v, cur);
    FoundNone(s, |s|);
    forall k | k in Remaining(v, cur) ensures k >= cur.no + |s| {
      if k < cur.no + |s| {
        GroupAt(v, cur, k - cur.no);
      }
    }
  }

  lemma TakeSlot(v: seq<Record>, cur: Cursor, i: nat)
    requires cur.no < |v| && i < GroupLen(v, cur.no) && Group(v, cur)[i].open
    ensures TakesOne(v, Remaining(v, cur), Remaining(v, Cursor(cur.no, cur.tried + {i})), Some(cur.no + i))
  {
    var rest, rest' := Remaining(v, cur), Remaining(v, Cursor(cur.no, cur.tried + {i}));
    GroupAt(v, cur, i);
    assert cur.no + i in rest;
    assert rest' == rest - {cur.no + i};
  }

  /** The answers `out` enumerate `rest`: each member once, in priority order, then none forever. */
  ghost predicate Enumerates(out: seq<Option<nat>>, rest: set<nat>)
  {
    && (forall k :: 0 <= k < |out| ==> (out[k].Some? <==> k < |rest|))
    && (forall k :: 0 <= k < |out| && out[k].Some? ==> out[k].value in rest)
    && (forall j, k :: 0 <= j < k < |out| && out[j].Some? && out[k].Some? ==> out[j] != out[k])
    && (|out| >= |rest| ==> forall i :: i in rest ==> Some(i) in out)
  }

  predicate Valid(v: seq<Record>, pick: Option<nat>)
  {
    pick.Some? && pick.value < |v|
  }

  ghost predicate InOrder(v: seq<Record>, out: seq<Option<nat>>)
  {
    forall j, k :: 0 <= j < k < |out| && Valid(v, out[j]) && Valid(v, out[k]) ==>
      v[out[j].value].priority <= v[out[k].value].priority
  }

  /** Whatever the random numbers, the iterator hands out every remaining record exactly once,
      never going back in priority, and then answers none forever. */
  lemma {:induction false} RunEnumerates(v: seq<Record>, cur: Cursor, seeds: seq<(nat, nat)>)
    requires cur.no <= |v| && IndexHolds(v)
    ensures Enumerates(Run(v, cur, seeds), Remaining(v, cur))
    ensures Sorted(v) ==> InOrder(v, Run(v, cur, seeds))
    decreases |seeds|
  {
    if seeds != [] {
      var (cur', pick) := Next(v, cur, seeds[0].0, seeds[0].1);
      NextTakesOne(v, cur, seeds[0].0, seeds[0].1);
      RunEnumerates(v, cur', seeds[1..]);
      var out, rest := Run(v, cur', seeds[1..]), Remaining(v, cur);
      ConsEnumerates(pick, out, rest);
      if Sorted(v) {
        ConsInOrder(v, pick, out, rest);
      }
    }
  }

  lemma ConsEnumerates(pick: Option<nat>, out: seq<Option<nat>>, rest: set<nat>)
    requires pick.None? <==> rest == {}
    requires pick.Some? ==> pick.value in rest
    requires Enumerates(out, rest - (if pick.Some? then {pick.value} else {}))
    ensures Enumerates([pick] + out, rest)
  {
    var all := [pick] + out;
    forall k | 0 < k < |all| ensures all[k] == out[k - 1] {}
    if |all| >= |rest| {
      forall i | i in rest ensures Some(i) in all {
        if Some(i) == pick {
          assert all[0] == Some(i);
        } else {
          assert Some(i) in out;
        }
      }
    }
  }

  lemma ConsInOrder(v: seq<Record>, pick: Option<nat>, out: seq<Option<nat>>, rest: set<nat>)
    requires pick.None? ==> rest == {}
    requires forall k :: k in rest ==> k < |v|
    requires pick.Some? ==> pick.value in rest
    requires pick.Some? ==> forall k :: k in rest ==> v[pick.value].priority <= v[k].priority
    requires Enumerates(out, rest - (if pick.Some? then {pick.value} else {})) && InOrder(v, out)
    ensures InOrder(v, [pick] + out)
  {
    var all := [pick] + out;
    forall k | 0 < k < |all| ensures all[k] == out[k - 1] {}
  }

  ghost function LiveRecords(v: seq<Record>): (live: set<nat>)
  {
    set k: nat | k < |v| && v[k].live
  }

  /** From the start: every live record once, in priority order, then none. */
  lemma FullRun(v: seq<Record>, seeds: seq<(nat, nat)>)
    requires IndexHolds(v)
    ensures Enumerates(Run(v, START, seeds), LiveRecords(v))
    ensures Sorted(v) ==> InOrder(v, Run(v, START, seeds))
  {
    assert Remaining(v, START) == LiveRecords(v);
    RunEnumerates(v, START, seeds);
  }

  // ----- lists of 256 records and more -----

  lemma {:induction false} NoneLeaves(v: seq<Record>, cur: Cursor, seed: nat, seed0: nat)
    requires cur.no <= |v| && (cur.no == |v| ==> cur.tried == {})
    requires NextFrom(v, cur, seed, seed0).1.None?
    ensures NextFrom(v, cur, seed, seed0).0 == Cursor(|v| % NO_MODULUS, {})
    decreases |v| - cur.no
  {
    if cur.no < |v| {
      NoneLeaves(v, Cursor(cur.no + |Group(v, cur)|, {}), seed, seed0);
    }
  }

  lemma {:induction false} NoneExactly(v: seq<Record>, n: nat, seed: nat, seed0: nat)
    requires n <= |v|
    ensures NextFrom(v, Cursor(n, {}), seed, seed0).1.None?
       <==> forall k :: n <= k < |v| ==> !v[k].live
    decreases |v| - n
  {
    if n < |v| {
      var s := Group(v, Cursor(n, {}));
      if Found(s, |s|) == 0 {
        FoundNone(s, |s|);
        forall k | n <= k < n + |s| ensures !v[k].live {
          GroupAt(v, Cursor(n, {}), k - n);
        }
        NoneExactly(v, n + |s|, seed, seed0);
      } else {
        FoundNone(s, |s|);
        var i :| 0 <= i < |s| && s[i].open;
        GroupAt(v, Cursor(n, {}), i);
      }
    }
  }

  /** "No more records" is final if and only if no live record sits at or after index
      |v| mod 256: always below 256 records, and for 256 live records never. */
  lemma NoneIsFinal(v: seq<Record>, cur: Cursor, seed: nat, seed0: nat, again: nat, again0: nat)
    requires cur.no <= |v| && (cur.no == |v| ==> cur.tried == {})
    requires Next(v, cur, seed, seed0).1.None?
    ensures Next(v, Next(v, cur, seed, seed0).0, again, again0).1.None?
       <==> forall k :: |v| % NO_MODULUS <= k < |v| ==> !v[k].live
  {
    NoneLeaves(v, cur, seed, seed0);
    NoneExactly(v, |v| % NO_MODULUS, again, again0);
  }

  /** The cursor that call `i` of a run starts from. */
  function CursorAt(v: seq<Record>, cur: Cursor, seeds: seq<(nat, nat)>, i: nat): (c: Cursor)
    requires i <= |seeds|
    decreases i
  {
    if i == 0 then cur else CursorAt(v, Next(v, cur, seeds[0].0, seeds[0].1).0, seeds[1..], i - 1)
  }

  lemma {:induction false} RunAt(v: seq<Record>, cur: Cursor, seeds: seq<(nat, nat)>, i: nat)
    requires i < |seeds|
    ensures Run(v, cur, seeds)[i] == Next(v, CursorAt(v, cur, seeds, i), seeds[i].0, seeds[i].1).1
    ensures CursorAt(v, cur, seeds, i + 1) == Next(v, CursorAt(v, cur, seeds, i), seeds[i].0, seeds[i].1).0
    decreases i
  {
    hide Next;
    if i > 0 {
      RunAt(v, Next(v, cur, seeds[0].0, seeds[0].1).0, seeds[1..], i - 1);
    }
  }

  lemma {:induction false} SmallIndex(v: seq<Record>, cur: Cursor, seed: nat, seed0: nat)
    requires cur.no <= |v|
    ensures NextFrom(v, cur, seed, seed0).0.no < NO_MODULUS
    decreases |v| - cur.no
  {
    if cur.no < |v| {
      SmallIndex(v, Cursor(cur.no + GroupLen(v, cur.no), {}), seed, seed0);
    }
  }

  lemma {:induction false} CursorSmall(v: seq<Record>, cur: Cursor, seeds: seq<(nat, nat)>, i: nat)
    requires i <= |seeds| && cur.no < NO_MODULUS
    ensures CursorAt(v, cur, seeds, i).no < NO_MODULUS
    decreases i
  {
    hide NextFrom;
    if i > 0 {
      SmallIndex(v, Cursor(if cur.no <= |v| then cur.no else |v|, cur.tried), seeds[0].0, seeds[0].1);
      CursorSmall(v, Next(v, cur, seeds[0].0, seeds[0].1).0, seeds[1..], i - 1);
    }
  }

  function Zeroes(n: nat): (seeds: seq<(nat, nat)>)
    ensures |seeds| == n
  {
    if n == 0 then [] else [(0, 0)] + Zeroes(n - 1)
  }

  /** The iterator keeps its promise, whatever the random numbers, if and only if the 8-bit index is
      enough. */
  lemma WholeRunExactly(v: seq<Record>)
    ensures (forall seeds :: Enumerates(Run(v, START, seeds), LiveRecords(v))) <==> IndexHolds(v)
  {
    if IndexHolds(v) {
      forall seeds ensures Enumerates(Run(v, START, seeds), LiveRecords(v)) {
        FullRun(v, seeds);
      }
    } else {
      NotEnumerated(v, Zeroes(|LiveRecords(v)| + 2));
    }
  }

  lemma NotEnumerated(v: seq<Record>, seeds: seq<(nat, nat)>)
    requires !IndexHolds(v) && |seeds| == |LiveRecords(v)| + 2
    ensures !Enumerates(Run(v, START, seeds), LiveRecords(v))
  {
    hide Next, Run, CursorAt;
    var n := |LiveRecords(v)|;
    RunAt(v, START, seeds, n);
    RunAt(v, START, seeds, n + 1);
    CursorSmall(v, START, seeds, n);
    var cur := CursorAt(v, START, seeds, n);
    if Next(v, cur, seeds[n].0, seeds[n].1).1.None? {
      NoneIsFinal(v, cur, seeds[n].0, seeds[n].1, seeds[n + 1].0, seeds[n + 1].1);
    }
  }

  ghost predicate AllLive(v: seq<Record>)
  {
    forall k :: 0 <= k < |v| ==> v[k].live
  }

  /** After the fourth group of 64 records, all handed out. */
  ghost function FourDone(): (cur: Cursor)
  {
    Cursor(192, Interval(0, 64))
  }

  ghost predicate OnePriority(v: seq<Record>, lo: nat)
  {
    lo < |v| && forall k :: lo <= k < |v| ==> v[k].priority == v[lo].priority
  }

  lemma FourthSkipped(v: seq<Record>, seed: nat, seed0: nat)
    requires |v| >= 256 && OnePriority(v, 192)
    ensures Next(v, FourDone(), seed, seed0) == NextFrom(v, Cursor(256, {}), seed, seed0)
  {
    hide NextFrom;
    var last := FourDone();
    var s := Group(v, last);
    forall i | 0 <= i < |s| ensures !s[i].open {
      GroupAt(v, last, i);
    }
    FoundNone(s, |s|);
    GroupWhole(v, 192, 0);
    NextSkips(v, last, seed, seed0);
  }

  /** 256 live records: after the last one the iterator says that there are no more, and the next call
      starts over. */
  lemma RestartsAt256(v: seq<Record>, seed: nat, seed0: nat, again: nat, again0: nat)
    requires |v| == 256 && AllLive(v) && OnePriority(v, 192)
    ensures var (cur, pick) := Next(v, FourDone(), seed, seed0);
            pick == None && cur == START && Next(v, cur, again, again0).1.Some?
  {
    FourthSkipped(v, seed, seed0);
    NoneIsFinal(v, FourDone(), seed, seed0, again, again0);
    assert v[0].live;
  }

  /** 320 live records: one of the last group is handed out, and the next call goes back to the first
      group without ever having said that there are no more. */
  lemma GoesBackAt320(v: seq<Record>, seed: nat, seed0: nat, again: nat, again0: nat)
    requires |v| == 320 && AllLive(v) && OnePriority(v, 0)
    ensures var (cur, pick) := Next(v, FourDone(), seed, seed0);
            && pick.Some? && pick.value >= 256 && cur.no == 0
            && var again := Next(v, cur, again, again0).1; again.Some? && again.value < 64
  {
    hide NextFrom, GroupFrom, FourDone, AllLive;
    LaterPriority(v, 192);
    FourthSkipped(v, seed, seed0);
    OpensGroup(v, Cursor(256, {}), 0, seed, seed0);
    var (cur, pick) := NextFrom(v, Cursor(256, {}), seed, seed0);
    GroupWhole(v, 0, 0);
    OpensGroup(v, cur, if pick.value == 256 then 1 else 0, again, again0);
  }

  lemma LaterPriority(v: seq<Record>, n: nat)
    requires OnePriority(v, 0) && n < |v|
    ensures OnePriority(v, n)
  {
  }

  /** A group with an open record hands one out. */
  lemma OpensGroup(v: seq<Record>, cur: Cursor, k: nat, seed: nat, seed0: nat)
    requires cur.no < |v| && AllLive(v) && k < GroupLen(v, cur.no) && k !in cur.tried
    ensures var r := NextFrom(v, cur, seed, seed0);
            && r.1.Some? && cur.no <= r.1.value < cur.no + MAX_GROUP
            && r.0 == Cursor(cur.no % NO_MODULUS, cur.tried + {r.1.value - cur.no})
  {
    hide Choose;
    var s := Group(v, cur);
    GroupAt(v, cur, k);
    FoundNone(s, |s|);
    ChooseOpen(s, seed, seed0);
  }

  /** A group of one priority reaches to the end of the list, or over 64 records. */
  lemma {:induction false} GroupWhole(v: seq<Record>, n: nat, k: nat)
    requires OnePriority(v, n) && k <= MAX_GROUP && n + k <= |v|
    ensures GroupFrom(v, n, k) == if |v| - n < MAX_GROUP then |v| - n else MAX_GROUP
    decreases |v| - n - k
  {
    if k < MAX_GROUP && n + k < |v| {
      GroupWhole(v, n, k + 1);
    }
  }

  // ----- the iterator itself -----

  /** `dns_srv_get_nxt_rr`: out parameters are the two in-out arguments and the record index. */
  method GetNextRr(e: SrvEntry, now: ticks, tried0: set<nat>, no0: nat, seed: nat, seed0: nat)
    returns (tried: set<nat>, no: nat, pick: Option<nat>)
    requires no0 < NO_MODULUS && WellFormed(e)
    ensures (Cursor(no, tried), pick) == Next(View(e, now), Cursor(no0, tried0), seed, seed0)
  {
    hide View, WellFormed, Choose, Found, Slots;
    ghost var v := View(e, now);
    tried := tried0;
    var n := 0;
    while n < |e.rrs| && n < no0
      invariant 0 <= n <= |e.rrs| && n <= no0
    {
      n := n + 1;
    }
    ghost var answer := NextFrom(v, Cursor(n, tried), seed, seed0);
    while n < |e.rrs|
      invariant 0 <= n <= |e.rrs|
      invariant NextFrom(v, Cursor(n, tried), seed, seed0) == answer
      decreases |e.rrs| - n
    {
      var idx, chosen := TryGroup(e, now, n, tried, seed, seed0, v);
      if chosen.Some? {
        return tried + {chosen.value}, n % NO_MODULUS, Some(n + chosen.value);
      }
      n := n + idx;
      tried := {};
    }
    return tried, n % NO_MODULUS, None;
  }

  /** Scans the group that starts at `n`, and chooses in it if anything is left there. */
  method TryGroup(e: SrvEntry, now: ticks, n: nat, tried: set<nat>, seed: nat, seed0: nat, ghost v: seq<Record>)
    returns (idx: nat, chosen: Option<nat>)
    requires n < |e.rrs| && WellFormed(e) && v == View(e, now)
    ensures 0 < idx && n + idx <= |v|
    ensures NextFrom(v, Cursor(n, tried), seed, seed0)
      == if chosen.Some? then (Cursor(n % NO_MODULUS, tried + {chosen.value}), Some(n + chosen.value))
         else NextFrom(v, Cursor(n + idx, {}), seed, seed0)
  {
    ghost var s := Group(v, Cursor(n, tried));
    var found, sum, zero, saved, sums;
    idx, found, sum, zero, saved, sums := ScanGroup(e, now, n, tried, v, s);
    if found == 0 {
      NextSkips(v, Cursor(n, tried), seed, seed0);
      return idx, None;
    }
    var i := Pick(idx, found, sum, zero, saved, sums, seed, seed0, s);
    return idx, Some(i);
  }

  /** The choice among the scanned slots. */
  method Pick(idx: nat, found: nat, sum: nat, zero: nat, saved: int, sums: array<nat>,
              seed: nat, seed0: nat, ghost s: seq<Slot>)
    returns (i: nat)
    requires idx == |s| <= sums.Length && found > 0 && Scanned(s, idx, found, sum, zero, saved)
    requires forall k :: 0 <= k < idx ==> sums[k] == RunningSum(s, k)
    ensures i == Choose(s, seed, seed0)
  {
    i := saved;
    if found != 1 && sum != 0 {
      var randW := Random(seed, sum - 1) + 1;
      if !(randW == 1 && zero > 0 && Random(seed0, ZERO_WEIGHT_CHANCE) == 0) {
        i := 0;
        while i < idx && sums[i] < randW
          invariant i <= idx
          invariant FirstReaching(s, randW, i) == FirstReaching(s, randW, 0)
        {
          i := i + 1;
        }
      }
    }
  }

  /** The locals of the scan after `k` slots. */
  ghost predicate Scanned(s: seq<Slot>, k: nat, found: int, sum: int, zero: int, saved: int)
    requires k <= |s|
  {
    found == Found(s, k) && sum == Sum(s, k) && zero == Zeros(s, k) && saved == Saved(s, k)
  }

  /** The scan of one group, filling r_sums[]. */
  method ScanGroup(e: SrvEntry, now: ticks, n: nat, tried: set<nat>, ghost v: seq<Record>, ghost s: seq<Slot>)
    returns (idx: nat, found: nat, sum: nat, zero: nat, saved: int, sums: array<nat>)
    requires n < |e.rrs| && WellFormed(e) && v == View(e, now) && s == Group(v, Cursor(n, tried))
    ensures idx == |s| <= sums.Length && sum < 0x1_0000_0000
    ensures Scanned(s, idx, found, sum, zero, saved)
    ensures forall k :: 0 <= k < idx ==> sums[k] == RunningSum(s, k)
  {
    var prio := e.rrs[n].priority;
    sums := new nat[MAX_GROUP](_ => 0);
    idx, found, sum, zero, saved := 0, 0, 0, 0, -1;
    while n + idx < |e.rrs| && e.rrs[n + idx].priority == prio && idx < MAX_GROUP
      invariant idx <= |s| <= MAX_GROUP == sums.Length
      invariant GroupFrom(v, n, idx) == |s|
      invariant Scanned(s, idx, found, sum, zero, saved)
      invariant forall k :: 0 <= k < idx ==> sums[k] == RunningSum(s, k)
    {
      SlotOf(e, now, Cursor(n, tried), idx);
      var live := IsLive(e, now, n + idx);
      found, sum, zero, saved :=
        ScanRecord(e.rrs[n + idx].weight, live, idx, idx in tried, found, sum, zero, saved, sums, s);
      idx := idx + 1;
    }
    GroupWeights(e, now, Cursor(n, tried));
    SumFits(s, idx);
  }

  lemma SlotOf(e: SrvEntry, now: ticks, cur: Cursor, k: nat)
    requires cur.no < |e.rrs| && k < GroupLen(View(e, now), cur.no)
    ensures Group(View(e, now), cur)[k] == Slot(IsLive(e, now, cur.no + k) && k !in cur.tried, e.rrs[cur.no + k].weight)
  {
    GroupAt(View(e, now), cur, k);
  }

  lemma GroupWeights(e: SrvEntry, now: ticks, cur: Cursor)
    requires WellFormed(e) && cur.no < |e.rrs|
    ensures var s := Group(View(e, now), cur); forall j :: 0 <= j < |s| ==> s[j].weight < 65536
  {
    forall j: nat | j < GroupLen(View(e, now), cur.no) ensures Group(View(e, now), cur)[j].weight < 65536 {
      SlotOf(e, now, cur, j);
    }
  }

  /** The body of the scan loop. */
  method ScanRecord(weight: nat, live: bool, idx: nat, marked: bool,
                    found0: nat, sum0: nat, zero0: nat, saved0: int, sums: array<nat>, ghost s: seq<Slot>)
    returns (found: nat, sum: nat, zero: nat, saved: int)
    requires idx < |s| <= sums.Length && s[idx] == Slot(live && !marked, weight)
    requires Scanned(s, idx, found0, sum0, zero0, saved0)
    requires forall k :: 0 <= k < idx ==> sums[k] == RunningSum(s, k)
    modifies sums
    ensures Scanned(s, idx + 1, found, sum, zero, saved)
    ensures forall k :: 0 <= k <= idx ==> sums[k] == RunningSum(s, k)
  {
    found, sum, zero, saved := found0, sum0, zero0, saved0;
    if !live || marked {
      sums[idx] := 0;
    } else {
      if saved == -1 || weight == 0 {
        saved := idx;
      }
      zero := zero + if weight == 0 then 1 else 0;
      sum := sum + weight;
      sums[idx] := sum;
      found := found + 1;
    }
  }
}
