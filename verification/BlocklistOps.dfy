/** Cleaning the destination blocklist (src/core/dst_blocklist.c:626-677). */
module BlocklistOps {
  import opened Ticks
  import opened Blocklist

  // ----- cleaning -----

  datatype Cleaned = Cleaned(left: seq<Entry>, mem: int, no: nat, stop: bool)

  /** Removes the entries due at limit until the byte counter is down to the target. */
  function CleanBucket(s: seq<Entry>, limit: ticks, mem: int, target: int): (r: Cleaned)
  {
    if s == [] then Cleaned([], mem, 0, false)
    else if Expired(s[0], limit) then
      var m := mem - Size(s[0]);
      if m <= target then Cleaned(s[1..], m, 1, true)
      else
        var r := CleanBucket(s[1..], limit, m, target);
        r.(no := r.no + 1)
    else
      var r := CleanBucket(s[1..], limit, mem, target);
      r.(left := [s[0]] + r.left)
  }

  /** Only due entries go, they are all gone unless the target was reached, and the counter follows. */
  lemma {:induction false} CleanBucketResult(s: seq<Entry>, limit: ticks, mem: int, target: int)
    ensures var r := CleanBucket(s, limit, mem, target);
            && Live(r.left, limit) == Live(s, limit)
            && r.mem == mem - Total(s) + Total(r.left)
            && (if r.stop then r.mem <= target else r.left == Live(s, limit))
            && |r.left| + r.no == |s|
  {
    hide Expired;
    if s != [] {
      var m := if Expired(s[0], limit) then mem - Size(s[0]) else mem;
      var r := CleanBucket(s[1..], limit, m, target);
      CleanBucketResult(s[1..], limit, m, target);
      assert ([s[0]] + r.left)[1..] == r.left;
    }
  }

  lemma {:induction false} CleanBucketKeeps(s: seq<Entry>, limit: ticks, mem: int, target: int)
    ensures AllIn(CleanBucket(s, limit, mem, target).left, s)
    ensures NoConflict(s) ==> NoConflict(CleanBucket(s, limit, mem, target).left)
  {
    hide Expired, Conflict;
    if s != [] {
      var m := if Expired(s[0], limit) then mem - Size(s[0]) else mem;
      var r := CleanBucket(s[1..], limit, m, target);
      CleanBucketKeeps(s[1..], limit, m, target);
      assert ([s[0]] + r.left)[1..] == r.left;
      assert s == [s[0]] + s[1..];
    }
  }

  datatype Stop = Done | Target | TimedOut

  /** The table, the entries removed, the buckets passed and why it stopped. */
  datatype Cleaning = Cleaning(b: State, no: nat, passed: nat, stop: Stop)

  /** What dst_blocklist_clean_expired is called with. */
  datatype Limits = Limits(target: int, delta: nat, timeout: nat, first: nat)

  function Place(l: Limits, k: nat): (h: nat)
    ensures h < TABLE_SIZE
  {
    (l.first + k) % TABLE_SIZE
  }

  /** dst_blocklist_clean_expired from its k-th bucket on, at time now; clock(c) is the c-th time
      the clock is read. The time is looked at only after a bucket that had entries. */
  function CleanFrom(b: State, l: Limits, k: nat, t0: ticks, now: ticks, clock: nat -> ticks, c: nat): (r: Cleaning)
    requires InRange(b) && k <= TABLE_SIZE
    decreases TABLE_SIZE - k
  {
    if k == TABLE_SIZE then Cleaning(b, 0, k, Done)
    else
      var h := Place(l, k);
      if b.buckets[h] == [] then CleanFrom(b, l, k + 1, t0, now, clock, c)
      else
        var s := CleanBucket(b.buckets[h], After(now, l.delta), b.mem, l.target);
        var d := With(b, h, s.left);
        if s.stop then Cleaning(d, s.no, k, Target)
        else if (clock(c) - t0) % MODULUS >= l.timeout then Cleaning(d, s.no, k, TimedOut)
        else
          var r := CleanFrom(d, l, k + 1, t0, clock(c), clock, c + 1);
          r.(no := r.no + s.no)
  }

  function Clean(b: State, l: Limits, clock: nat -> ticks): (r: Cleaning)
    requires InRange(b)
  {
    CleanFrom(b, l, 0, clock(0), clock(0), clock, 1)
  }

  lemma CleanStepInv(b: State, h: nat, limit: ticks, target: int)
    requires Inv(b) && h < TABLE_SIZE
    ensures var s := CleanBucket(b.buckets[h], limit, b.mem, target);
            Inv(With(b, h, s.left)) && With(b, h, s.left).mem == s.mem
  {
    hide NoConflict, Total, Sum, Expired;
    assert BucketOk(b, h);
    CleanBucketResult(b.buckets[h], limit, b.mem, target);
    CleanBucketKeeps(b.buckets[h], limit, b.mem, target);
    BelongsSub(b, h, CleanBucket(b.buckets[h], limit, b.mem, target).left, b.buckets[h]);
    WithInv(b, h, CleanBucket(b.buckets[h], limit, b.mem, target).left);
  }

  lemma {:induction false} CleanFromInv(b: State, l: Limits, k: nat, t0: ticks, now: ticks, clock: nat -> ticks, c: nat)
    requires Inv(b) && k <= TABLE_SIZE
    ensures var r := CleanFrom(b, l, k, t0, now, clock, c);
            Inv(r.b) && r.b.hash == b.hash && r.b.mem <= b.mem && (r.stop == Target ==> r.b.mem <= l.target)
    decreases TABLE_SIZE - k
  {
    hide Inv, InRange, CleanBucket, Total, Place, After;
    if k < TABLE_SIZE {
      InvRange(b);
      var h := Place(l, k);
      if b.buckets[h] == [] {
        CleanFromInv(b, l, k + 1, t0, now, clock, c);
      } else {
        CleanStepInv(b, h, After(now, l.delta), l.target);
        CleanBucketResult(b.buckets[h], After(now, l.delta), b.mem, l.target);
        CleanBucketLess(b.buckets[h], After(now, l.delta), b.mem, l.target);
        var d := With(b, h, CleanBucket(b.buckets[h], After(now, l.delta), b.mem, l.target).left);
        InvRange(d);
        CleanFromInv(d, l, k + 1, t0, clock(c), clock, c + 1);
      }
    }
  }

  lemma InvRange(b: State)
    requires Inv(b)
    ensures InRange(b) && |b.buckets| == TABLE_SIZE
  {
  }

  lemma {:induction false} CleanBucketLess(s: seq<Entry>, limit: ticks, mem: int, target: int)
    ensures CleanBucket(s, limit, mem, target).mem <= mem
  {
    hide Expired;
    if s != [] {
      CleanBucketLess(s[1..], limit, if Expired(s[0], limit) then mem - Size(s[0]) else mem, target);
    }
  }

  /** At time t everything is expired that was due at any reading of the clock. */
  ghost predicate Late(b: State, delta: nat, now: ticks, clock: nat -> ticks, t: ticks)
  {
    && AllStayExpired(b, After(now, delta), t)
    && forall c :: AllStayExpired(b, After(clock(c), delta), t)
  }

  lemma LateWith(b: State, h: nat, s: seq<Entry>, delta: nat, now: ticks, clock: nat -> ticks, c: nat, t: ticks)
    requires h < |b.buckets| && AllIn(s, b.buckets[h]) && Late(b, delta, now, clock, t)
    ensures Late(With(b, h, s), delta, clock(c), clock, t)
  {
    hide Expired, After;
    forall d ensures AllStayExpired(With(b, h, s), After(clock(d), delta), t) {
      StayWith(b, h, s, After(clock(d), delta), t);
    }
  }

  lemma StayWith(b: State, h: nat, s: seq<Entry>, now: ticks, t: ticks)
    requires h < |b.buckets| && AllIn(s, b.buckets[h]) && AllStayExpired(b, now, t)
    ensures AllStayExpired(With(b, h, s), now, t)
  {
    hide Expired;
    var d := With(b, h, s);
    forall g | 0 <= g < |d.buckets| ensures StaysExpired(d.buckets[g], now, t) {
      assert StaysExpired(b.buckets[g], now, t);
    }
  }

  /** Cleaning is invisible too: later on the live entries are those of the table not cleaned. */
  lemma {:induction false} CleanFromLive(b: State, l: Limits, k: nat, t0: ticks, now: ticks, clock: nat -> ticks,
                                         c: nat, t: ticks)
    requires InRange(b) && k <= TABLE_SIZE && Late(b, l.delta, now, clock, t)
    ensures SameLive(b, CleanFrom(b, l, k, t0, now, clock, c).b, t)
    decreases TABLE_SIZE - k
  {
    hide CleanBucket, Total, Place, After, Late, Live, AllIn, Reached;
    if k < TABLE_SIZE {
      var h := Place(l, k);
      if b.buckets[h] == [] {
        CleanFromLive(b, l, k + 1, t0, now, clock, c, t);
      } else {
        var limit := After(now, l.delta);
        var s := CleanBucket(b.buckets[h], limit, b.mem, l.target);
        CleanBucketResult(b.buckets[h], limit, b.mem, l.target);
        CleanBucketKeeps(b.buckets[h], limit, b.mem, l.target);
        LateHere(b, h, l.delta, now, clock, t);
        LiveLater(b.buckets[h], s.left, limit, t);
        LateWith(b, h, s.left, l.delta, now, clock, c, t);
        CleanFromLive(With(b, h, s.left), l, k + 1, t0, clock(c), clock, c + 1, t);
      }
    }
  }

  lemma LateHere(b: State, h: nat, delta: nat, now: ticks, clock: nat -> ticks, t: ticks)
    requires h < |b.buckets| && Late(b, delta, now, clock, t)
    ensures StaysExpired(b.buckets[h], After(now, delta), t)
  {
    hide After, Expired;
  }

  ghost predicate NoneDue(s: seq<Entry>, limit: ticks)
  {
    forall e :: e in s ==> !Expired(e, limit)
  }

  ghost predicate PassedClean(b: State, l: Limits, k: nat, limit: ticks)
    requires |b.buckets| == TABLE_SIZE
  {
    forall j {:trigger Place(l, j)} :: 0 <= j < k ==> NoneDue(b.buckets[Place(l, j)], limit)
  }

  lemma {:induction false} LiveNotDue(s: seq<Entry>, now: ticks, limit: ticks)
    requires forall e :: e in s ==> Expired(e, limit) ==> Expired(e, now)
    ensures NoneDue(Live(s, now), limit)
  {
    hide Expired;
    if s != [] {
      assert forall e :: e in s[1..] ==> e in s;
      LiveNotDue(s[1..], now, limit);
    }
  }

  /** A cleaning that was not cut short leaves nothing that was due when it began. */
  lemma {:induction false} CleanFromDone(b: State, l: Limits, k: nat, t0: ticks, now: ticks, clock: nat -> ticks,
                                         c: nat, limit: ticks)
    requires InRange(b) && k <= TABLE_SIZE && PassedClean(b, l, k, limit)
    requires AllStayExpired(b, limit, After(now, l.delta))
    requires forall d :: AllStayExpired(b, limit, After(clock(d), l.delta))
    ensures var r := CleanFrom(b, l, k, t0, now, clock, c);
            && |r.b.buckets| == TABLE_SIZE && k <= r.passed <= TABLE_SIZE
            && (r.stop == Done <==> r.passed == TABLE_SIZE)
            && PassedClean(r.b, l, r.passed, limit)
    decreases TABLE_SIZE - k
  {
    hide CleanBucket, Total, After, Live, AllIn, Reached, Place, NoneDue;
    if k < TABLE_SIZE {
      var h := Place(l, k);
      if b.buckets[h] == [] {
        assert NoneDue(b.buckets[h], limit) by { NoneDueEmpty(b.buckets[h], limit); }
        CleanFromDone(b, l, k + 1, t0, now, clock, c, limit);
      } else {
        var due := After(now, l.delta);
        var s := CleanBucket(b.buckets[h], due, b.mem, l.target);
        CleanBucketResult(b.buckets[h], due, b.mem, l.target);
        CleanBucketKeeps(b.buckets[h], due, b.mem, l.target);
        PassedStays(b, l, k, limit, s.left);
        if !s.stop {
          var d := With(b, h, s.left);
          assert StaysExpired(b.buckets[h], limit, due);
          LiveNotDue(b.buckets[h], due, limit);
          PassedWith(b, l, k, limit, s.left);
          forall e ensures AllStayExpired(d, limit, After(clock(e), l.delta)) {
            StayWith(b, h, s.left, limit, After(clock(e), l.delta));
          }
          CleanFromDone(d, l, k + 1, t0, clock(c), clock, c + 1, limit);
        }
      }
    }
  }

  lemma NoneDueEmpty(s: seq<Entry>, limit: ticks)
    requires s == []
    ensures NoneDue(s, limit)
  {
  }

  lemma PlacesDiffer(l: Limits, j: nat, k: nat)
    requires j < k < TABLE_SIZE
    ensures Place(l, j) != Place(l, k)
  {
  }

  /** A change in the k-th bucket leaves those before it as they were. */
  lemma PassedStays(b: State, l: Limits, k: nat, limit: ticks, s: seq<Entry>)
    requires |b.buckets| == TABLE_SIZE && k < TABLE_SIZE && PassedClean(b, l, k, limit)
    ensures PassedClean(With(b, Place(l, k), s), l, k, limit)
  {
    hide NoneDue, Place, Total;
    forall j | 0 <= j < k ensures NoneDue(With(b, Place(l, k), s).buckets[Place(l, j)], limit) {
      PlacesDiffer(l, j, k);
    }
  }

  lemma PassedWith(b: State, l: Limits, k: nat, limit: ticks, s: seq<Entry>)
    requires |b.buckets| == TABLE_SIZE && k < TABLE_SIZE && PassedClean(b, l, k, limit) && NoneDue(s, limit)
    ensures PassedClean(With(b, Place(l, k), s), l, k + 1, limit)
  {
    hide NoneDue;
  }

  /** Everything a cleaning promises. The readings of the clock only move forward as far as the
      entries go (the first two conditions), and t is not before any of them. */
  lemma CleanResult(b: State, l: Limits, clock: nat -> ticks, t: ticks)
    requires Inv(b)
    ensures var r := Clean(b, l, clock);
            && Inv(r.b) && r.b.mem <= b.mem && (r.stop == Target ==> r.b.mem <= l.target)
            && (Late(b, l.delta, clock(0), clock, t) ==> SameLive(b, r.b, t))
            && (r.stop == Done && (forall d :: AllStayExpired(b, After(clock(0), l.delta), After(clock(d), l.delta)))
                ==> forall h :: 0 <= h < TABLE_SIZE ==> NoneDue(r.b.buckets[h], After(clock(0), l.delta)))
  {
    hide Inv, CleanFrom, After, AllStayExpired, NoneDue, SameLive;
    CleanFromInv(b, l, 0, clock(0), clock(0), clock, 1);
    InvRange(b);
    InvRange(Clean(b, l, clock).b);
    if Late(b, l.delta, clock(0), clock, t) {
      CleanFromLive(b, l, 0, clock(0), clock(0), clock, 1, t);
    }
    if forall d :: AllStayExpired(b, After(clock(0), l.delta), After(clock(d), l.delta)) {
      CleanFromDone(b, l, 0, clock(0), clock(0), clock, 1, After(clock(0), l.delta));
      if Clean(b, l, clock).stop == Done {
        AllPassed(Clean(b, l, clock).b, l, After(clock(0), l.delta));
      }
    }
  }

  lemma PlaceOf(first: nat, h: nat) returns (j: nat)
    requires h < TABLE_SIZE
    ensures j < TABLE_SIZE && (first + j) % TABLE_SIZE == h
  {
    var d := first % TABLE_SIZE;
    j := if h >= d then h - d else h + TABLE_SIZE - d;
  }

  lemma AllPassed(b: State, l: Limits, limit: ticks)
    requires |b.buckets| == TABLE_SIZE && PassedClean(b, l, TABLE_SIZE, limit)
    ensures forall h :: 0 <= h < TABLE_SIZE ==> NoneDue(b.buckets[h], limit)
  {
    hide NoneDue;
    forall h | 0 <= h < TABLE_SIZE ensures NoneDue(b.buckets[h], limit) {
      var j := PlaceOf(l.first, h);
      assert Place(l, j) == h;
    }
  }

  // ----- where a cleaning stops -----

  lemma {:induction false} CleanFromUntouched(b: State, l: Limits, k: nat, t0: ticks, now: ticks, clock: nat -> ticks,
                                              c: nat, j: nat)
    requires InRange(b) && k <= TABLE_SIZE && j < TABLE_SIZE
    ensures var r := CleanFrom(b, l, k, t0, now, clock, c);
            && |r.b.buckets| == TABLE_SIZE && k <= r.passed <= TABLE_SIZE
            && (j < k || r.passed < j ==> r.b.buckets[Place(l, j)] == b.buckets[Place(l, j)])
    decreases TABLE_SIZE - k
  {
    hide CleanBucket, Total, Place, After;
    if k < TABLE_SIZE {
      var h := Place(l, k);
      if j < k {
        PlacesDiffer(l, j, k);
      } else if k < j {
        PlacesDiffer(l, k, j);
      }
      if b.buckets[h] == [] {
        CleanFromUntouched(b, l, k + 1, t0, now, clock, c, j);
      } else {
        var s := CleanBucket(b.buckets[h], After(now, l.delta), b.mem, l.target);
        CleanFromUntouched(With(b, h, s.left), l, k + 1, t0, clock(c), clock, c + 1, j);
      }
    }
  }

  /** A cleaning begins at the bucket `first` says and goes round. The buckets it has passed hold nothing that
      was due when it began, and those behind the one it stopped in are as they were. */
  lemma CleanPassed(b: State, l: Limits, clock: nat -> ticks, j: nat)
    requires Inv(b) && InRange(b) && j < 1024
    ensures var r, h := Clean(b, l, clock), (l.first + j) % 1024;
            && |r.b.buckets| == 1024 && (r.stop == Done <==> r.passed == 1024)
            && (r.passed < j ==> r.b.buckets[h] == b.buckets[h])
            && ((forall d :: AllStayExpired(b, After(clock(0), l.delta), After(clock(d), l.delta))) && j < r.passed
                ==> NoneDue(r.b.buckets[h], After(clock(0), l.delta)))
  {
    hide Inv, CleanFrom, After, AllStayExpired, NoneDue;
    CleanFromUntouched(b, l, 0, clock(0), clock(0), clock, 1, j);
    CleanFromStops(b, l, 0, clock(0), clock(0), clock, 1);
    assert Place(l, j) == (l.first + j) % 1024;
    if forall d :: AllStayExpired(b, After(clock(0), l.delta), After(clock(d), l.delta)) {
      CleanFromDone(b, l, 0, clock(0), clock(0), clock, 1, After(clock(0), l.delta));
    }
  }

  /** Some bucket from the k-th on has entries. */
  ghost predicate SomeLeft(b: State, l: Limits, k: nat)
    requires |b.buckets| == TABLE_SIZE
  {
    exists j {:trigger Place(l, j)} :: k <= j < TABLE_SIZE && b.buckets[Place(l, j)] != []
  }

  lemma {:induction false} CleanFromStops(b: State, l: Limits, k: nat, t0: ticks, now: ticks, clock: nat -> ticks,
                                          c: nat)
    requires InRange(b) && k <= TABLE_SIZE
    ensures var r := CleanFrom(b, l, k, t0, now, clock, c);
            && (r.stop == Done <==> r.passed == TABLE_SIZE)
            && (l.timeout == 0 && SomeLeft(b, l, k) ==> r.stop != Done)
            && (r.stop == TimedOut ==> exists d :: (clock(d) - t0) % 0x1_0000_0000 >= l.timeout)
    decreases TABLE_SIZE - k
  {
    hide CleanBucket, Total, Place, After;
    if k < TABLE_SIZE {
      var h := Place(l, k);
      if b.buckets[h] == [] {
        CleanFromStops(b, l, k + 1, t0, now, clock, c);
      } else {
        var s := CleanBucket(b.buckets[h], After(now, l.delta), b.mem, l.target);
        CleanFromStops(With(b, h, s.left), l, k + 1, t0, clock(c), clock, c + 1);
      }
    }
  }

  /** It gives up for lack of time only if some reading of the clock is `timeout` ticks or more after the first;
      without time to spend it stops after the first bucket with entries. */
  lemma CleanInTime(b: State, l: Limits, clock: nat -> ticks)
    requires InRange(b)
    ensures var r := Clean(b, l, clock);
            && (r.stop == TimedOut ==> exists d :: (clock(d) - clock(0)) % 0x1_0000_0000 >= l.timeout)
            && (l.timeout == 0 && (exists h :: 0 <= h < 1024 && b.buckets[h] != []) ==> r.stop != Done)
  {
    hide CleanFrom;
    CleanFromStops(b, l, 0, clock(0), clock(0), clock, 1);
    if h :| 0 <= h < 1024 && b.buckets[h] != [] {
      var j := PlaceOf(l.first, h);
      assert Place(l, j) == h;
    }
  }
}
