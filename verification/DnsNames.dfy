/** What a lookup in the DNS cache means (src/core/dns_cache.c:540-635): names without regard to case, and
    times by the ticks they lie ahead. */
module DnsNames {
  import opened Seqs
  import opened Ticks
  import opened DnsModel
  import opened DnsLookup

  // ----- names -----

  /** The same letter, capital or small, or the same character. */
  predicate SameLetter(a: char, b: char)
  {
    || a == b
    || ('A' <= a <= 'Z' && b as int == a as int + 32)
    || ('A' <= b <= 'Z' && a as int == b as int + 32)
  }

  ghost predicate SameLetters(a: string, b: string)
  {
    |a| == |b| && forall i :: 0 <= i < |a| ==> SameLetter(a[i], b[i])
  }

  lemma {:induction false} SameNameExactly(a: string, b: string)
    ensures SameName(a, b) <==> SameLetters(a, b)
  {
    if a != "" && b != "" {
      SameNameExactly(a[1..], b[1..]);
      assert Lower(a)[1..] == Lower(a[1..]) && Lower(b)[1..] == Lower(b[1..]);
      assert SameLetter(a[0], b[0]) <==> LowerChar(a[0]) == LowerChar(b[0]);
      if SameLetters(a[1..], b[1..]) && SameLetter(a[0], b[0]) {
        forall i | 0 <= i < |a| ensures SameLetter(a[i], b[i]) {
          assert i > 0 ==> a[i] == a[1..][i - 1] && b[i] == b[1..][i - 1];
        }
      }
      if SameLetters(a, b) {
        forall i | 0 <= i < |a| - 1 ensures SameLetter(a[1..][i], b[1..][i]) {
          assert a[1..][i] == a[i + 1] && b[1..][i] == b[i + 1];
        }
      }
    }
  }

  lemma {:induction false} FindFromCase(w: World, rest: seq<Entry>, a: Asked, b: Asked, rtype: int, now: ticks,
      hops: nat, last: Option<Entry>)
    requires hops <= MAX_CNAME_CHAIN + 1 && CanScan(w, rest) && SameName(a.text, b.text) && a.moved == b.moved
    ensures FindFrom(w, rest, a, rtype, now, hops, last) == FindFrom(w, rest, b, rtype, now, hops, last)
    decreases MAX_CNAME_CHAIN + 1 - hops, |rest|
  {
    hide Inv, Expired, Lower, NextChain, Touch, Expire;
    if rest != [] {
      ScanOn(w, rest, now);
      var e := rest[0];
      if Expired(e, now) {
        FindFromCase(Expire(w, e, now), rest[1..], a, b, rtype, now, hops, last);
      } else if !SameName(e.name, a.text) {
        FindFromCase(w, rest[1..], a, b, rtype, now, hops, last);
      } else if e.rtype == rtype {
      } else if PositiveCname(e) {
        if hops <= MAX_CNAME_CHAIN {
          var w' := Touch(w, e);
          ScanNext(w', e, rest[1..]);
          FindFromCase(w', NextChain(w'.hash, w'.chains, e, rest[1..]), NextName(e, a), NextName(e, b), rtype, now,
                       hops + 1, Some(e));
        }
      } else {
        FindFromCase(w, rest[1..], a, b, rtype, now, hops, last);
      }
    }
  }

  /** Names that differ in the case of letters only are looked up alike: same answer, same table afterwards. */
  lemma CaseIgnored(w: World, a: string, b: string, rtype: int, now: ticks)
    requires Inv(w) && SameLetters(a, b)
    ensures Find(w, a, rtype, now) == Find(w, b, rtype, now)
  {
    hide Inv, FindFrom, Lower;
    SameNameExactly(a, b);
    if a != "" {
      InHash(w, a);
      ScanChain(w, Bucket(w, a));
      FindFromCase(w, w.chains[Bucket(w, a)], Asked(a, false), Asked(b, false), rtype, now, 0, None);
    }
  }

  // ----- times -----

  /** Permanent, or to expire 1 to 2^31 ticks from now. */
  ghost predicate InForce(e: Entry, now: ticks)
  {
    e.permanent || Ahead(now, e.expire)
  }

  lemma ExpiredExactly(e: Entry, now: ticks)
    ensures Expired(e, now) <==> !InForce(e, now)
  {
    ReachedExactly(now, e.expire);
  }

  /** The delay has passed 300 seconds of 16 ticks after the expiry. */
  lemma DelayExactly(e: Entry, now: ticks)
    ensures PastDelay(e, now) <==> Behind(now, (e.expire + 4800) % 0x1_0000_0000)
  {
    ReachedExactly(now, After(e.expire, SecondsToTicks(RMDELAY)));
  }

  // ----- answers -----

  /** A record of the type asked for, under the name asked for. */
  ghost predicate Answers(e: Entry, name: string, rtype: int, now: ticks)
  {
    SameLetters(e.name, name) && e.rtype == rtype && InForce(e, now)
  }

  /** An alias of the name, which is not marked as bad and has a record. */
  ghost predicate Aliases(e: Entry, name: string, now: ticks)
  {
    SameLetters(e.name, name) && e.rtype == 5 && e.target.Some? && !e.bad && InForce(e, now)
  }

  lemma MatchExactly(e: Entry, name: string, rtype: int, now: ticks)
    ensures !Expired(e, now) && Matches(e, name, rtype) <==> Answers(e, name, rtype, now) || Aliases(e, name, now)
  {
    hide InForce, SameLetters, Expired;
    SameNameExactly(e.name, name);
    ExpiredExactly(e, now);
  }

  /** Without an alias of the name a lookup succeeds if and only if the cache holds a record that answers it,
      and then returns one. */
  lemma AnswerExactly(w: World, name: string, rtype: int, now: ticks)
    requires Inv(w) && name != "" && forall e :: e in w.lu ==> e.rtype == rtype || !Aliases(e, name, now)
    ensures var f := Find(w, name, rtype, now);
            && !f.err
            && (f.ret.Some? ==> f.ret.value in w.lu && Answers(f.ret.value, name, rtype, now))
            && (f.ret.Some? <==> exists e :: e in w.lu && Answers(e, name, rtype, now))
  {
    hide Inv, Find, Lower, Answers, Aliases, Matches, Expired, FirstMatch;
    FindIsLookup(w, name, rtype, now);
    InHash(w, name);
    var s := ChainOf(w.hash, w.chains, name);
    forall e | e in s ensures e in w.lu {
      ChainInLu(w, name, e);
    }
    FirstIsAnswer(w, s, name, rtype, now);
    forall e | e in w.lu && Answers(e, name, rtype, now) ensures e in s {
      AnswerInChain(w, name, e, rtype, now);
    }
  }

  lemma ChainInLu(w: World, name: string, e: Entry)
    requires Inv(w) && e in ChainOf(w.hash, w.chains, name)
    ensures e in w.lu
  {
    assert ChainAgrees(w, Bucket(w, name));
  }

  lemma AnswerInChain(w: World, name: string, e: Entry, rtype: int, now: ticks)
    requires Inv(w) && e in w.lu && Answers(e, name, rtype, now)
    ensures e in ChainOf(w.hash, w.chains, name)
  {
    hide Lower, InForce;
    SameNameExactly(e.name, name);
  }

  lemma FirstIsAnswer(w: World, s: seq<Entry>, name: string, rtype: int, now: ticks)
    requires forall e :: e in s ==> e in w.lu
    requires forall e :: e in w.lu ==> e.rtype == rtype || !Aliases(e, name, now)
    ensures var t := TurnIn(s, name, rtype, now);
            && !t.Alias?
            && (t.Hit? ==> t.e in s && Answers(t.e, name, rtype, now))
            && (t.NoMatch? ==> forall e :: e in s ==> !Answers(e, name, rtype, now))
  {
    hide SameLetters, InForce, Matches, Expired, Lower;
    var i := FirstMatch(s, name, rtype, now);
    forall e ensures !Expired(e, now) && Matches(e, name, rtype)
                     <==> Answers(e, name, rtype, now) || Aliases(e, name, now) {
      MatchExactly(e, name, rtype, now);
    }
    if i == |s| {
      forall e | e in s ensures !Answers(e, name, rtype, now) {
        var j :| 0 <= j < |s| && s[j] == e;
        BeforeFirstMatch(s, name, rtype, now, j);
      }
    } else {
      assert s[i] in s;
      if Aliases(s[i], name, now) {
        AliasAnswers(s[i], name, rtype, now);
      }
    }
  }

  lemma AliasAnswers(e: Entry, name: string, rtype: int, now: ticks)
    requires e.rtype == rtype && Aliases(e, name, now)
    ensures Answers(e, name, rtype, now)
  {
  }

  /** From `a` over n aliases in the cache to `b`. */
  ghost predicate Leads(w: World, a: string, b: string, n: nat, now: ticks)
    decreases n
  {
    if n == 0 then a == b
    else exists e :: e in w.lu && Aliases(e, a, now) && Leads(w, e.target.value, b, n - 1, now)
  }

  /** An entry of a name that `a` leads to. */
  ghost predicate Reaches(w: World, a: string, e: Entry, rtype: int, now: ticks)
  {
    exists b: string, n: nat :: Leads(w, a, b, n, now) && (Answers(e, b, rtype, now) || Aliases(e, b, now))
  }

  lemma ReachesHere(w: World, a: string, e: Entry, rtype: int, now: ticks)
    requires Answers(e, a, rtype, now) || Aliases(e, a, now)
    ensures Reaches(w, a, e, rtype, now)
  {
    assert Leads(w, a, a, 0, now);
  }

  lemma ReachesOn(w: World, a: string, x: Entry, e: Entry, rtype: int, now: ticks)
    requires x in w.lu && Aliases(x, a, now) && Reaches(w, x.target.value, e, rtype, now)
    ensures Reaches(w, a, e, rtype, now)
  {
    hide SameLetters, InForce;
    var b: string, n: nat :| Leads(w, x.target.value, b, n, now) && (Answers(e, b, rtype, now) || Aliases(e, b, now));
    assert Leads(w, a, b, n + 1, now);
  }

  lemma {:induction false} SearchReaches(w: World, rest: seq<Entry>, name: Asked, rtype: int, now: ticks,
      hops: nat, last: Option<Entry>)
    requires Inv(w) && hops <= MAX_CNAME_CHAIN + 1 && Within(rest, w.lu)
    ensures var r := Search(w.hash, w.chains, rest, name, rtype, now, hops, last).ret;
            r == None || r == last || Reaches(w, name.text, r.value, rtype, now)
    decreases MAX_CNAME_CHAIN + 1 - hops
  {
    hide Inv, TurnIn, NextChain, Answers, Aliases, Reaches;
    var t := TurnIn(rest, name.text, rtype, now);
    TurnMeans(w, rest, name.text, rtype, now);
    if !t.NoMatch? {
      ReachesHere(w, name.text, t.e, rtype, now);
    }
    if t.Alias? && hops <= MAX_CNAME_CHAIN {
      var e, next := t.e, NextChain(w.hash, w.chains, t.e, t.tail);
      NextInLu(w, e, t.tail);
      SearchReaches(w, next, NextName(e, name), rtype, now, hops + 1, Some(e));
      var r := Search(w.hash, w.chains, next, NextName(e, name), rtype, now, hops + 1, Some(e)).ret;
      if r != None && r != Some(e) && NextName(e, name).text == e.target.value {
        ReachesOn(w, name.text, e, r.value, rtype, now);
      }
    }
  }

  lemma TurnMeans(w: World, rest: seq<Entry>, name: string, rtype: int, now: ticks)
    requires Within(rest, w.lu)
    ensures var t := TurnIn(rest, name, rtype, now);
            && (t.Hit? ==> Answers(t.e, name, rtype, now))
            && (t.Alias? ==> Aliases(t.e, name, now) && t.e in w.lu && Within(t.tail, w.lu))
  {
    hide SameLetters, InForce, Matches, Expired, Lower, FirstMatch;
    var i := FirstMatch(rest, name, rtype, now);
    if i < |rest| {
      MatchExactly(rest[i], name, rtype, now);
      if rest[i].rtype == rtype && Aliases(rest[i], name, now) {
        AliasAnswers(rest[i], name, rtype, now);
      }
      forall x | x in rest[i + 1..] ensures x in w.lu {
        assert x in rest;
      }
    }
  }

  lemma NextInLu(w: World, e: Entry, tail: seq<Entry>)
    requires Inv(w) && e.target.Some? && Within(tail, w.lu)
    ensures Within(NextChain(w.hash, w.chains, e, tail), w.lu)
  {
    hide Inv, Lower;
    if e.target.value != "" {
      forall x | x in ChainOf(w.hash, w.chains, e.target.value) ensures x in w.lu {
        ChainInLu(w, e.target.value, x);
      }
    }
  }

  /** With aliases: whatever a lookup returns is an entry of a name that the name asked for leads to. */
  lemma AnswerIsReached(w: World, name: string, rtype: int, now: ticks)
    requires Inv(w)
    ensures var r := Find(w, name, rtype, now).ret; r.Some? ==> Reaches(w, name, r.value, rtype, now)
  {
    hide Inv, Find, Lower, Search, Reaches;
    FindIsLookup(w, name, rtype, now);
    if name != "" {
      var rest := ChainOf(w.hash, w.chains, name);
      forall e | e in rest ensures e in w.lu {
        ChainInLu(w, name, e);
      }
      SearchReaches(w, rest, Asked(name, false), rtype, now, 0, None);
    }
  }

  // ----- what goes on the way -----

  /** No longer in force, and without a user or 300 seconds past its expiry. */
  ghost predicate Spent(w: World, e: Entry, now: ticks)
  {
    !InForce(e, now) && e in w.acc && (w.acc[e].held == 0 || Behind(now, (e.expire + 4800) % 0x1_0000_0000))
  }

  lemma SpentExactly(w: World, e: Entry, now: ticks)
    requires Inv(w) && e in w.lu
    ensures e in w.acc && (Spent(w, e, now) <==> Expired(e, now) && MayRemove(w, e, now))
  {
    hide InForce, Behind, Expired, PastDelay;
    ExpiredExactly(e, now);
    DelayExactly(e, now);
    assert Balanced(w.acc[e], true);
  }

  /** Of the entries of `s` those that are left in `v` are not spent, and those that are gone were. */
  ghost predicate Swept(w: World, v: World, now: ticks)
  {
    && SameHeld(w, v) && Within(v.lu, w.lu)
    && forall e :: e in w.lu && e !in v.lu ==> Spent(w, e, now)
  }

  lemma SweptOn(w: World, v: World, u: World, now: ticks)
    requires Swept(w, v, now) && Swept(v, u, now)
    ensures Swept(w, u, now)
  {
    hide InForce, Behind;
    forall e | e in w.lu && e !in u.lu ensures Spent(w, e, now) {
      if e in v.lu {
        assert Spent(v, e, now) && v.acc[e].held == w.acc[e].held;
      }
    }
  }

  lemma SweptOne(w: World, e: Entry, now: ticks)
    requires Inv(w) && e in w.lu && e in w.acc && Expired(e, now)
    ensures Swept(w, Expire(w, e, now), now)
  {
    hide Spent, Expired, MayRemove;
    SpentExactly(w, e, now);
    RemoveInv(w, e);
  }

  lemma {:induction false} FindSweeps(w: World, rest: seq<Entry>, name: Asked, rtype: int, now: ticks,
      hops: nat, last: Option<Entry>)
    requires hops <= MAX_CNAME_CHAIN + 1 && CanScan(w, rest)
    ensures var f := FindFrom(w, rest, name, rtype, now, hops, last);
            && Swept(w, f.w, now)
            && (f.ret == None && !f.err ==> forall e :: e in rest && e in f.w.lu ==> !Spent(w, e, now))
    decreases MAX_CNAME_CHAIN + 1 - hops, |rest|
  {
    hide Inv, Expired, Lower, NextChain, NextName, Expire, Spent;
    assert Inv(w);
    if rest != [] {
      ScanOn(w, rest, now);
      var e, tail := rest[0], rest[1..];
      assert e in w.lu;
      SpentExactly(w, e, now);
      if Expired(e, now) {
        var v := Expire(w, e, now);
        SweptOne(w, e, now);
        FindSweeps(v, tail, name, rtype, now, hops, last);
        SweptOn(w, v, FindFrom(v, tail, name, rtype, now, hops, last).w, now);
        SpentSame(w, v, now);
        if MayRemove(w, e, now) {
          ExpireGoes(w, e, now);
        }
      } else if SameName(e.name, name.text) && (e.rtype == rtype || PositiveCname(e)) {
        var v := Touch(w, e);
        TouchSweeps(w, e, now);
        if e.rtype != rtype && hops <= MAX_CNAME_CHAIN {
          ScanNext(v, e, tail);
          var next := NextChain(v.hash, v.chains, e, tail);
          FindSweeps(v, next, NextName(e, name), rtype, now, hops + 1, Some(e));
          SweptOn(w, v, FindFrom(v, next, NextName(e, name), rtype, now, hops + 1, Some(e)).w, now);
          StaysFound(v, next, NextName(e, name), rtype, now, hops + 1, e);
        }
      } else {
        FindSweeps(w, tail, name, rtype, now, hops, last);
      }
    }
  }

  lemma SpentSame(w: World, v: World, now: ticks)
    requires SameHeld(w, v)
    ensures forall e :: Spent(w, e, now) <==> Spent(v, e, now)
  {
    hide InForce, Behind;
  }

  lemma ExpireGoes(w: World, e: Entry, now: ticks)
    requires Inv(w) && e in w.lu && e in w.acc && MayRemove(w, e, now)
    ensures e !in Expire(w, e, now).lu
  {
    RemoveInv(w, e);
  }

  lemma TouchSweeps(w: World, e: Entry, now: ticks)
    requires Inv(w) && e in w.lu
    ensures Swept(w, Touch(w, e), now)
  {
    hide Spent;
    TouchInv(w, e);
  }

  /** After an alias a search that ends without error has an answer. */
  lemma {:induction false} StaysFound(w: World, rest: seq<Entry>, name: Asked, rtype: int, now: ticks,
      hops: nat, last: Entry)
    requires hops <= MAX_CNAME_CHAIN + 1 && CanScan(w, rest)
    ensures var f := FindFrom(w, rest, name, rtype, now, hops, Some(last)); f.err || f.ret.Some?
    decreases MAX_CNAME_CHAIN + 1 - hops, |rest|
  {
    hide Inv, Lower, Expired, NextChain, NextName;
    FindRefines(w, rest, name, rtype, now, hops, Some(last));
    SearchStays(w, rest, name, rtype, now, hops, last);
  }

  lemma {:induction false} SearchStays(w: World, rest: seq<Entry>, name: Asked, rtype: int, now: ticks,
      hops: nat, last: Entry)
    requires hops <= MAX_CNAME_CHAIN + 1
    ensures var r := Search(w.hash, w.chains, rest, name, rtype, now, hops, Some(last)); r.err || r.ret.Some?
    decreases MAX_CNAME_CHAIN + 1 - hops
  {
    hide TurnIn, NextName, NextChain;
    var t := TurnIn(rest, name.text, rtype, now);
    if t.Alias? && hops <= MAX_CNAME_CHAIN {
      SearchStays(w, NextChain(w.hash, w.chains, t.e, t.tail), NextName(t.e, name), rtype, now, hops + 1, t.e);
    }
  }

  /** What a lookup removes was spent; one that finds nothing has removed all that was spent in its chain. */
  lemma SweepsExactly(w: World, name: string, rtype: int, now: ticks)
    requires Inv(w)
    ensures var f := Find(w, name, rtype, now);
            && (forall e :: e in w.lu && e !in f.w.lu ==> Spent(w, e, now))
            && (f.ret == None && !f.err ==>
                  forall e :: e in ChainOf(w.hash, w.chains, name) && e in f.w.lu ==> !Spent(w, e, now))
  {
    hide Inv, FindFrom, Lower, Spent;
    if name != "" {
      InHash(w, name);
      ScanChain(w, Bucket(w, name));
      FindSweeps(w, w.chains[Bucket(w, name)], Asked(name, false), rtype, now, 0, None);
    }
  }
}
