/** `_dns_hash_find`: first unexpired match in chain order, following CNAMEs, removing expired
    entries on the way. */
module DnsLookup {
  import opened Seqs
  import opened Ticks
  import opened DnsModel

  // ----- what counts as a match -----

  predicate PositiveCname(e: Entry)
  {
    e.rtype == T_CNAME && e.target.Some? && !e.bad
  }

  predicate Matches(e: Entry, name: string, rtype: int)
  {
    SameName(e.name, name) && (e.rtype == rtype || PositiveCname(e))
  }

  // ----- reference: a search that changes nothing -----

  /** Position of the first unexpired match. */
  function FirstMatch(s: seq<Entry>, name: string, rtype: int, now: ticks): (i: nat)
    ensures i <= |s|
    ensures i < |s| ==> !Expired(s[i], now) && Matches(s[i], name, rtype)
  {
    if s == [] || (!Expired(s[0], now) && Matches(s[0], name, rtype)) then 0
    else 1 + FirstMatch(s[1..], name, rtype, now)
  }

  lemma {:induction false} BeforeFirstMatch(s: seq<Entry>, name: string, rtype: int, now: ticks, j: nat)
    requires j < FirstMatch(s, name, rtype, now)
    ensures Expired(s[j], now) || !Matches(s[j], name, rtype)
  {
    if j > 0 {
      BeforeFirstMatch(s[1..], name, rtype, now, j - 1);
    }
  }

  /** The entry found, or the last CNAME of an unfinished chain; `err` for a chain too long. */
  datatype Answer = Answer(ret: Option<Entry>, err: bool)

  function ChainOf(hash: string -> nat, chains: seq<seq<Entry>>, name: string): (s: seq<Entry>)
  {
    var h := hash(Lower(name));
    if h < |chains| then chains[h] else []
  }

  /** Where the search goes from `rest`: it ends without a match, hits, or meets a CNAME. */
  datatype Turn = NoMatch | Hit(e: Entry) | Alias(e: Entry, tail: seq<Entry>)

  function TurnIn(rest: seq<Entry>, name: string, rtype: int, now: ticks): (t: Turn)
    ensures t.Alias? ==> t.e.target.Some?
  {
    var i := FirstMatch(rest, name, rtype, now);
    if i == |rest| then NoMatch
    else if rest[i].rtype == rtype then Hit(rest[i])
    else Alias(rest[i], rest[i + 1..])
  }

  /** What the scan found first: nothing before it was unexpired and matched. */
  lemma TurnIsFirst(rest: seq<Entry>, name: string, rtype: int, now: ticks)
    ensures var t := TurnIn(rest, name, rtype, now);
            if t.NoMatch? then NoneBefore(rest, name, rtype, now, |rest|)
            else exists i :: && 0 <= i < |rest| && rest[i] == t.e && !Expired(t.e, now) && Matches(t.e, name, rtype)
                             && NoneBefore(rest, name, rtype, now, i)
  {
    hide Expired, Matches;
    var i := FirstMatch(rest, name, rtype, now);
    forall j | 0 <= j < i ensures Expired(rest[j], now) || !Matches(rest[j], name, rtype) {
      BeforeFirstMatch(rest, name, rtype, now, j);
    }
    assert NoneBefore(rest, name, rtype, now, i);
  }

  ghost predicate NoneBefore(rest: seq<Entry>, name: string, rtype: int, now: ticks, n: nat)
    requires n <= |rest|
  {
    forall j :: 0 <= j < n ==> Expired(rest[j], now) || !Matches(rest[j], name, rtype)
  }

  /** The name asked for, and whether it is the caller's or has been set by a CNAME. */
  datatype Asked = Asked(text: string, moved: bool)

  /** After a CNAME with a value the search starts over with it. A CNAME without a value is passed by, but
      its empty value has by then replaced a name that an earlier CNAME set. */
  function NextName(e: Entry, name: Asked): (n: Asked)
    requires e.target.Some?
  {
    if e.target.value != "" then Asked(e.target.value, true) else if name.moved then Asked("", true) else name
  }

  function NextChain(hash: string -> nat, chains: seq<seq<Entry>>, e: Entry, tail: seq<Entry>): (s: seq<Entry>)
    requires e.target.Some?
  {
    if e.target.value != "" then ChainOf(hash, chains, e.target.value) else tail
  }

  /** Continue in `rest` after `hops` CNAMEs, the last of which was `last`. */
  function Search(hash: string -> nat, chains: seq<seq<Entry>>, rest: seq<Entry>,
                  name: Asked, rtype: int, now: ticks, hops: nat, last: Option<Entry>): (r: Answer)
    requires hops <= MAX_CNAME_CHAIN + 1
    decreases MAX_CNAME_CHAIN + 1 - hops
  {
    match TurnIn(rest, name.text, rtype, now)
    case NoMatch => Answer(last, false)
    case Hit(e) => Answer(Some(e), false)
    case Alias(e, tail) =>
      if hops > MAX_CNAME_CHAIN then Answer(None, true)
      else Search(hash, chains, NextChain(hash, chains, e, tail), NextName(e, name), rtype, now, hops + 1, Some(e))
  }

  function Lookup(w: World, name: string, rtype: int, now: ticks): (r: Answer)
  {
    if name == "" then Answer(None, true)
    else Search(w.hash, w.chains, ChainOf(w.hash, w.chains, name), Asked(name, false), rtype, now, 0, None)
  }

  // ----- the search depends on the unexpired entries only -----

  function LiveOf(s: seq<Entry>, now: ticks): (l: seq<Entry>)
  {
    if s == [] then [] else if Expired(s[0], now) then LiveOf(s[1..], now) else [s[0]] + LiveOf(s[1..], now)
  }

  ghost predicate SameLive(c: seq<seq<Entry>>, d: seq<seq<Entry>>, now: ticks)
  {
    |c| == |d| && forall h :: 0 <= h < |c| ==> LiveOf(c[h], now) == LiveOf(d[h], now)
  }

  /** The first match among all entries is the first match among the live ones. */
  lemma {:induction false} FirstMatchLive(s: seq<Entry>, name: string, rtype: int, now: ticks)
    ensures var i := FirstMatch(s, name, rtype, now); var l := LiveOf(s, now); var k := FirstMatch(l, name, rtype, now);
            && (i == |s| <==> k == |l|)
            && (i < |s| ==> l[k] == s[i] && l[k + 1..] == LiveOf(s[i + 1..], now))
  {
    if s != [] {
      FirstMatchLive(s[1..], name, rtype, now);
      var l := LiveOf(s, now);
      if !Expired(s[0], now) {
        assert l[1..] == LiveOf(s[1..], now);
      }
    }
  }

  lemma TurnLive(s: seq<Entry>, name: string, rtype: int, now: ticks)
    ensures var a, b := TurnIn(s, name, rtype, now), TurnIn(LiveOf(s, now), name, rtype, now);
            if a.Alias? then b == Alias(a.e, LiveOf(a.tail, now)) else a == b
  {
    FirstMatchLive(s, name, rtype, now);
  }

  lemma NextLive(hash: string -> nat, c: seq<seq<Entry>>, d: seq<seq<Entry>>, e: Entry,
      s: seq<Entry>, t: seq<Entry>, now: ticks)
    requires e.target.Some? && SameLive(c, d, now) && LiveOf(s, now) == LiveOf(t, now)
    ensures LiveOf(NextChain(hash, c, e, s), now) == LiveOf(NextChain(hash, d, e, t), now)
  {
  }

  lemma {:induction false} SearchLive(hash: string -> nat, c: seq<seq<Entry>>, d: seq<seq<Entry>>,
      s: seq<Entry>, t: seq<Entry>, name: Asked, rtype: int, now: ticks, hops: nat, last: Option<Entry>)
    requires hops <= MAX_CNAME_CHAIN + 1
    requires SameLive(c, d, now) && LiveOf(s, now) == LiveOf(t, now)
    ensures Search(hash, c, s, name, rtype, now, hops, last) == Search(hash, d, t, name, rtype, now, hops, last)
    decreases MAX_CNAME_CHAIN + 1 - hops
  {
    hide Expired, Matches, Lower, LiveOf, TurnIn;
    TurnLive(s, name.text, rtype, now);
    TurnLive(t, name.text, rtype, now);
    var a, b := TurnIn(s, name.text, rtype, now), TurnIn(t, name.text, rtype, now);
    if a.Alias? && hops <= MAX_CNAME_CHAIN {
      NextLive(hash, c, d, a.e, a.tail, b.tail, now);
      SearchLive(hash, c, d, NextChain(hash, c, a.e, a.tail), NextChain(hash, d, a.e, b.tail),
                 NextName(a.e, name), rtype, now, hops + 1, Some(a.e));
    }
  }

  // ----- the search as it is done -----

  datatype Found = Found(w: World, ret: Option<Entry>, err: bool)

  ghost predicate Within(s: seq<Entry>, t: seq<Entry>)
  {
    forall e :: e in s ==> e in t
  }

  /** An expired entry stays while users hold it, up to the delay. */
  predicate MayRemove(w: World, e: Entry, now: ticks)
    requires e in w.acc
  {
    w.acc[e].rc <= 1 || PastDelay(e, now)
  }

  /** Nothing, or the removal of an expired entry. */
  function Expire(w: World, e: Entry, now: ticks): (r: World)
    requires HashInRange(w) && e in w.acc
  {
    if MayRemove(w, e, now) then Remove(w, e) else w
  }

  ghost predicate CanScan(w: World, rest: seq<Entry>)
  {
    Inv(w) && Distinct(rest) && Within(rest, w.lu)
  }

  lemma ScanOn(w: World, rest: seq<Entry>, now: ticks)
    requires CanScan(w, rest) && rest != []
    ensures rest[0] in w.acc && HashInRange(w)
    ensures CanScan(Expire(w, rest[0], now), rest[1..])
    ensures CanScan(w, rest[1..])
    ensures CanScan(Touch(w, rest[0]), rest[1..])
  {
    assert rest[0] in w.lu;
    TailDistinct(rest);
    RemoveInv(w, rest[0]);
    TouchInv(w, rest[0]);
  }

  lemma TailDistinct(s: seq<Entry>)
    requires Distinct(s) && s != []
    ensures Distinct(s[1..]) && s[0] !in s[1..] && Within(s[1..], s)
  {
    forall e | e in s[1..] ensures e in s {
    }
  }

  lemma ScanChain(w: World, h: nat)
    requires Inv(w) && h < |w.chains|
    ensures CanScan(w, w.chains[h])
  {
    assert ChainAgrees(w, h);
  }

  lemma ScanNext(w: World, e: Entry, tail: seq<Entry>)
    requires Inv(w) && CanScan(w, tail) && e.target.Some?
    ensures CanScan(w, NextChain(w.hash, w.chains, e, tail))
  {
    if e.target.value != "" {
      ScanChain(w, Bucket(w, e.target.value));
    }
  }

  function FindFrom(w: World, rest: seq<Entry>, name: Asked, rtype: int, now: ticks,
                    hops: nat, last: Option<Entry>): (r: Found)
    requires hops <= MAX_CNAME_CHAIN + 1 && CanScan(w, rest)
    decreases MAX_CNAME_CHAIN + 1 - hops, |rest|
  {
    if rest == [] then Found(w, last, false)
    else
      ScanOn(w, rest, now);
      var e := rest[0];
      if Expired(e, now) then FindFrom(Expire(w, e, now), rest[1..], name, rtype, now, hops, last)
      else if e.rtype == rtype && SameName(e.name, name.text) then Found(Touch(w, e), Some(e), false)
      else if PositiveCname(e) && SameName(e.name, name.text) then
        var w' := Touch(w, e);
        if hops > MAX_CNAME_CHAIN then Found(w', None, true)
        else
          ScanNext(w', e, rest[1..]);
          FindFrom(w', NextChain(w'.hash, w'.chains, e, rest[1..]), NextName(e, name), rtype, now, hops + 1, Some(e))
      else FindFrom(w, rest[1..], name, rtype, now, hops, last)
  }

  function Find(w: World, name: string, rtype: int, now: ticks): (r: Found)
    requires Inv(w)
  {
    if name == "" then Found(w, None, true)
    else
      ScanChain(w, Bucket(w, name));
      FindFrom(w, w.chains[Bucket(w, name)], Asked(name, false), rtype, now, 0, None)
  }

  // ----- refinement -----

  lemma {:induction false} LiveMinus(s: seq<Entry>, e: Entry, now: ticks)
    requires Expired(e, now)
    ensures LiveOf(Minus(s, e), now) == LiveOf(s, now)
  {
    if s != [] && s[0] != e {
      LiveMinus(s[1..], e, now);
      assert ([s[0]] + Minus(s[1..], e))[1..] == Minus(s[1..], e);
    }
  }

  lemma ExpireLive(w: World, e: Entry, now: ticks, t: ticks)
    requires HashInRange(w) && e in w.acc && Expired(e, t)
    ensures SameLive(Expire(w, e, now).chains, w.chains, t)
  {
    LiveMinus(w.chains[Bucket(w, e.name)], e, t);
  }

  /** Skipping an entry that does not count does not change the reference search. */
  lemma TurnSkip(rest: seq<Entry>, name: string, rtype: int, now: ticks)
    requires rest != [] && (Expired(rest[0], now) || !Matches(rest[0], name, rtype))
    ensures TurnIn(rest, name, rtype, now) == TurnIn(rest[1..], name, rtype, now)
  {
    var i := FirstMatch(rest[1..], name, rtype, now);
    assert FirstMatch(rest, name, rtype, now) == 1 + i;
    if i < |rest| - 1 {
      assert rest[1..][i + 1..] == rest[1 + i + 1..];
    }
  }

  /** Both searches answer the same from here. */
  ghost predicate Agree(w: World, rest: seq<Entry>, name: Asked, rtype: int, now: ticks, hops: nat,
                        last: Option<Entry>)
    requires hops <= MAX_CNAME_CHAIN + 1 && CanScan(w, rest)
  {
    var f := FindFrom(w, rest, name, rtype, now, hops, last);
    Answer(f.ret, f.err) == Search(w.hash, w.chains, rest, name, rtype, now, hops, last)
  }

  lemma AgreeEnd(w: World, name: Asked, rtype: int, now: ticks, hops: nat, last: Option<Entry>)
    requires hops <= MAX_CNAME_CHAIN + 1 && CanScan(w, [])
    ensures Agree(w, [], name, rtype, now, hops, last)
  {
  }

  lemma AgreeExpired(w: World, rest: seq<Entry>, name: Asked, rtype: int, now: ticks, hops: nat, last: Option<Entry>)
    requires hops <= MAX_CNAME_CHAIN + 1 && CanScan(w, rest) && rest != [] && Expired(rest[0], now)
    requires rest[0] in w.acc && CanScan(Expire(w, rest[0], now), rest[1..])
    requires Agree(Expire(w, rest[0], now), rest[1..], name, rtype, now, hops, last)
    ensures Agree(w, rest, name, rtype, now, hops, last)
  {
    ExpireLive(w, rest[0], now, now);
    SearchLive(w.hash, Expire(w, rest[0], now).chains, w.chains, rest[1..], rest[1..], name, rtype, now, hops, last);
    TurnSkip(rest, name.text, rtype, now);
  }

  lemma AgreeSkip(w: World, rest: seq<Entry>, name: Asked, rtype: int, now: ticks, hops: nat, last: Option<Entry>)
    requires hops <= MAX_CNAME_CHAIN + 1 && CanScan(w, rest) && rest != []
    requires !Expired(rest[0], now) && !Matches(rest[0], name.text, rtype) && CanScan(w, rest[1..])
    requires Agree(w, rest[1..], name, rtype, now, hops, last)
    ensures Agree(w, rest, name, rtype, now, hops, last)
  {
    TurnSkip(rest, name.text, rtype, now);
  }

  lemma AgreeMatch(w: World, rest: seq<Entry>, name: Asked, rtype: int, now: ticks, hops: nat, last: Option<Entry>)
    requires hops <= MAX_CNAME_CHAIN + 1 && CanScan(w, rest) && rest != []
    requires var e, w' := rest[0], Touch(w, rest[0]);
             && !Expired(e, now) && Matches(e, name.text, rtype)
             && (e.rtype != rtype && hops <= MAX_CNAME_CHAIN ==>
                   && CanScan(w', NextChain(w'.hash, w'.chains, e, rest[1..]))
                   && Agree(w', NextChain(w'.hash, w'.chains, e, rest[1..]), NextName(e, name), rtype, now,
                            hops + 1, Some(e)))
    ensures Agree(w, rest, name, rtype, now, hops, last)
  {
    hide Inv, Expired, Lower, NextChain, NextName;
    var e := rest[0];
    assert FirstMatch(rest, name.text, rtype, now) == 0;
    assert TurnIn(rest, name.text, rtype, now) == if e.rtype == rtype then Hit(e) else Alias(e, rest[1..]);
  }

  /** The search that removes and reorders answers like the one that changes nothing. */
  lemma {:induction false} FindRefines(w: World, rest: seq<Entry>, name: Asked, rtype: int, now: ticks,
      hops: nat, last: Option<Entry>)
    requires hops <= MAX_CNAME_CHAIN + 1 && CanScan(w, rest)
    ensures Agree(w, rest, name, rtype, now, hops, last)
    decreases MAX_CNAME_CHAIN + 1 - hops, |rest|
  {
    hide Inv, Agree, Lower, FindFrom, Search;
    if rest == [] {
      AgreeEnd(w, name, rtype, now, hops, last);
    } else {
      ScanOn(w, rest, now);
      var e := rest[0];
      if Expired(e, now) {
        FindRefines(Expire(w, e, now), rest[1..], name, rtype, now, hops, last);
        AgreeExpired(w, rest, name, rtype, now, hops, last);
      } else if !Matches(e, name.text, rtype) {
        FindRefines(w, rest[1..], name, rtype, now, hops, last);
        AgreeSkip(w, rest, name, rtype, now, hops, last);
      } else {
        if e.rtype != rtype && hops <= MAX_CNAME_CHAIN {
          var w' := Touch(w, e);
          ScanNext(w', e, rest[1..]);
          var next := NextChain(w'.hash, w'.chains, e, rest[1..]);
          FindRefines(w', next, NextName(e, name), rtype, now, hops + 1, Some(e));
        }
        AgreeMatch(w, rest, name, rtype, now, hops, last);
      }
    }
  }

  /** `_dns_hash_find` returns the first unexpired match in chain order, CNAMEs followed. */
  lemma FindIsLookup(w: World, name: string, rtype: int, now: ticks)
    requires Inv(w)
    ensures var f := Find(w, name, rtype, now); Answer(f.ret, f.err) == Lookup(w, name, rtype, now)
  {
    if name != "" {
      ScanChain(w, Bucket(w, name));
      FindRefines(w, w.chains[Bucket(w, name)], Asked(name, false), rtype, now, 0, None);
    }
  }

  // ----- what the search leaves behind -----

  ghost predicate KeepsLive(was: seq<Entry>, lu: seq<Entry>, now: ticks)
  {
    forall e :: e in was && !Expired(e, now) ==> e in lu
  }

  ghost predicate SameHeld(w: World, w': World)
  {
    w'.acc.Keys == w.acc.Keys && forall e :: e in w.acc ==> w'.acc[e].held == w.acc[e].held
  }

  /** `w'` is `w` after some entries that were expired at `now` have gone. */
  ghost predicate Pruned(w: World, w': World, now: ticks)
  {
    Inv(w') && w'.hash == w.hash && Within(w'.lu, w.lu) && KeepsLive(w.lu, w'.lu, now) && SameHeld(w, w')
  }

  lemma PrunedTransitive(w: World, v: World, u: World, now: ticks)
    requires Pruned(w, v, now) && Pruned(v, u, now)
    ensures Pruned(w, u, now)
  {
    hide Inv, Expired;
  }

  ghost predicate EndsWith(s: seq<Entry>, e: Entry)
  {
    s != [] && s[|s| - 1] == e
  }

  lemma {:induction false} MinusEnd(s: seq<Entry>, x: Entry, e: Entry)
    requires EndsWith(s, e) && x != e
    ensures EndsWith(Minus(s, x), e)
  {
    if s[0] != x && |s| > 1 {
      MinusEnd(s[1..], x, e);
    }
  }

  /** A result is linked, unexpired, not destroyed, and the most recently used entry. */
  ghost predicate Good(w: World, ret: Option<Entry>, now: ticks)
  {
    ret.Some? ==> ret.value in w.lu && !Expired(ret.value, now) && EndsWith(w.lu, ret.value)
  }

  lemma ExpirePrunes(w: World, e: Entry, now: ticks, last: Option<Entry>)
    requires Inv(w) && e in w.lu && e in w.acc && Expired(e, now) && Good(w, last, now)
    ensures Pruned(w, Expire(w, e, now), now) && Good(Expire(w, e, now), last, now)
  {
    hide Expired;
    RemoveInv(w, e);
    if last.Some? {
      MinusEnd(w.lu, e, last.value);
    }
  }

  lemma TouchPrunes(w: World, e: Entry, now: ticks)
    requires Inv(w) && e in w.lu && !Expired(e, now)
    ensures Pruned(w, Touch(w, e), now) && Good(Touch(w, e), Some(e), now)
  {
    hide Expired;
    TouchInv(w, e);
  }

  lemma {:induction false} FindLeaves(w: World, rest: seq<Entry>, name: Asked, rtype: int, now: ticks,
      hops: nat, last: Option<Entry>)
    requires hops <= MAX_CNAME_CHAIN + 1 && CanScan(w, rest) && Good(w, last, now)
    ensures var f := FindFrom(w, rest, name, rtype, now, hops, last);
            Pruned(w, f.w, now) && Good(f.w, f.ret, now)
    decreases MAX_CNAME_CHAIN + 1 - hops, |rest|
  {
    hide Inv, Expired, Matches, Lower, Good, NextChain, NextName;
    PrunedSelf(w, rest, now);
    if rest != [] {
      ScanOn(w, rest, now);
      var e := rest[0];
      assert e in w.lu;
      if Expired(e, now) {
        ExpirePrunes(w, e, now, last);
        FindLeaves(Expire(w, e, now), rest[1..], name, rtype, now, hops, last);
        PrunedTransitive(w, Expire(w, e, now), FindFrom(w, rest, name, rtype, now, hops, last).w, now);
      } else if e.rtype == rtype && SameName(e.name, name.text) {
        TouchPrunes(w, e, now);
      } else if PositiveCname(e) && SameName(e.name, name.text) {
        var w' := Touch(w, e);
        TouchPrunes(w, e, now);
        if hops <= MAX_CNAME_CHAIN {
          ScanNext(w', e, rest[1..]);
          FindLeaves(w', NextChain(w'.hash, w'.chains, e, rest[1..]), NextName(e, name), rtype, now, hops + 1, Some(e));
          PrunedTransitive(w, w', FindFrom(w, rest, name, rtype, now, hops, last).w, now);
        } else {
          GoodNone(w', now);
        }
      } else {
        FindLeaves(w, rest[1..], name, rtype, now, hops, last);
      }
    }
  }

  lemma GoodNone(w: World, now: ticks)
    ensures Good(w, None, now)
  {
  }

  lemma PrunedSelf(w: World, rest: seq<Entry>, now: ticks)
    requires CanScan(w, rest)
    ensures Inv(w) && Pruned(w, w, now)
  {
    hide Inv;
  }

  /** The result of a find is linked, unexpired, last in the last-used list, and only entries
      that were expired have gone; no user lost a reference. */
  lemma FindResult(w: World, name: string, rtype: int, now: ticks)
    requires Inv(w)
    ensures var f := Find(w, name, rtype, now); Pruned(w, f.w, now) && Good(f.w, f.ret, now)
  {
    hide Inv, Expired, Matches, Lower, FindFrom;
    GoodNone(w, now);
    PrunedSelf(w, [], now);
    if name != "" {
      InHash(w, name);
      ScanChain(w, Bucket(w, name));
      FindLeaves(w, w.chains[Bucket(w, name)], Asked(name, false), rtype, now, 0, None);
    }
  }

  lemma InHash(w: World, name: string)
    requires Inv(w)
    ensures Bucket(w, name) < |w.chains|
  {
  }

  /** Entries expired at `now` are expired at `t` as well. */
  ghost predicate StillExpired(lu: seq<Entry>, now: ticks, t: ticks)
  {
    forall e :: e in lu && Expired(e, now) ==> Expired(e, t)
  }

  lemma {:induction false} FindLive(w: World, rest: seq<Entry>, name: Asked, rtype: int, now: ticks,
      hops: nat, last: Option<Entry>, t: ticks)
    requires hops <= MAX_CNAME_CHAIN + 1 && CanScan(w, rest) && StillExpired(w.lu, now, t)
    ensures SameLive(FindFrom(w, rest, name, rtype, now, hops, last).w.chains, w.chains, t)
    decreases MAX_CNAME_CHAIN + 1 - hops, |rest|
  {
    hide Inv, Expired, Matches, Lower, NextChain, NextName, LiveOf;
    if rest != [] {
      ScanOn(w, rest, now);
      var e := rest[0];
      assert e in w.lu;
      if Expired(e, now) {
        ExpireLive(w, e, now, t);
        ExpireStill(w, e, now, t);
        FindLive(Expire(w, e, now), rest[1..], name, rtype, now, hops, last, t);
      } else if e.rtype == rtype && SameName(e.name, name.text) {
      } else if PositiveCname(e) && SameName(e.name, name.text) {
        var w' := Touch(w, e);
        if hops <= MAX_CNAME_CHAIN {
          ScanNext(w', e, rest[1..]);
          ExpireStill(w, e, now, t);
          var next := NextChain(w'.hash, w'.chains, e, rest[1..]);
          FindLive(w', next, NextName(e, name), rtype, now, hops + 1, Some(e), t);
        }
      } else {
        FindLive(w, rest[1..], name, rtype, now, hops, last, t);
      }
    }
  }

  lemma ExpireStill(w: World, e: Entry, now: ticks, t: ticks)
    requires Inv(w) && e in w.lu && e in w.acc && StillExpired(w.lu, now, t)
    ensures StillExpired(Expire(w, e, now).lu, now, t) && StillExpired(Touch(w, e).lu, now, t)
  {
    hide Expired;
    RemoveInv(w, e);
    TouchInv(w, e);
  }

  /** What a find removes on its way changes no later answer, for any name and type, at any time at
      which the entries expired now are still expired. */
  lemma FindKeepsAnswers(w: World, name: string, rtype: int, now: ticks, name2: string, rtype2: int, t: ticks)
    requires Inv(w) && StillExpired(w.lu, now, t)
    ensures Lookup(Find(w, name, rtype, now).w, name2, rtype2, t) == Lookup(w, name2, rtype2, t)
  {
    hide Inv, Expired, Matches, Lower, FindFrom, Search, LiveOf;
    FindResult(w, name, rtype, now);
    if name != "" && name2 != "" {
      InHash(w, name);
      ScanChain(w, Bucket(w, name));
      FindLive(w, w.chains[Bucket(w, name)], Asked(name, false), rtype, now, 0, None, t);
      var w' := Find(w, name, rtype, now).w;
      SearchLive(w.hash, w'.chains, w.chains, ChainOf(w.hash, w'.chains, name2), ChainOf(w.hash, w.chains, name2),
                 Asked(name2, false), rtype2, t, 0, None);
    }
  }

  // ----- CNAME cycles -----

  /** The name that a lookup of `name` is redirected to. */
  function Redirect(w: World, name: string, rtype: int, now: ticks): (r: Option<string>)
  {
    var t := TurnIn(ChainOf(w.hash, w.chains, name), name, rtype, now);
    if t.Alias? && t.e.target.value != "" then Some(t.e.target.value) else None
  }

  ghost predicate Cyclic(w: World, names: set<string>, rtype: int, now: ticks)
  {
    forall n :: n in names ==> Redirect(w, n, rtype, now).Some? && Redirect(w, n, rtype, now).value in names
  }

  lemma {:induction false} CycleErrs(w: World, names: set<string>, name: Asked, rtype: int, now: ticks,
      hops: nat, last: Option<Entry>)
    requires Cyclic(w, names, rtype, now) && name.text in names && hops <= MAX_CNAME_CHAIN + 1
    ensures var rest := ChainOf(w.hash, w.chains, name.text);
            Search(w.hash, w.chains, rest, name, rtype, now, hops, last) == Answer(None, true)
    decreases MAX_CNAME_CHAIN + 1 - hops
  {
    hide Expired, Matches, Lower, TurnIn;
    var t := TurnIn(ChainOf(w.hash, w.chains, name.text), name.text, rtype, now);
    assert Redirect(w, name.text, rtype, now).Some?;
    if hops <= MAX_CNAME_CHAIN {
      CycleErrs(w, names, Asked(t.e.target.value, true), rtype, now, hops + 1, Some(t.e));
    }
  }

  /** The next `n` matches are CNAMEs, each met where the one before leads. */
  predicate AllAliases(w: World, rest: seq<Entry>, name: Asked, rtype: int, now: ticks, n: nat)
    decreases n
  {
    n == 0 ||
    var t := TurnIn(rest, name.text, rtype, now);
    t.Alias? && AllAliases(w, NextChain(w.hash, w.chains, t.e, t.tail), NextName(t.e, name), rtype, now, n - 1)
  }

  lemma {:induction false} SearchErrs(w: World, rest: seq<Entry>, name: Asked, rtype: int, now: ticks,
      hops: nat, last: Option<Entry>)
    requires hops <= MAX_CNAME_CHAIN + 1
    ensures Search(w.hash, w.chains, rest, name, rtype, now, hops, last).err
            <==> AllAliases(w, rest, name, rtype, now, MAX_CNAME_CHAIN + 2 - hops)
    decreases MAX_CNAME_CHAIN + 1 - hops
  {
    hide TurnIn;
    var t := TurnIn(rest, name.text, rtype, now);
    if t.Alias? && hops <= MAX_CNAME_CHAIN {
      SearchErrs(w, NextChain(w.hash, w.chains, t.e, t.tail), NextName(t.e, name), rtype, now, hops + 1, Some(t.e));
    } else if t.Alias? {
      assert AllAliases(w, NextChain(w.hash, w.chains, t.e, t.tail), NextName(t.e, name), rtype, now, 0);
    }
  }

  /** A lookup ends with an error if and only if the name is empty or leads through more than
      MAX_CNAME_CHAIN + 1 CNAMEs. */
  lemma ErrorExactly(w: World, name: string, rtype: int, now: ticks)
    requires Inv(w)
    ensures Find(w, name, rtype, now).err
            <==> name == "" ||
                 AllAliases(w, ChainOf(w.hash, w.chains, name), Asked(name, false), rtype, now, MAX_CNAME_CHAIN + 2)
  {
    hide Inv, Find, AllAliases, Search;
    FindIsLookup(w, name, rtype, now);
    if name != "" {
      SearchErrs(w, ChainOf(w.hash, w.chains, name), Asked(name, false), rtype, now, 0, None);
    }
  }

  /** A lookup that enters a cycle of CNAMEs ends with an error. */
  lemma CnameCycle(w: World, names: set<string>, name: string, rtype: int, now: ticks)
    requires Inv(w) && Cyclic(w, names, rtype, now) && name in names
    ensures var f := Find(w, name, rtype, now); f.err && f.ret.None?
  {
    FindIsLookup(w, name, rtype, now);
    if name != "" {
      CycleErrs(w, names, Asked(name, false), rtype, now, 0, None);
    }
  }
}
