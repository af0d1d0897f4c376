/** CNAMEs without a value (src/core/dns_cache.c:625-632): what a lookup loses by them, against a search
    that passes them by. */
module DnsEmptyCname {
  import opened Seqs
  import opened Ticks
  import opened DnsModel
  import opened DnsLookup

  // ----- the search that passes an empty CNAME by -----

  function PlainName(e: Entry, name: string): (n: string)
    requires e.target.Some?
  {
    if e.target.value != "" then e.target.value else name
  }

  function PlainSearch(w: World, rest: seq<Entry>, name: string, rtype: int, now: ticks, hops: nat,
                       last: Option<Entry>): (r: Answer)
    requires hops <= MAX_CNAME_CHAIN + 1
    decreases MAX_CNAME_CHAIN + 1 - hops
  {
    match TurnIn(rest, name, rtype, now)
    case NoMatch => Answer(last, false)
    case Hit(e) => Answer(Some(e), false)
    case Alias(e, tail) =>
      if hops > MAX_CNAME_CHAIN then Answer(None, true)
      else PlainSearch(w, NextChain(w.hash, w.chains, e, tail), PlainName(e, name), rtype, now, hops + 1, Some(e))
  }

  function PlainLookup(w: World, name: string, rtype: int, now: ticks): (r: Answer)
  {
    if name == "" then Answer(None, true)
    else PlainSearch(w, ChainOf(w.hash, w.chains, name), name, rtype, now, 0, None)
  }

  // ----- where the name is lost -----

  /** The CNAME without value that emptied the name, what was still to scan then, the name, and the
      CNAMEs so far. */
  datatype Loss = Loss(e: Entry, tail: seq<Entry>, name: string, hops: nat)

  function Lost(w: World, rest: seq<Entry>, name: Asked, rtype: int, now: ticks, hops: nat): (r: Option<Loss>)
    requires hops <= MAX_CNAME_CHAIN + 1
    ensures r.Some? ==> r.value.hops <= MAX_CNAME_CHAIN + 1
    decreases MAX_CNAME_CHAIN + 1 - hops
  {
    match TurnIn(rest, name.text, rtype, now)
    case Alias(e, tail) =>
      if hops > MAX_CNAME_CHAIN then None
      else if e.target.value == "" && name.moved then Some(Loss(e, tail, name.text, hops + 1))
      else Lost(w, NextChain(w.hash, w.chains, e, tail), NextName(e, name), rtype, now, hops + 1)
    case _ => None
  }

  /** Up to there both searches go the same way. */
  lemma {:induction false} SameUntilLost(w: World, rest: seq<Entry>, name: Asked, rtype: int, now: ticks, hops: nat,
                                         last: Option<Entry>)
    requires hops <= MAX_CNAME_CHAIN + 1
    ensures var l := Lost(w, rest, name, rtype, now, hops);
            var s := Search(w.hash, w.chains, rest, name, rtype, now, hops, last);
            var p := PlainSearch(w, rest, name.text, rtype, now, hops, last);
            match l
            case None => s == p
            case Some(Loss(e, tail, text, n)) =>
              && s == Search(w.hash, w.chains, tail, Asked("", true), rtype, now, n, Some(e))
              && p == PlainSearch(w, tail, text, rtype, now, n, Some(e))
    decreases MAX_CNAME_CHAIN + 1 - hops
  {
    hide TurnIn, ChainOf;
    var t := TurnIn(rest, name.text, rtype, now);
    if t.Alias? && hops <= MAX_CNAME_CHAIN && !(t.e.target.value == "" && name.moved) {
      SameUntilLost(w, NextChain(w.hash, w.chains, t.e, t.tail), NextName(t.e, name), rtype, now, hops + 1, Some(t.e));
    }
  }

  // ----- places in the chains -----

  /** `rest` is chain `g` from place `k` on. */
  ghost predicate At(w: World, rest: seq<Entry>, g: nat, k: nat)
  {
    g < |w.chains| && k <= |w.chains[g]| && rest == w.chains[g][k..]
  }

  lemma TurnAt(w: World, rest: seq<Entry>, name: string, rtype: int, now: ticks, g: nat, k: nat) returns (i: nat)
    requires At(w, rest, g, k) && TurnIn(rest, name, rtype, now).Alias?
    ensures var t := TurnIn(rest, name, rtype, now);
            && k <= i < |w.chains[g]| && w.chains[g][i] == t.e && At(w, t.tail, g, i + 1)
            && t.e.rtype != rtype && SameName(t.e.name, name)
  {
    var j := FirstMatch(rest, name, rtype, now);
    i := k + j;
    assert rest[j + 1..] == w.chains[g][i + 1..];
  }

  /** An entry stands in one place only. */
  lemma OnePlace(w: World, e: Entry, g: nat, i: nat, h: nat, j: nat)
    requires Inv(w) && g < |w.chains| && h < |w.chains| && i < |w.chains[g]| && j < |w.chains[h]|
    requires w.chains[g][i] == e && w.chains[h][j] == e
    ensures g == h && i == j
  {
    hide CountsAgree, Lower;
    assert ChainAgrees(w, g) && ChainAgrees(w, h);
    assert e in w.chains[g] && e in w.chains[h];
  }

  lemma NextAt(w: World, e: Entry, tail: seq<Entry>, g: nat, i: nat) returns (h: nat, k: nat)
    requires Inv(w) && e.target.Some? && At(w, tail, g, i)
    ensures At(w, NextChain(w.hash, w.chains, e, tail), h, k)
    ensures e.target.value == "" ==> h == g && k == i
  {
    if e.target.value == "" {
      h, k := g, i;
    } else {
      InHash(w, e.target.value);
      h, k := Bucket(w, e.target.value), 0;
      assert w.chains[h][0..] == w.chains[h];
    }
  }

  lemma {:induction false} FirstMatchSame(s: seq<Entry>, a: string, b: string, rtype: int, now: ticks)
    requires SameName(a, b)
    ensures FirstMatch(s, a, rtype, now) == FirstMatch(s, b, rtype, now)
  {
    hide Lower, Expired;
    if s != [] {
      FirstMatchSame(s[1..], a, b, rtype, now);
    }
  }

  lemma TurnSame(s: seq<Entry>, a: string, b: string, rtype: int, now: ticks)
    requires SameName(a, b)
    ensures TurnIn(s, a, rtype, now) == TurnIn(s, b, rtype, now)
  {
    FirstMatchSame(s, a, b, rtype, now);
  }

  // ----- when it matters -----

  /** An empty CNAME `e` after which more is to be found is never the last word of the search that passes
      it by: whenever that comes to `e`, it finds the same more. */
  lemma {:induction false} PlainGoesOn(w: World, e: Entry, g0: nat, i0: nat, rest: seq<Entry>, g: nat, k: nat,
                                       name: string, rtype: int, now: ticks, hops: nat, last: Option<Entry>)
    requires Inv(w) && hops <= MAX_CNAME_CHAIN + 1 && At(w, rest, g, k)
    requires g0 < |w.chains| && i0 < |w.chains[g0]| && w.chains[g0][i0] == e
    requires e.target == Some("") && e.rtype != rtype
    requires !TurnIn(w.chains[g0][i0 + 1..], e.name, rtype, now).NoMatch?
    requires last == Some(e) ==> !TurnIn(rest, name, rtype, now).NoMatch?
    ensures PlainSearch(w, rest, name, rtype, now, hops, last) != Answer(Some(e), false)
    decreases MAX_CNAME_CHAIN + 1 - hops
  {
    hide Inv, Lower, NextChain, TurnIn;
    var t := TurnIn(rest, name, rtype, now);
    if t.Alias? && hops <= MAX_CNAME_CHAIN {
      var i := TurnAt(w, rest, name, rtype, now, g, k);
      var h, j := NextAt(w, t.e, t.tail, g, i + 1);
      if t.e == e {
        OnePlace(w, e, g0, i0, g, i);
        TurnSame(t.tail, e.name, name, rtype, now);
      }
      PlainGoesOn(w, e, g0, i0, NextChain(w.hash, w.chains, t.e, t.tail), h, j, PlainName(t.e, name), rtype, now,
                  hops + 1, Some(t.e));
    } else if t.Hit? {
      HitHas(rest, name, rtype, now);
    }
  }

  lemma HitHas(rest: seq<Entry>, name: string, rtype: int, now: ticks)
    requires TurnIn(rest, name, rtype, now).Hit?
    ensures TurnIn(rest, name, rtype, now).e.rtype == rtype
  {
  }

  /** No unexpired entry has the empty name. */
  ghost predicate NoRoot(w: World, now: ticks)
  {
    forall h, i :: 0 <= h < |w.chains| && 0 <= i < |w.chains[h]| && w.chains[h][i].name == "" ==>
      Expired(w.chains[h][i], now)
  }

  lemma RootMisses(w: World, rest: seq<Entry>, rtype: int, now: ticks, g: nat, k: nat)
    requires NoRoot(w, now) && At(w, rest, g, k)
    ensures TurnIn(rest, "", rtype, now) == NoMatch
  {
    hide Expired, Lower;
    forall j | 0 <= j < |rest| ensures Expired(rest[j], now) || !Matches(rest[j], "", rtype) {
      assert rest[j] == w.chains[g][k + j];
      LowerEmpty(rest[j].name);
    }
    NoneMatches(rest, "", rtype, now);
  }

  lemma LowerEmpty(s: string)
    ensures SameName(s, "") <==> s == ""
  {
  }

  lemma {:induction false} NoneMatches(rest: seq<Entry>, name: string, rtype: int, now: ticks)
    requires forall j :: 0 <= j < |rest| ==> Expired(rest[j], now) || !Matches(rest[j], name, rtype)
    ensures FirstMatch(rest, name, rtype, now) == |rest|
  {
    hide Expired, Matches;
    if rest != [] {
      NoneMatches(rest[1..], name, rtype, now);
    }
  }

  /** Where the name is lost, in the chains. */
  lemma {:induction false} LostAt(w: World, rest: seq<Entry>, g: nat, k: nat, name: Asked, rtype: int, now: ticks,
                                  hops: nat) returns (h: nat, i: nat)
    requires Inv(w) && hops <= MAX_CNAME_CHAIN + 1 && At(w, rest, g, k)
    requires Lost(w, rest, name, rtype, now, hops).Some?
    ensures var l := Lost(w, rest, name, rtype, now, hops).value;
            && h < |w.chains| && i < |w.chains[h]| && w.chains[h][i] == l.e && At(w, l.tail, h, i + 1)
            && l.e.target == Some("") && l.e.rtype != rtype && SameName(l.e.name, l.name)
    decreases MAX_CNAME_CHAIN + 1 - hops
  {
    hide Inv, Lower, NextChain, TurnIn;
    var t := TurnIn(rest, name.text, rtype, now);
    var j := TurnAt(w, rest, name.text, rtype, now, g, k);
    if t.e.target.value == "" && name.moved {
      h, i := g, j;
    } else {
      var h1, k1 := NextAt(w, t.e, t.tail, g, j + 1);
      h, i := LostAt(w, NextChain(w.hash, w.chains, t.e, t.tail), h1, k1, NextName(t.e, name), rtype, now, hops + 1);
    }
  }

  function LostIn(w: World, name: string, rtype: int, now: ticks): (r: Option<Loss>)
  {
    Lost(w, ChainOf(w.hash, w.chains, name), Asked(name, false), rtype, now, 0)
  }

  /** A lookup that loses no name answers like the search that passes empty CNAMEs by. If no entry has the
      empty name, one that loses it does so if and only if there was nothing more to find under that
      name in the rest of the chain; otherwise it returns the empty CNAME and misses what there was. */
  lemma EmptyCnameExactly(w: World, name: string, rtype: int, now: ticks)
    requires Inv(w) && name != ""
    ensures var f, l := Find(w, name, rtype, now), LostIn(w, name, rtype, now);
            && (l == None ==> Answer(f.ret, f.err) == PlainLookup(w, name, rtype, now))
            && (l.Some? && NoRoot(w, now) ==>
                  && f.ret == Some(l.value.e) && !f.err
                  && (Answer(f.ret, f.err) == PlainLookup(w, name, rtype, now)
                      <==> TurnIn(l.value.tail, l.value.name, rtype, now) == NoMatch))
  {
    hide Inv, Find, TurnIn, Lower, NoRoot, Search, PlainSearch, Lost;
    FindIsLookup(w, name, rtype, now);
    InHash(w, name);
    var rest, g := ChainOf(w.hash, w.chains, name), Bucket(w, name);
    assert w.chains[g][0..] == rest;
    SameUntilLost(w, rest, Asked(name, false), rtype, now, 0, None);
    var lost := LostIn(w, name, rtype, now);
    if lost.Some? && NoRoot(w, now) {
      var l := lost.value;
      var h, i := LostAt(w, rest, g, 0, Asked(name, false), rtype, now, 0);
      AfterLoss(w, l, rtype, now, h, i);
    }
  }

  /** What the two searches answer after the loss. */
  lemma AfterLoss(w: World, l: Loss, rtype: int, now: ticks, h: nat, i: nat)
    requires Inv(w) && NoRoot(w, now) && l.hops <= MAX_CNAME_CHAIN + 1
    requires h < |w.chains| && i < |w.chains[h]| && w.chains[h][i] == l.e && At(w, l.tail, h, i + 1)
    requires l.e.target == Some("") && l.e.rtype != rtype && SameName(l.e.name, l.name)
    ensures Search(w.hash, w.chains, l.tail, Asked("", true), rtype, now, l.hops, Some(l.e)) == Answer(Some(l.e), false)
    ensures PlainSearch(w, l.tail, l.name, rtype, now, l.hops, Some(l.e)) == Answer(Some(l.e), false)
            <==> TurnIn(l.tail, l.name, rtype, now) == NoMatch
  {
    hide Inv, TurnIn, Lower, NoRoot;
    RootMisses(w, l.tail, rtype, now, h, i + 1);
    TurnSame(l.tail, l.e.name, l.name, rtype, now);
    if !TurnIn(l.tail, l.name, rtype, now).NoMatch? {
      PlainGoesOn(w, l.e, h, i, l.tail, h, i + 1, l.name, rtype, now, l.hops, Some(l.e));
    }
  }

  /** The smallest input that shows it: "a" leads to "b", whose chain holds an empty CNAME and then the record
      asked for. The lookup returns the empty CNAME; passing that by would find the record. */
  lemma EmptyCnameHides(w: World, ea: Entry, ec: Entry, eb: Entry, rtype: int, now: ticks)
    requires Inv(w) && rtype != T_CNAME
    requires ChainOf(w.hash, w.chains, "a") == [ea] && ChainOf(w.hash, w.chains, "b") == [ec, eb]
    requires ea.name == "a" && ec.name == eb.name == "b" && PositiveCname(ea) && PositiveCname(ec)
    requires ea.target == Some("b") && ec.target == Some("") && eb.rtype == rtype
    requires !Expired(ea, now) && !Expired(ec, now) && !Expired(eb, now)
    ensures Find(w, "a", rtype, now).ret == Some(ec) && PlainLookup(w, "a", rtype, now).ret == Some(eb)
  {
    hide Inv, Expired, Find;
    FindIsLookup(w, "a", rtype, now);
    var b := [ec, eb];
    assert TurnIn([ea], "a", rtype, now) == Alias(ea, []) by {
      assert FirstMatch([ea], "a", rtype, now) == 0;
    }
    assert TurnIn(b, "b", rtype, now) == Alias(ec, [eb]) by {
      assert FirstMatch(b, "b", rtype, now) == 0;
      assert b[1..] == [eb];
    }
    assert TurnIn([eb], "b", rtype, now) == Hit(eb) by {
      assert FirstMatch([eb], "b", rtype, now) == 0;
    }
    assert TurnIn([eb], "", rtype, now) == NoMatch by {
      assert FirstMatch([eb], "", rtype, now) == 1;
    }
    assert PlainSearch(w, [eb], "b", rtype, now, 2, Some(ec)) == Answer(Some(eb), false);
    assert Search(w.hash, w.chains, [eb], Asked("", true), rtype, now, 2, Some(ec)) == Answer(Some(ec), false);
    assert PlainSearch(w, b, "b", rtype, now, 1, Some(ea)) == Answer(Some(eb), false);
    assert Search(w.hash, w.chains, b, Asked("b", true), rtype, now, 1, Some(ea)) == Answer(Some(ec), false);
  }
}
