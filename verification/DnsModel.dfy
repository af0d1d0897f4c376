/** The DNS cache (src/core/dns_cache.c) as a value: what the locked operations do to the hash
    chains, the last-used list, the byte counter and the reference counts. */
module DnsModel {
  import opened Seqs
  import opened Ticks

  const MAX_CNAME_CHAIN := 10
  const RMDELAY := 300            // seconds a referenced entry outlives its expiry
  const T_CNAME := 5

  /** struct dns_hash_entry. The table links and the count are changed in place; the rest is
      fixed when the entry is made. `target` is None for an empty record list. */
  class Entry {
    const name: string
    const rtype: int
    const expire: ticks
    const permanent: bool
    const bad: bool
    const size: nat
    const target: Option<string>
    var next: Entry?
    var prev: Entry?
    var luNext: Entry?
    var luPrev: Entry?
    var refcnt: int
    var lastUsed: ticks
    var freed: bool

    constructor (name: string, rtype: int, expire: ticks, permanent: bool, bad: bool, size: nat,
                 target: Option<string>, refcnt: int, now: ticks)
      ensures this.name == name && this.rtype == rtype && this.expire == expire && this.size == size
      ensures this.permanent == permanent && this.bad == bad && this.target == target
      ensures this.refcnt == refcnt && !freed && next == prev == luNext == luPrev == null
    {
      this.name, this.rtype, this.expire, this.size := name, rtype, expire, size;
      this.permanent, this.bad, this.target := permanent, bad, target;
      this.refcnt, freed, lastUsed := refcnt, false, now;
      next, prev, luNext, luPrev := null, null, null, null;
    }
  }

  /** The books of one entry: its refcnt, the references that users hold, and how often
      dns_destroy_entry was called on it. */
  datatype Account = Account(rc: int, held: nat, destroyed: nat)

  /** The cache, and the account of every entry that was ever added to it. */
  datatype World = World(
    hash: string -> nat,
    chains: seq<seq<Entry>>,
    lu: seq<Entry>,
    mem: int,
    acc: map<Entry, Account>)

  // ----- names, hash, expiry -----

  function LowerChar(c: char): (l: char)
  {
    if 'A' <= c <= 'Z' then c + 32 as char else c
  }

  function Lower(s: string): (l: string)
  {
    if s == "" then "" else [LowerChar(s[0])] + Lower(s[1..])
  }

  predicate SameName(a: string, b: string)
  {
    Lower(a) == Lower(b)
  }

  /** dns_hash_no: any hash of the name that ignores case. */
  function Bucket(w: World, name: string): (h: nat)
  {
    w.hash(Lower(name))
  }

  predicate Expired(e: Entry, now: ticks)
  {
    !e.permanent && Reached(now, e.expire)
  }

  /** (s_ticks_t)(now - expire - S_TO_TICKS(RMDELAY)) >= 0 */
  predicate PastDelay(e: Entry, now: ticks)
  {
    Reached(now, After(e.expire, SecondsToTicks(RMDELAY)))
  }

  // ----- the invariant -----

  function TotalSize(s: seq<Entry>): (n: nat)
  {
    if s == [] then 0 else s[0].size + TotalSize(s[1..])
  }

  /** Every entry of chain `h` belongs there, once, and is in the last-used list. */
  ghost predicate ChainAgrees(w: World, h: nat)
    requires h < |w.chains|
  {
    && Distinct(w.chains[h])
    && forall e :: e in w.chains[h] ==> Bucket(w, e.name) == h && e in w.lu
  }

  ghost predicate HashInRange(w: World)
  {
    forall s :: w.hash(s) < |w.chains|
  }

  /** Both lists hold the same entries, each once, every entry in the chain of its name. */
  ghost predicate ListsAgree(w: World)
  {
    && HashInRange(w)
    && Distinct(w.lu)
    && (forall h :: 0 <= h < |w.chains| ==> ChainAgrees(w, h))
    && (forall e :: e in w.lu ==> e in w.chains[Bucket(w, e.name)])
  }

  /** A count is the link plus the references held outside; it is zero exactly when the entry
      has been destroyed, which happens once. */
  predicate Balanced(a: Account, linked: bool)
  {
    && a.rc == a.held + (if linked then 1 else 0)
    && a.destroyed == if a.rc == 0 then 1 else 0
  }

  ghost predicate CountsAgree(w: World)
  {
    && (forall e :: e in w.lu ==> e in w.acc)
    && (forall e :: e in w.acc ==> Balanced(w.acc[e], e in w.lu))
  }

  ghost predicate Inv(w: World)
  {
    ListsAgree(w) && CountsAgree(w) && w.mem == TotalSize(w.lu)
  }

  // ----- the steps -----

  /** dns_hash_put_entry: the count drops, and at zero the entry is destroyed. */
  function Dropped(a: Account): (r: Account)
  {
    a.(rc := a.rc - 1, destroyed := a.destroyed + if a.rc == 1 then 1 else 0)
  }

  function Unlink(w: World, e: Entry): (r: World)
    requires HashInRange(w)
  {
    var h := Bucket(w, e.name);
    w.(chains := w.chains[h := Minus(w.chains[h], e)], lu := Minus(w.lu, e), mem := w.mem - e.size)
  }

  /** _dns_hash_remove_entry in the default mode. */
  function Remove(w: World, e: Entry): (r: World)
    requires HashInRange(w) && e in w.acc
  {
    Unlink(w, e).(acc := w.acc[e := Dropped(w.acc[e])])
  }

  /** Move to the end of the last-used list. */
  function Touch(w: World, e: Entry): (r: World)
  {
    w.(lu := Minus(w.lu, e) + [e])
  }

  /** A user takes one more reference. */
  function Inc(w: World, e: Entry): (r: World)
    requires e in w.acc
  {
    var a := w.acc[e];
    w.(acc := w.acc[e := a.(rc := a.rc + 1, held := a.held + 1)])
  }

  /** A user gives a reference back. */
  function Put(w: World, e: Entry): (r: World)
    requires e in w.acc && w.acc[e].held > 0
  {
    var a := w.acc[e];
    w.(acc := w.acc[e := Dropped(a.(held := a.held - 1))])
  }

  /** Link a new entry, of which its maker holds `held` references. */
  function Link(w: World, e: Entry, held: nat): (r: World)
    requires HashInRange(w)
  {
    var h := Bucket(w, e.name);
    w.(chains := w.chains[h := w.chains[h] + [e]], lu := w.lu + [e], mem := w.mem + e.size,
       acc := w.acc[e := Account(held + 1, held, 0)])
  }

  // ----- each step keeps the invariant -----

  lemma {:induction false} TotalSnoc(s: seq<Entry>, e: Entry)
    ensures TotalSize(s + [e]) == TotalSize(s) + e.size
  {
    if s != [] {
      assert (s + [e])[1..] == s[1..] + [e];
      TotalSnoc(s[1..], e);
    }
  }

  lemma {:induction false} TotalMinus(s: seq<Entry>, e: Entry)
    requires e in s
    ensures TotalSize(Minus(s, e)) == TotalSize(s) - e.size
  {
    if s[0] != e {
      TotalMinus(s[1..], e);
      assert ([s[0]] + Minus(s[1..], e))[1..] == Minus(s[1..], e);
    }
  }

  lemma UnlinkLists(w: World, e: Entry)
    requires ListsAgree(w) && e in w.lu
    ensures ListsAgree(Unlink(w, e))
  {
    var h := Bucket(w, e.name);
    MinusMembers(w.lu, e);
    assert ChainAgrees(w, h);
    MinusMembers(w.chains[h], e);
    var r := Unlink(w, e);
    forall g | 0 <= g < |r.chains| ensures ChainAgrees(r, g) {
      assert ChainAgrees(w, g);
      assert r.chains[g] == if g == h then Minus(w.chains[h], e) else w.chains[g];
      forall x | x in r.chains[g] ensures Bucket(r, x.name) == g && x in r.lu {
        assert x in w.chains[g] && x != e;
      }
    }
    forall x | x in r.lu ensures x in r.chains[Bucket(r, x.name)] {
      assert x != e && x in w.lu;
    }
  }

  lemma RemoveInv(w: World, e: Entry)
    requires Inv(w) && e in w.lu
    ensures Inv(Remove(w, e)) && AllBut(Remove(w, e).lu, w.lu, e)
  {
    UnlinkLists(w, e);
    MinusMembers(w.lu, e);
    TotalMinus(w.lu, e);
    SameLists(Unlink(w, e), Remove(w, e));
    RemoveCounts(w, e);
  }

  lemma RemoveCounts(w: World, e: Entry)
    requires HashInRange(w) && CountsAgree(w) && e in w.lu && Distinct(w.lu)
    ensures CountsAgree(Remove(w, e))
  {
    MinusMembers(w.lu, e);
    var r := Remove(w, e);
    assert Balanced(w.acc[e], true);
    assert Balanced(r.acc[e], false);
    forall x | x in r.acc ensures Balanced(r.acc[x], x in r.lu) {
      assert x != e ==> r.acc[x] == w.acc[x];
    }
  }

  /** The list half of the invariant does not look at the rest. */
  lemma SameLists(u: World, r: World)
    requires ListsAgree(u) && r.hash == u.hash && r.chains == u.chains && r.lu == u.lu
    ensures ListsAgree(r)
  {
    forall h | 0 <= h < |r.chains| ensures ChainAgrees(r, h) {
      assert ChainAgrees(u, h);
    }
  }

  lemma TouchInv(w: World, e: Entry)
    requires Inv(w) && e in w.lu
    ensures Inv(Touch(w, e))
    ensures SameMembers(Touch(w, e).lu, w.lu)
  {
    TouchMembers(w.lu, e);
    TotalMinus(w.lu, e);
    TotalSnoc(Minus(w.lu, e), e);
    var r := Touch(w, e);
    forall h | 0 <= h < |r.chains| ensures ChainAgrees(r, h) {
      assert ChainAgrees(w, h);
    }
  }

  lemma TouchMembers(s: seq<Entry>, e: Entry)
    requires Distinct(s) && e in s
    ensures Distinct(Minus(s, e) + [e])
    ensures SameMembers(Minus(s, e) + [e], s)
  {
    MinusMembers(s, e);
    SnocDistinct(Minus(s, e), e);
  }

  lemma IncInv(w: World, e: Entry)
    requires Inv(w) && e in w.acc && w.acc[e].rc > 0
    ensures Inv(Inc(w, e))
  {
    SameLists(w, Inc(w, e));
  }

  lemma PutInv(w: World, e: Entry)
    requires Inv(w) && e in w.acc && w.acc[e].held > 0
    ensures Inv(Put(w, e))
  {
    SameLists(w, Put(w, e));
  }

  lemma LinkInv(w: World, e: Entry, held: nat)
    requires Inv(w) && e !in w.acc
    ensures Inv(Link(w, e, held))
  {
    LinkLists(w, e, held);
    TotalSnoc(w.lu, e);
  }

  lemma LinkLists(w: World, e: Entry, held: nat)
    requires ListsAgree(w) && e !in w.lu
    ensures ListsAgree(Link(w, e, held))
  {
    var h := Bucket(w, e.name);
    SnocDistinct(w.lu, e);
    assert ChainAgrees(w, h);
    SnocDistinct(w.chains[h], e);
    var r := Link(w, e, held);
    forall g | 0 <= g < |r.chains| ensures ChainAgrees(r, g) {
      assert ChainAgrees(w, g);
      forall x | x in r.chains[g] ensures Bucket(r, x.name) == g && x in r.lu {
        assert g != h ==> r.chains[g] == w.chains[g];
        assert x == e || x in w.chains[g];
      }
    }
    forall x | x in r.lu ensures x in r.chains[Bucket(r, x.name)] {
      assert x == e || x in w.lu;
    }
  }
}
