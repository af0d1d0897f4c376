/** struct dns_srv_handle (src/core/dns_cache.h): up to three references to cache entries that a
    transaction carries along. */
module DnsHandle {
  import opened DnsModel
  import opened DnsRuns
  import opened DnsTable

  class SrvHandle {
    var naptr: Entry?
    var srv: Entry?
    var a: Entry?
    var srvTried: set<nat>       // srv_tried_rrs and naptr_tried_rrs, as bit positions
    var naptrTried: set<nat>
    var port: int
    var srvNo: int
    var ipNo: int
    var proto: int

    /** dns_srv_handle_init */
    constructor ()
      ensures Refs() == [] && Position() == (0, 0, 0, 0) && srvTried == naptrTried == {}
    {
      naptr, srv, a, srvTried, naptrTried := null, null, null, {}, {};
      port, srvNo, ipNo, proto := 0, 0, 0, 0;
    }

    /** How far the handle has come. */
    function Position(): (p: (int, int, int, int))
      reads this`port, this`srvNo, this`ipNo, this`proto
    {
      (port, srvNo, ipNo, proto)
    }

    /** The references the handle owns. */
    function Refs(): (es: seq<Entry>)
      reads this`naptr, this`srv, this`a
    {
      One(naptr) + One(srv) + One(a)
    }

    /** dns_srv_handle_put: every reference goes back, and the handle owns none. */
    method PutAllRefs(t: Table)
      requires t.Valid() && Holds(t.w, Refs())
      modifies this`naptr, this`srv, this`a, t`w, t.w.acc.Keys`refcnt, t.w.acc.Keys`freed
      ensures t.Valid() && t.w == PutAll(old(t.w), old(Refs())) && Refs() == []
    {
      hide Inv, Table.Valid, Holds, Shareable, PutAll, IncAll;
      assert One(naptr) + (One(srv) + One(a)) == Refs();
      HoldsSplit(t.w, One(naptr), One(srv) + One(a));
      PutOne(t, naptr);
      naptr := null;
      PutSrvAndA(t);
    }

    method PutSrvAndA(t: Table)
      requires t.Valid() && Holds(t.w, One(srv) + One(a))
      modifies this`srv, this`a, t`w, t.w.acc.Keys`refcnt, t.w.acc.Keys`freed
      ensures t.Valid() && t.w == PutAll(old(t.w), old(One(srv) + One(a))) && srv == null && a == null
    {
      hide Inv, Table.Valid, Holds, PutAll;
      HoldsSplit(t.w, One(srv), One(a));
      PutOne(t, srv);
      srv := null;
      PutOne(t, a);
      a := null;
    }

    /** dns_srv_handle_reset: the naptr reference and the tried records survive. */
    method Reset(t: Table)
      requires t.Valid() && Holds(t.w, One(srv) + One(a))
      modifies this`srv, this`a, this`srvNo, this`ipNo, this`port, this`proto, t`w,
               t.w.acc.Keys`refcnt, t.w.acc.Keys`freed
      ensures t.Valid() && t.w == PutAll(old(t.w), old(One(srv) + One(a))) && Refs() == One(naptr)
      ensures Position() == (0, 0, 0, 0) && unchanged(`naptr, `srvTried, `naptrTried)
    {
      hide Inv, Table.Valid, Holds, Shareable, PutAll, IncAll;
      PutSrvAndA(t);
      srvNo, ipNo, port, proto := 0, 0, 0, 0;
    }

    /** dns_srv_handle_ref: one more reference for each one held. */
    method Ref(t: Table)
      requires t.Valid() && Shareable(t.w, Refs())
      modifies t`w, t.w.acc.Keys`refcnt
      ensures t.Valid() && t.w == IncAll(old(t.w), Refs())
    {
      hide Inv, Table.Valid, Holds, Shareable, PutAll, IncAll;
      assert One(naptr) + (One(srv) + One(a)) == Refs();
      ShareableSplit(t.w, One(naptr), One(srv) + One(a));
      IncOne(t, naptr);
      ShareableSplit(t.w, One(srv), One(a));
      IncOne(t, srv);
      IncOne(t, a);
    }

    /** dns_srv_handle_cpy(this, src) */
    method CopyFrom(t: Table, src: SrvHandle)
      requires t.Valid() && Shareable(t.w, src.Refs())
      modifies this, t`w, t.w.acc.Keys`refcnt
      ensures t.Valid() && t.w == IncAll(old(t.w), old(src.Refs()))
      ensures naptr == old(src.naptr) && srv == old(src.srv) && a == old(src.a) && Refs() == old(src.Refs())
      ensures Position() == old(src.Position()) && srvTried == old(src.srvTried) && naptrTried == old(src.naptrTried)
    {
      hide Inv, Table.Valid, Holds, Shareable, PutAll, IncAll;
      src.Ref(t);
      CopyFields(src);
    }

    method CopyFields(src: SrvHandle)
      modifies this
      ensures naptr == old(src.naptr) && srv == old(src.srv) && a == old(src.a)
      ensures Position() == old(src.Position()) && srvTried == old(src.srvTried) && naptrTried == old(src.naptrTried)
    {
      naptr, srv, a := src.naptr, src.srv, src.a;
      srvTried, naptrTried := src.srvTried, src.naptrTried;
      port, srvNo, ipNo, proto := src.port, src.srvNo, src.ipNo, src.proto;
    }
  }

  function One(e: Entry?): (es: seq<Entry>)
  {
    if e == null then [] else [e]
  }

  method PutOne(t: Table, e: Entry?)
    requires t.Valid() && Holds(t.w, One(e))
    modifies t`w, t.w.acc.Keys`refcnt, t.w.acc.Keys`freed
    ensures t.Valid() && t.w == PutAll(old(t.w), One(e)) && t.w.acc.Keys == old(t.w.acc.Keys)
  {
    hide Inv;
    if e != null {
      t.PutRef(e);
    }
  }

  method IncOne(t: Table, e: Entry?)
    requires t.Valid() && Shareable(t.w, One(e))
    modifies t`w, t.w.acc.Keys`refcnt
    ensures t.Valid() && t.w == IncAll(old(t.w), One(e)) && t.w.acc.Keys == old(t.w.acc.Keys)
  {
    hide Inv;
    if e != null {
      HeldMeansCounted(t.w, e);
      t.TakeRef(e);
    }
  }

  lemma {:induction false} HoldsSplit(w: World, es: seq<Entry>, fs: seq<Entry>)
    requires Holds(w, es + fs)
    ensures Holds(w, es) && Holds(PutAll(w, es), fs) && PutAll(w, es + fs) == PutAll(PutAll(w, es), fs)
    decreases |es|
  {
    if es == [] {
      assert es + fs == fs;
    } else {
      assert (es + fs)[1..] == es[1..] + fs && (es + fs)[0] == es[0];
      HoldsSplit(Put(w, es[0]), es[1..], fs);
    }
  }

  lemma {:induction false} ShareableSplit(w: World, es: seq<Entry>, fs: seq<Entry>)
    requires Shareable(w, es + fs)
    ensures Shareable(w, es) && Shareable(IncAll(w, es), fs) && IncAll(w, es + fs) == IncAll(IncAll(w, es), fs)
    decreases |es|
  {
    if es == [] {
      assert es + fs == fs;
    } else {
      assert (es + fs)[1..] == es[1..] + fs && (es + fs)[0] == es[0];
      ShareableSplit(Inc(w, es[0]), es[1..], fs);
    }
  }

  // ----- copying a handle and putting the copy is neutral -----

  lemma PutInc(w: World, e: Entry)
    requires e in w.acc && w.acc[e].rc > 0
    ensures Put(Inc(w, e), e) == w
  {
    assert Put(Inc(w, e), e).acc == w.acc;
  }

  /** A reference given back early or late makes no difference while others are taken. */
  lemma PutIncSwap(w: World, x: Entry, e: Entry)
    requires x in w.acc && e in w.acc && w.acc[e].held > 0 && w.acc[e].rc > 1
    ensures Put(Inc(w, x), e) == Inc(Put(w, e), x)
  {
    assert Put(Inc(w, x), e).acc == Inc(Put(w, e), x).acc;
  }

  lemma {:induction false} PutIncAll(w: World, es: seq<Entry>, e: Entry)
    requires e in w.acc && w.acc[e].held > 1 && w.acc[e].rc > 1 && Shareable(w, es) && Shareable(Put(w, e), es)
    ensures e in IncAll(w, es).acc && IncAll(w, es).acc[e].held > 0
    ensures Put(IncAll(w, es), e) == IncAll(Put(w, e), es)
    decreases |es|
  {
    if es != [] {
      PutIncSwap(w, es[0], e);
      PutIncAll(Inc(w, es[0]), es[1..], e);
    }
  }

  lemma {:induction false} ShareableMore(w: World, es: seq<Entry>, e: Entry)
    requires e in w.acc && w.acc[e].held > 0 && Shareable(Inc(w, e), es)
    requires Inv(w)
    ensures Shareable(w, es)
    decreases |es|
  {
    if es != [] {
      var x := es[0];
      assert x in w.acc && w.acc[x].held > 0;
      HeldMeansCounted(w, x);
      IncInv(w, x);
      IncSwap(w, x, e);
      ShareableMore(Inc(w, x), es[1..], e);
    }
  }

  lemma IncSwap(w: World, x: Entry, e: Entry)
    requires x in w.acc && e in w.acc
    ensures Inc(Inc(w, e), x) == Inc(Inc(w, x), e)
  {
    assert Inc(Inc(w, e), x).acc == Inc(Inc(w, x), e).acc;
  }

  /** dns_srv_handle_cpy followed by dns_srv_handle_put of the copy leaves every count as it was. */
  lemma {:induction false} CopyThenPut(w: World, es: seq<Entry>)
    requires Inv(w) && Shareable(w, es)
    ensures Holds(IncAll(w, es), es) && PutAll(IncAll(w, es), es) == w
    decreases |es|
  {
    hide Inv;
    if es != [] {
      var e, tail := es[0], es[1..];
      HeldMeansCounted(w, e);
      IncInv(w, e);
      PutInc(w, e);
      ShareableMore(w, tail, e);
      PutIncAll(Inc(w, e), tail, e);
      CopyThenPut(w, tail);
    }
  }
}
