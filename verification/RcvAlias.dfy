/** The source address kept as a parameter of a URI (src/core/dset.c:974-1211): added after the URI,
    taken off again, and trimmed. */
module RcvAlias {
  import opened Seqs

  /** Where an alias stands in a URI: its tag, and the two '~' that follow it. */
  datatype Alias = Alias(at: nat, first: nat, second: nat)

  /** enum sip_protos, in its order. */
  datatype Proto = NoProto | Udp | Tcp | Tls | Sctp | Ws | Wss | Other
  {
    function Number(): (n: nat)
      ensures n < 8
    {
      match this
      case NoProto => 0 case Udp => 1 case Tcp => 2 case Tls => 3 case Sctp => 4 case Ws => 5 case Wss => 6
      case Other => 7
    }

    /** The name a source URI carries: none for UDP, and WSS is written as WS. */
    function Name(): (s: string)
      ensures |s| <= 4
    {
      match this
      case Tcp => "tcp"
      case Tls => "tls"
      case Sctp => "sctp"
      case Ws => "ws"
      case Wss => "ws"
      case _ => ""
    }
  }

  /** The source address of a request, as it is written. */
  datatype Source = Source(ip: string, v6: bool, port: nat, proto: Proto)

  /** rcv.proto + '0' */
  function Code(p: Proto): (c: char)
  {
    '0' + p.Number() as char
  }

  /** ';' name '=' : the only semicolon is the first character. */
  predicate IsTag(tag: string)
  {
    tag != [] && tag[0] == ';' && ';' !in tag[1..]
  }

  predicate TagAt(u: string, tag: string, k: int)
  {
    0 <= k && k + |tag| <= |u| && u[k..k + |tag|] == tag
  }

  // ----- reading -----

  /** The scan from place k down, which gives up at place 5. */
  function FindTag(u: string, tag: string, k: int): (r: Option<nat>)
    decreases k
  {
    if k <= 5 then None else if TagAt(u, tag, k) then Some(k) else FindTag(u, tag, k - 1)
  }

  lemma {:induction false} FindTagLast(u: string, tag: string, k: int, p: nat)
    ensures FindTag(u, tag, k) == Some(p)
            <==> 5 < p <= k && TagAt(u, tag, p) && forall j :: p < j <= k ==> !TagAt(u, tag, j)
    decreases k
  {
    if k > 5 && !TagAt(u, tag, k) {
      FindTagLast(u, tag, k - 1, p);
    }
  }

  /** memchr for '~' from place k on. */
  function Tilde(u: string, k: nat): (r: Option<nat>)
    requires k <= |u|
    ensures r.Some? ==> k <= r.value < |u|
    decreases |u| - k
  {
    if k == |u| then None else if u[k] == '~' then Some(k) else Tilde(u, k + 1)
  }

  lemma {:induction false} TildeFirst(u: string, k: nat, p: nat)
    requires k <= |u|
    ensures Tilde(u, k) == Some(p) <==> k <= p < |u| && u[p] == '~' && forall j :: k <= j < p ==> u[j] != '~'
    decreases |u| - k
  {
    if k < |u| && u[k] != '~' {
      TildeFirst(u, k + 1, p);
    }
  }

  /** The reading common to uri_restore_rcv_alias and uri_trim_rcv_alias. */
  function Parse(u: string, tag: string): (r: Option<Alias>)
  {
    if |u| < |tag| + 16 then None
    else
      var at := FindTag(u, tag, |u| - |tag| - 11);
      if at.None? || at.value + |tag| > |u| then None
      else
        var first := Tilde(u, at.value + |tag|);
        if first.None? || first.value + 1 >= |u| then None
        else
          var second := Tilde(u, first.value + 1);
          if second.None? || second.value + 1 >= |u| then None
          else if second.value + 2 != |u| && u[second.value + 2] != ';' then None
          else Some(Alias(at.value, first.value, second.value))
  }

  ghost predicate NoTilde(u: string, i: nat, j: nat)
    requires j <= |u|
  {
    forall k :: i <= k < j ==> u[k] != '~'
  }

  /** What the reading means: the last tag that leaves room for a value and stands after place 5
      begins tag host '~' port '~' character, and the URI or this parameter ends there. */
  ghost predicate IsAlias(u: string, tag: string, a: Alias)
  {
    && 5 < a.at <= |u| - |tag| - 11 && TagAt(u, tag, a.at)
    && (forall j :: a.at < j <= |u| - |tag| - 11 ==> !TagAt(u, tag, j))
    && a.at + |tag| <= a.first < a.second && a.second + 2 <= |u|
    && u[a.first] == '~' && NoTilde(u, a.at + |tag|, a.first)
    && u[a.second] == '~' && NoTilde(u, a.first + 1, a.second)
    && (a.second + 2 == |u| || u[a.second + 2] == ';')
  }

  lemma ParseExact(u: string, tag: string, a: Alias)
    ensures Parse(u, tag) == Some(a) <==> IsAlias(u, tag, a)
  {
    hide FindTag, Tilde, TagAt;
    var k := |u| - |tag| - 11;
    FindTagLast(u, tag, k, a.at);
    if a.at + |tag| <= |u| {
      TildeFirst(u, a.at + |tag|, a.first);
      if a.first < |u| {
        TildeFirst(u, a.first + 1, a.second);
      }
    }
  }

  function Host(u: string, tag: string, a: Alias): (s: string)
    requires a.at + |tag| <= a.first <= |u|
  {
    u[a.at + |tag|..a.first]
  }

  function Port(u: string, a: Alias): (s: string)
    requires a.first < a.second <= |u|
  {
    u[a.first + 1..a.second]
  }

  /** ";transport=" and the name, unless it is UDP or unknown. */
  function Transport(c: char): (s: string)
    ensures |s| <= 15
  {
    match c
    case '2' => ";transport=tcp"
    case '3' => ";transport=tls"
    case '4' => ";transport=sctp"
    case '5' => ";transport=ws"
    case '6' => ";transport=ws"
    case _ => ""
  }

  function SourceUri(host: string, port: string, c: char): (s: string)
    ensures |s| <= 4 + |host| + 1 + |port| + 15
  {
    "sip:" + host + ":" + port + Transport(c)
  }

  /** Parse gives places inside the URI. */
  lemma ParseBounds(u: string, tag: string)
    requires Parse(u, tag).Some?
    ensures var a := Parse(u, tag).value; IsAlias(u, tag, a)
  {
    ParseExact(u, tag, Parse(u, tag).value);
  }

  function Trimmed(u: string, a: Alias): (s: string)
    requires a.at <= a.second + 2 <= |u|
  {
    u[..a.at] + u[a.second + 2..]
  }

  /** Nothing is lost: the URI is what is left with the tag and the value put back in its place. */
  lemma Conservation(u: string, tag: string)
    requires Parse(u, tag).Some?
    ensures var a := Parse(u, tag).value;
            && IsAlias(u, tag, a)
            && var n := Trimmed(u, a);
               u == n[..a.at] + tag + Host(u, tag, a) + "~" + Port(u, a) + "~" + [u[a.second + 1]] + n[a.at..]
  {
    hide Parse, NoTilde;
    ParseBounds(u, tag);
    var a := Parse(u, tag).value;
    var n := Trimmed(u, a);
    assert n[..a.at] == u[..a.at] && n[a.at..] == u[a.second + 2..];
    assert u[..a.at] + tag == u[..a.at + |tag|];
    assert u[..a.at + |tag|] + Host(u, tag, a) == u[..a.first];
    assert u[..a.first] + "~" == u[..a.first + 1];
    assert u[..a.first + 1] + Port(u, a) == u[..a.second];
    assert u[..a.second] + "~" == u[..a.second + 1];
    assert u[..a.second + 1] + [u[a.second + 1]] == u[..a.second + 2];
    assert u[..a.second + 2] + u[a.second + 2..] == u;
  }

  // ----- writing -----

  function Digit(d: nat): (c: char)
    requires d < 10
    ensures '0' <= c <= '9'
  {
    '0' + d as char
  }

  /** int2str */
  function Decimal(n: nat): (s: string)
    ensures s != []
    ensures forall c :: c in s ==> '0' <= c <= '9'
  {
    if n < 10 then [Digit(n)] else Decimal(n / 10) + [Digit(n % 10)]
  }

  function HostText(src: Source): (s: string)
  {
    if src.v6 then "[" + src.ip + "]" else src.ip
  }

  function Value(src: Source): (s: string)
  {
    HostText(src) + "~" + Decimal(src.port) + "~" + [Code(src.proto)]
  }

  function WithAlias(u: string, tag: string, src: Source): (s: string)
  {
    u + tag + Value(src)
  }

  /** An address is written without '~' and ';'. */
  predicate IsAddress(ip: string)
  {
    '~' !in ip && ';' !in ip
  }

  /** Where the parts of a value stand. */
  lemma JoinAt(h: string, p: string, c: char)
    ensures var v, n, m := h + "~" + p + "~" + [c], |h|, |p|;
            && |v| == n + m + 3
            && v[..n] == h && v[n] == '~' && v[n + 1..n + 1 + m] == p
            && v[n + 1 + m] == '~' && v[n + m + 2] == c
  {
    var v, n := h + "~" + p + "~" + [c], |h|;
    assert v == h + ("~" + (p + ("~" + [c])));
    assert v[n..] == "~" + (p + ("~" + [c]));
    assert v[n + 1..] == p + ("~" + [c]);
  }

  lemma PartsHave(v: string, n: nat, m: nat, h: string, p: string)
    requires |h| == n && |p| == m && n + m + 3 <= |v| && v[..n] == h && v[n + 1..n + 1 + m] == p
    requires v[n] == '~' && v[n + 1 + m] == '~' && IsAddress(h) && IsAddress(p)
    ensures forall k :: 0 <= k < n + m + 2 ==> v[k] != ';'
    ensures NoTilde(v, 0, n) && NoTilde(v, n + 1, n + 1 + m)
  {
    forall k | 0 <= k < n ensures v[k] != ';' && v[k] != '~' {
      assert v[k] == h[k] && h[k] in h;
    }
    forall k | n + 1 <= k < n + 1 + m ensures v[k] != ';' && v[k] != '~' {
      assert v[k] == p[k - n - 1] && p[k - n - 1] in p;
    }
  }

  lemma ValueAt(src: Source)
    requires IsAddress(src.ip)
    ensures var v, n, m := Value(src), |HostText(src)|, |Decimal(src.port)|;
            && |v| == n + m + 3
            && v[..n] == HostText(src) && v[n] == '~' && v[n + 1..n + 1 + m] == Decimal(src.port)
            && v[n + 1 + m] == '~' && v[n + m + 2] == Code(src.proto)
            && (forall k :: 0 <= k < n + m + 2 ==> v[k] != ';')
            && NoTilde(v, 0, n) && NoTilde(v, n + 1, n + 1 + m)
  {
    hide Decimal, NoTilde;
    var h, p := HostText(src), Decimal(src.port);
    JoinAt(h, p, Code(src.proto));
    PartsHave(Value(src), |h|, |p|, h, p);
  }

  /** Semicolons of a URI with an alias: those of the URI, and the one of the tag. */
  lemma SoleSemicolon(u: string, tag: string, src: Source, k: nat)
    requires IsTag(tag) && IsAddress(src.ip)
    requires |u| <= k < |u| + |tag| + |Value(src)| - 1
    ensures WithAlias(u, tag, src)[k] == ';' <==> k == |u|
  {
    hide Value;
    ValueAt(src);
    if |u| < k < |u| + |tag| {
      assert tag[k - |u|] == tag[1..][k - |u| - 1];
    }
  }

  /** Where the alias just added stands. */
  function Place(u: string, tag: string, src: Source): (a: Alias)
  {
    var at := |u| + |tag|;
    Alias(|u|, at + |HostText(src)|, at + |HostText(src)| + 1 + |Decimal(src.port)|)
  }

  lemma Shifted(x: string, v: string, i: nat, j: nat)
    requires i <= j <= |v|
    ensures (x + v)[|x| + i..|x| + j] == v[i..j]
    ensures NoTilde(v, i, j) ==> NoTilde(x + v, |x| + i, |x| + j)
  {
    if NoTilde(v, i, j) {
      forall k | |x| + i <= k < |x| + j ensures (x + v)[k] != '~' {
        assert (x + v)[k] == v[k - |x|];
      }
    }
  }

  lemma PlaceParts(u: string, tag: string, src: Source)
    requires IsAddress(src.ip)
    ensures var w, a := WithAlias(u, tag, src), Place(u, tag, src);
            && a.second + 2 == |w|
            && w[a.first] == '~' && w[a.second] == '~' && w[a.second + 1] == Code(src.proto)
            && NoTilde(w, a.at + |tag|, a.first) && NoTilde(w, a.first + 1, a.second)
            && Host(w, tag, a) == HostText(src) && Port(w, a) == Decimal(src.port)
  {
    hide Value, Decimal, HostText, NoTilde;
    ValueAt(src);
    var x, v, n, m := u + tag, Value(src), |HostText(src)|, |Decimal(src.port)|;
    Shifted(x, v, 0, n);
    Shifted(x, v, n + 1, n + 1 + m);
    assert v[0..n] == v[..n];
  }

  lemma PlaceEnds(u: string, tag: string, src: Source)
    ensures var w, a := WithAlias(u, tag, src), Place(u, tag, src);
            TagAt(w, tag, a.at) && a.second + 2 == |w| && Trimmed(w, a) == u
  {
    hide Decimal, HostText;
    var w := WithAlias(u, tag, src);
    assert w[..|u|] == u && w[|w|..] == [] && w[|u|..|u| + |tag|] == tag;
  }

  /** The alias just added is the one that is found, if and only if the URI has 6 characters at
      least and the value 11. */
  lemma AddedIsFound(u: string, tag: string, src: Source)
    requires IsTag(tag) && IsAddress(src.ip)
    ensures Parse(WithAlias(u, tag, src), tag) == Some(Place(u, tag, src)) <==> |u| >= 6 && |Value(src)| >= 11
  {
    hide Value, Decimal, HostText;
    var w, a := WithAlias(u, tag, src), Place(u, tag, src);
    ParseExact(w, tag, a);
    PlaceParts(u, tag, src);
    PlaceEnds(u, tag, src);
    forall j | a.at < j <= |w| - |tag| - 11 ensures !TagAt(w, tag, j) {
      SoleSemicolon(u, tag, src, j);
    }
  }

  /** Otherwise nothing is found, or a tag of the URI itself is: one that stands after place 5. */
  lemma AddedIsLost(u: string, tag: string, src: Source)
    requires IsTag(tag) && IsAddress(src.ip) && (|u| < 6 || |Value(src)| < 11)
    ensures var r := Parse(WithAlias(u, tag, src), tag); r.Some? ==> 5 < r.value.at && TagAt(u, tag, r.value.at)
    ensures (forall j :: 5 < j < |u| ==> u[j] != ';') ==> Parse(WithAlias(u, tag, src), tag) == None
  {
    hide Value, Decimal, HostText;
    var w := WithAlias(u, tag, src);
    if Parse(w, tag).Some? {
      ParseBounds(w, tag);
      var at := Parse(w, tag).value.at;
      assert w[at] == tag[0];
      if |u| <= at {
        SoleSemicolon(u, tag, src, at);
      } else {
        TagInside(u, tag, Value(src), at);
      }
    }
  }

  lemma TagChar(w: string, tag: string, at: nat, k: nat)
    requires IsTag(tag) && TagAt(w, tag, at) && k < |tag|
    ensures w[at + k] == tag[k] && (w[at + k] == ';' <==> k == 0)
  {
    assert w[at..at + |tag|][k] == w[at + k];
    assert k > 0 ==> tag[k] == tag[1..][k - 1];
  }

  /** A tag that starts in the URI ends in it: the next semicolon would be the one of the alias. */
  lemma TagInside(u: string, tag: string, v: string, at: nat)
    requires IsTag(tag) && at < |u| && TagAt(u + tag + v, tag, at)
    ensures TagAt(u, tag, at) && u[at] == ';'
  {
    var w := u + tag + v;
    TagChar(w, tag, at, 0);
    if at + |tag| > |u| {
      TagChar(w, tag, at, |u| - at);
    } else {
      assert w[at..at + |tag|] == u[at..at + |tag|];
    }
  }

  /** The shortest example the code gives for itself cannot be read back: its URI has 5 characters. */
  lemma ShortestExample()
    ensures var src := Source("1.1.1.1", false, 0, NoProto);
            && WithAlias("sip:x", ";alias=", src) == "sip:x;alias=1.1.1.1~0~0"
            && Parse("sip:x;alias=1.1.1.1~0~0", ";alias=") == None
  {
    assert Decimal(0) == "0";
  }

  /** A number of an IPv4 address, as ip4tosbuf writes it. */
  function Octet(n: nat): (s: string)
    requires n < 256
    ensures s != [] && IsAddress(s)
  {
    var a, b, c := n / 100, n % 100 / 10, n % 10;
    if a != 0 then [Digit(a), Digit(b), Digit(c)] else if b != 0 then [Digit(b), Digit(c)] else [Digit(c)]
  }

  function Ip4Text(a: nat, b: nat, c: nat, d: nat): (s: string)
    requires a < 256 && b < 256 && c < 256 && d < 256
    ensures |s| >= 7 && IsAddress(s)
  {
    Octet(a) + "." + Octet(b) + "." + Octet(c) + "." + Octet(d)
  }

  // ----- the three operations -----

  datatype Restored = Restored(ret: int, nuri: string, suri: string)

  /** uri_restore_rcv_alias with room for nsize and ssize characters. */
  function Restore(u: string, tag: string, nsize: int, ssize: int): (r: Restored)
  {
    if Parse(u, tag).None? then Restored(-2, "", "")
    else
      ParseBounds(u, tag);
      var a := Parse(u, tag).value;
      var host, port := Host(u, tag, a), Port(u, a);
      if ssize <= 4 + |host| + 1 + |port| + 15 then Restored(-1, "", "")
      else if nsize <= |Trimmed(u, a)| then Restored(-1, "", "")
      else Restored(0, Trimmed(u, a), SourceUri(host, port, u[a.second + 1]))
  }

  /** uri_trim_rcv_alias: 1 for a URI trimmed, 0 for none to trim. */
  function Trim(u: string, tag: string, nsize: int): (r: (int, string))
  {
    if Parse(u, tag).None? then (0, "")
    else
      ParseBounds(u, tag);
      var n := Trimmed(u, Parse(u, tag).value);
      if nsize <= |n| then (-1, "") else (1, n)
  }

  /** The source as a URI: address and port, and a transport unless it is UDP or unknown. */
  function SourceText(src: Source): (s: string)
  {
    "sip:" + HostText(src) + ":" + Decimal(src.port)
    + if src.proto.Name() == "" then "" else ";transport=" + src.proto.Name()
  }

  lemma SourceIsText(src: Source)
    ensures SourceUri(HostText(src), Decimal(src.port), Code(src.proto)) == SourceText(src)
  {
    hide Decimal;
    assert ";transport=" + "tcp" == ";transport=tcp" && ";transport=" + "tls" == ";transport=tls";
    assert ";transport=" + "sctp" == ";transport=sctp" && ";transport=" + "ws" == ";transport=ws";
  }

  /** Restoring gives back the URI and the source, for every URI and source that fit. */
  lemma RoundTrip(u: string, tag: string, src: Source, nsize: int, ssize: int)
    requires IsTag(tag) && IsAddress(src.ip) && |u| >= 6 && |Value(src)| >= 11
    requires nsize > |u| && ssize > 20 + |HostText(src)| + |Decimal(src.port)|
    ensures Restore(WithAlias(u, tag, src), tag, nsize, ssize) == Restored(0, u, SourceText(src))
    ensures Trim(WithAlias(u, tag, src), tag, nsize) == (1, u)
  {
    hide Value, Decimal, HostText, Parse, SourceText, SourceUri;
    AddedIsFound(u, tag, src);
    PlaceParts(u, tag, src);
    PlaceEnds(u, tag, src);
    SourceIsText(src);
  }

  /** An IPv4 source can always be read back from a URI of 6 characters or more. */
  lemma Ip4RoundTrip(u: string, tag: string, a: nat, b: nat, c: nat, d: nat, port: nat, proto: Proto,
                     nsize: int, ssize: int)
    requires a < 256 && b < 256 && c < 256 && d < 256 && IsTag(tag) && |u| >= 6
    requires nsize > |u| && ssize > 20 + |Ip4Text(a, b, c, d)| + |Decimal(port)|
    ensures var src := Source(Ip4Text(a, b, c, d), false, port, proto);
            Restore(WithAlias(u, tag, src), tag, nsize, ssize) == Restored(0, u, SourceText(src))
  {
    RoundTrip(u, tag, Source(Ip4Text(a, b, c, d), false, port, proto), nsize, ssize);
  }

  function WithAll(u: string, tag: string, srcs: seq<Source>): (s: string)
  {
    if srcs == [] then u else WithAlias(WithAll(u, tag, srcs[..|srcs| - 1]), tag, srcs[|srcs| - 1])
  }

  /** What is left after n restorations. */
  function Peel(u: string, tag: string, n: nat): (s: string)
    decreases n
  {
    if n == 0 then u else Peel(Trim(u, tag, |u| + 1).1, tag, n - 1)
  }

  lemma {:induction false} WithAllLonger(u: string, tag: string, srcs: seq<Source>)
    ensures |WithAll(u, tag, srcs)| >= |u|
  {
    if srcs != [] {
      WithAllLonger(u, tag, srcs[..|srcs| - 1]);
    }
  }

  ghost predicate AllReadable(srcs: seq<Source>)
  {
    forall i :: 0 <= i < |srcs| ==> IsAddress(srcs[i].ip) && |Value(srcs[i])| >= 11
  }

  /** Aliases added one after the other come off in reverse order: the last n proxies' aliases gone,
      the URI is as the proxies before them left it, and the next source is theirs. */
  lemma {:induction false} PeelReverse(u: string, tag: string, srcs: seq<Source>, n: nat)
    requires IsTag(tag) && |u| >= 6 && AllReadable(srcs) && n <= |srcs|
    ensures Peel(WithAll(u, tag, srcs), tag, n) == WithAll(u, tag, srcs[..|srcs| - n])
    ensures n < |srcs| ==>
              var w, src := Peel(WithAll(u, tag, srcs), tag, n), srcs[|srcs| - n - 1];
              Restore(w, tag, |w| + 1, |w| + 21).suri == SourceText(src)
    decreases n
  {
    hide Value, Restore, Trim, IsTag, IsAddress, WithAlias, SourceText;
    if srcs != [] {
      var front, src := srcs[..|srcs| - 1], srcs[|srcs| - 1];
      var v := WithAll(u, tag, front);
      WithAllLonger(u, tag, front);
      LastRound(v, tag, src);
      if n == 0 {
        assert srcs[..|srcs|] == srcs;
      } else {
        assert AllReadable(front);
        PeelReverse(u, tag, front, n - 1);
        assert front[..|front| - (n - 1)] == srcs[..|srcs| - n];
        assert |srcs| - n - 1 == |front| - (n - 1) - 1;
      }
    }
  }

  lemma LastRound(v: string, tag: string, src: Source)
    requires IsTag(tag) && IsAddress(src.ip) && |v| >= 6 && |Value(src)| >= 11
    ensures var w := WithAlias(v, tag, src);
            Trim(w, tag, |w| + 1) == (1, v) && Restore(w, tag, |w| + 1, |w| + 21).suri == SourceText(src)
  {
    hide Restore, Trim;
    ValueSize(src);
    var w := WithAlias(v, tag, src);
    RoundTrip(v, tag, src, |w| + 1, |w| + 21);
  }

  lemma ValueSize(src: Source)
    ensures |Value(src)| == |HostText(src)| + |Decimal(src.port)| + 3
  {
  }

  /** Trimming leaves what restoring leaves, and finds an alias exactly when restoring does. */
  lemma TrimIsRestore(u: string, tag: string, nsize: int, ssize: int)
    ensures Restore(u, tag, nsize, ssize).ret == -2 <==> Trim(u, tag, nsize).0 == 0
    ensures Restore(u, tag, nsize, ssize).ret == 0 ==>
              Trim(u, tag, nsize) == (1, Restore(u, tag, nsize, ssize).nuri)
    ensures ssize > |u| + 20 ==> (Restore(u, tag, nsize, ssize).ret == 0 <==> Trim(u, tag, nsize).0 == 1)
  {
    hide Parse;
    if Parse(u, tag).Some? {
      ParseBounds(u, tag);
    }
  }

  // ----- the operations on buffers -----

  /** memcpy of s behind the len characters already written. */
  method Append(buf: array<char>, len: nat, s: string) returns (n: nat)
    requires len + |s| <= buf.Length
    modifies buf
    ensures n == len + |s| && buf[..n] == old(buf[..len]) + s
  {
    ghost var was := buf[..len];
    var i := 0;
    while i < |s|
      invariant i <= |s| && buf[..len + i] == was + s[..i]
    {
      buf[len + i] := s[i];
      assert buf[..len + i + 1] == buf[..len + i] + [s[i]];
      i := i + 1;
    }
    assert s[..|s|] == s;
    n := len + |s|;
  }

  method ScanTag(u: string, tag: string) returns (at: Option<nat>)
    requires |u| >= |tag| + 16
    ensures at == FindTag(u, tag, |u| - |tag| - 11)
  {
    var p := |u| - |tag| - 11;
    at := None;
    while p > 5
      invariant 5 <= p <= |u| - |tag| - 11
      invariant FindTag(u, tag, p) == FindTag(u, tag, |u| - |tag| - 11)
    {
      if u[p..p + |tag|] == tag {
        return Some(p);
      }
      p := p - 1;
    }
  }

  method ScanTilde(u: string, from: nat) returns (at: Option<nat>)
    requires from <= |u|
    ensures at == Tilde(u, from)
  {
    var p := from;
    while p < |u|
      invariant from <= p <= |u| && Tilde(u, p) == Tilde(u, from)
    {
      if u[p] == '~' {
        return Some(p);
      }
      p := p + 1;
    }
    at := None;
  }

  method ReadAlias(u: string, tag: string) returns (r: Option<Alias>)
    ensures r == Parse(u, tag)
  {
    hide FindTag, Tilde;
    r := None;
    if |u| < |tag| + 16 {
      return;
    }
    var at := ScanTag(u, tag);
    if at.None? {
      return;
    }
    FindTagLast(u, tag, |u| - |tag| - 11, at.value);
    var first := ScanTilde(u, at.value + |tag|);
    if first.None? || first.value + 1 >= |u| {
      return;
    }
    var second := ScanTilde(u, first.value + 1);
    if second.None? {
      return;
    }
    var p := second.value + 1;
    if p >= |u| {
      return;
    }
    p := p + 1;
    if p != |u| && u[p] != ';' {
      return;
    }
    r := Some(Alias(at.value, first.value, second.value));
  }

  /** Three pieces one behind the other. */
  method Append3(buf: array<char>, len: nat, x: string, y: string, z: string) returns (n: nat)
    requires len + |x| + |y| + |z| <= buf.Length
    modifies buf
    ensures n == len + |x| + |y| + |z| && buf[..n] == old(buf[..len]) + (x + y + z)
  {
    n := Append(buf, len, x);
    n := Append(buf, n, y);
    n := Append(buf, n, z);
    assert old(buf[..len]) + x + y + z == old(buf[..len]) + (x + y + z);
  }

  /** uri_add_rcv_alias: the length asked for covers what is written, its final NUL included. */
  method AddRcvAlias(u: string, tag: string, src: Source, buf: array<char>) returns (ret: int, len: nat)
    modifies buf
    ensures ret == if |u| + |tag| + |src.ip| + |Decimal(src.port)| + 6 >= buf.Length then -1 else 0
    ensures ret == 0 ==> len < buf.Length && buf[..len] == WithAlias(u, tag, src) && buf[len] == '\0'
    ensures ret != 0 ==> buf[..] == old(buf[..])
  {
    hide Decimal;
    var port := Decimal(src.port);
    if |u| + |tag| + |src.ip| + |port| + 6 >= buf.Length {
      return -1, 0;
    }
    var host := HostText(src);
    len := Append3(buf, 0, u, tag, host);
    len := Append3(buf, len, "~", port, "~");
    len := Append(buf, len, [Code(src.proto)]);
    JoinAlias(u, tag, src);
    ghost var text := buf[..len];
    buf[len] := '\0';
    assert buf[..len] == text;
    ret := 0;
  }

  lemma JoinAlias(u: string, tag: string, src: Source)
    ensures [] + (u + tag + HostText(src)) + ("~" + Decimal(src.port) + "~") + [Code(src.proto)]
            == WithAlias(u, tag, src)
  {
    hide Decimal, HostText;
    var h, p := HostText(src), Decimal(src.port);
    assert Value(src) == h + (("~" + p + "~") + [Code(src.proto)]);
  }

  method WriteTrimmed(buf: array<char>, u: string, a: Alias) returns (n: nat)
    requires a.at <= a.second + 2 <= |u| && |Trimmed(u, a)| < buf.Length
    modifies buf
    ensures n <= buf.Length && buf[..n] == Trimmed(u, a)
  {
    n := Append(buf, 0, u[..a.at]);
    n := Append(buf, n, u[a.second + 2..]);
  }

  method WriteSource(buf: array<char>, host: string, port: string, c: char) returns (n: nat)
    requires 4 + |host| + 1 + |port| + 15 < buf.Length
    modifies buf
    ensures n <= buf.Length && buf[..n] == SourceUri(host, port, c)
  {
    hide Transport;
    n := Append3(buf, 0, "sip:", host, ":");
    n := Append(buf, n, port);
    n := Append(buf, n, Transport(c));
  }

  /** uri_restore_rcv_alias: every write stays inside the two buffers. */
  method RestoreRcvAlias(u: string, tag: string, nbuf: array<char>, sbuf: array<char>)
    returns (ret: int, nlen: nat, slen: nat)
    requires nbuf != sbuf
    modifies nbuf, sbuf
    ensures var r := Restore(u, tag, nbuf.Length, sbuf.Length);
            && ret == r.ret && nlen <= nbuf.Length && slen <= sbuf.Length
            && (ret == 0 ==> nbuf[..nlen] == r.nuri && sbuf[..slen] == r.suri)
    ensures ret != 0 ==> nbuf[..] == old(nbuf[..]) && sbuf[..] == old(sbuf[..])
  {
    hide Parse, SourceUri;
    nlen, slen := 0, 0;
    var a := ReadAlias(u, tag);
    if a.None? {
      return -2, 0, 0;
    }
    ParseBounds(u, tag);
    var al := a.value;
    var host, port := u[al.at + |tag|..al.first], u[al.first + 1..al.second];
    if sbuf.Length <= 4 + |host| + 1 + |port| + 11 + 4 {
      return -1, 0, 0;
    }
    if nbuf.Length <= |u| - (al.second + 2 - al.at) {
      return -1, 0, 0;
    }
    nlen := WriteTrimmed(nbuf, u, al);
    slen := WriteSource(sbuf, host, port, u[al.second + 1]);
    ret := 0;
  }

  method TrimRcvAlias(u: string, tag: string, nbuf: array<char>) returns (ret: int, nlen: nat)
    modifies nbuf
    ensures var r := Trim(u, tag, nbuf.Length);
            ret == r.0 && nlen <= nbuf.Length && (ret == 1 ==> nbuf[..nlen] == r.1)
    ensures ret != 1 ==> nbuf[..] == old(nbuf[..])
  {
    hide Parse;
    var a := ReadAlias(u, tag);
    if a.None? {
      return 0, 0;
    }
    ParseBounds(u, tag);
    var al := a.value;
    if nbuf.Length <= |u| - (al.second + 2 - al.at) {
      return -1, 0;
    }
    nlen := WriteTrimmed(nbuf, u, al);
    ret := 1;
  }
}
