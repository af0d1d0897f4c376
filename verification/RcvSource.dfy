/** What a restored source says (src/core/dset.c:1106-1122): a reader of its text, and the texts themselves. */
module RcvSource {
  import opened Seqs
  import opened Numerals
  import opened RcvAlias

  // ----- numerals -----

  function DigitsOf(s: string): (d: seq<int>)
    ensures |d| == |s| && forall i :: 0 <= i < |s| ==> d[i] == s[i] as int - '0' as int
  {
    seq(|s|, i requires 0 <= i < |s| => s[i] as int - '0' as int)
  }

  /** A port is written in decimal digits, the most significant first, without a leading zero. */
  lemma {:induction false} DecimalExactly(n: nat)
    ensures Digits(10, DigitsOf(Decimal(n))) && Val(10, DigitsOf(Decimal(n))) == n
    ensures Decimal(n)[0] == '0' <==> n == 0
    ensures n == 0 ==> |Decimal(n)| == 1
  {
    if n < 10 {
      assert DigitsOf(Decimal(n)) == [] + [n];
      ValSnoc(10, [], n);
    } else {
      DecimalExactly(n / 10);
      assert DigitsOf(Decimal(n)) == DigitsOf(Decimal(n / 10)) + [n % 10];
      ValSnoc(10, DigitsOf(Decimal(n / 10)), n % 10);
    }
  }

  /** The numbers of an address are written likewise. */
  lemma OctetExactly(n: nat)
    requires n < 256
    ensures Octet(n) == Decimal(n)
  {
    if n >= 100 {
      assert n / 10 / 10 == n / 100 && n / 10 % 10 == n % 100 / 10;
      assert Decimal(n / 10) == Decimal(n / 100) + [Digit(n / 10 % 10)];
    } else if n >= 10 {
      assert Decimal(n / 10) == [Digit(n / 10)];
    }
  }

  // ----- reading a source back -----

  /** Host, port and transport name of a source URI. */
  datatype Parts = Parts(host: string, port: int, transport: string)

  function IndexFrom(s: string, c: char, i: nat): (k: nat)
    requires i <= |s|
    ensures i <= k <= |s| && (k < |s| ==> s[k] == c)
    decreases |s| - i
  {
    if i == |s| || s[i] == c then i else IndexFrom(s, c, i + 1)
  }

  lemma {:induction false} IndexIs(s: string, c: char, i: nat, k: nat)
    requires i <= k <= |s| && (k < |s| ==> s[k] == c) && forall j :: i <= j < k ==> s[j] != c
    ensures IndexFrom(s, c, i) == k
    decreases |s| - i
  {
    if i < k {
      IndexIs(s, c, i + 1, k);
    }
  }

  /** The host ends at the first ':', or in brackets behind the first ']'. */
  function HostEnd(s: string): (k: nat)
    ensures k <= |s|
  {
    if s != [] && s[0] == '[' then
      var k := IndexFrom(s, ']', 0);
      if k < |s| then k + 1 else k
    else IndexFrom(s, ':', 0)
  }

  function ReadPort(host: string, s: string): (r: Parts)
  {
    var k := IndexFrom(s, ';', 0);
    Parts(host, Val(10, DigitsOf(s[..k])), if k + 11 <= |s| && s[k..k + 11] == ";transport=" then s[k + 11..] else "")
  }

  function ReadSource(t: string): (r: Option<Parts>)
  {
    if |t| < 4 || t[..4] != "sip:" then None
    else
      var k := HostEnd(t[4..]);
      if k == |t| - 4 then None else Some(ReadPort(t[4..][..k], t[4..][k + 1..]))
  }

  /** IPv4 text has no ':' and no bracket in front, IPv6 text no ']'. */
  predicate IsHost(src: Source)
  {
    if src.v6 then ']' !in src.ip else ':' !in src.ip && (src.ip == "" || src.ip[0] != '[')
  }

  lemma HostEnds(src: Source, x: string)
    requires IsHost(src)
    ensures HostEnd(HostText(src) + ":" + x) == |HostText(src)|
  {
    var h := HostText(src);
    var s := h + ":" + x;
    if src.v6 {
      assert forall j :: 1 <= j < |h| - 1 ==> s[j] == src.ip[j - 1];
      IndexIs(s, ']', 0, |h| - 1);
    } else {
      assert forall j :: 0 <= j < |h| ==> s[j] == src.ip[j];
      IndexIs(s, ':', 0, |h|);
    }
  }

  lemma PortReads(host: string, n: nat, name: string)
    ensures ReadPort(host, Decimal(n) + (if name == "" then "" else ";transport=" + name)) == Parts(host, n, name)
  {
    hide Decimal, Val, DigitsOf;
    var d := Decimal(n);
    var x := if name == "" then "" else ";transport=" + name;
    var s := d + x;
    DecimalExactly(n);
    forall j | 0 <= j < |d| ensures s[j] != ';' {
      assert s[j] == d[j] && d[j] in d;
    }
    assert name != "" ==> x[0] == ';';
    IndexIs(s, ';', 0, |d|);
    assert s[..|d|] == d;
    if name != "" {
      assert s[|d|..|d| + 11] == ";transport=" && s[|d| + 11..] == name;
    }
  }

  /** Host, port and transport can be read off the text of every source. */
  lemma ReadsBack(src: Source)
    requires IsHost(src)
    ensures ReadSource(SourceText(src)) == Some(Parts(HostText(src), src.port, src.proto.Name()))
  {
    hide Decimal, HostText, HostEnd, ReadPort;
    var h, name := HostText(src), src.proto.Name();
    var x := Decimal(src.port) + (if name == "" then "" else ";transport=" + name);
    var t := SourceText(src);
    assert t == "sip:" + (h + ":" + x);
    assert t[..4] == "sip:" && t[4..] == h + ":" + x;
    HostEnds(src, x);
    assert t[4..][..|h|] == h && t[4..][|h| + 1..] == x;
    PortReads(h, src.port, name);
  }

  /** Hence what is restored tells who was added: address, port, and the protocol but for WSS, which reads as
      WS, and the unknown ones, which read as UDP. */
  lemma RestoredTells(u: string, tag: string, src: Source, nsize: int, ssize: int)
    requires IsTag(tag) && IsAddress(src.ip) && IsHost(src) && |u| >= 6 && |Value(src)| >= 11
    requires nsize > |u| && ssize > 20 + |HostText(src)| + |Decimal(src.port)|
    ensures var r := Restore(WithAlias(u, tag, src), tag, nsize, ssize);
            && r.ret == 0 && r.nuri == u
            && ReadSource(r.suri)
               == Some(Parts(if src.v6 then "[" + src.ip + "]" else src.ip, src.port,
                             match src.proto
                             case Tcp => "tcp" case Tls => "tls" case Sctp => "sctp" case Ws => "ws" case Wss => "ws"
                             case _ => ""))
  {
    hide ReadSource, SourceText, Restore, WithAlias, Value, Decimal, IsTag, IsAddress, IsHost;
    RoundTrip(u, tag, src, nsize, ssize);
    ReadsBack(src);
  }

  // ----- the texts -----

  lemma PortText()
    ensures Decimal(5060) == "5060"
  {
    assert Decimal(5) == "5" && Decimal(50) == "50" && Decimal(506) == "506";
  }

  lemma Ip4Example()
    ensures Ip4Text(192, 168, 1, 10) == "192.168.1.10"
  {
    assert Octet(192) == "192" && Octet(168) == "168" && Octet(1) == "1" && Octet(10) == "10";
    assert "192" + "." + "168" == "192.168" && "192.168" + "." + "1" == "192.168.1";
    assert "192.168.1" + "." + "10" == "192.168.1.10";
  }

  /** What is added for a protocol. */
  lemma AliasTexts(u: string, p: Proto)
    ensures WithAlias(u, ";alias=", Source("192.168.1.10", false, 5060, p))
            == u + ";alias=192.168.1.10~5060~"
               + match p
                 case NoProto => "0" case Udp => "1" case Tcp => "2" case Tls => "3" case Sctp => "4" case Ws => "5"
                 case Wss => "6" case Other => "7"
  {
    hide Decimal;
    PortText();
    var c := [Code(p)];
    assert "192.168.1.10" + "~" + "5060" + "~" == "192.168.1.10~5060~";
    assert ";alias=" + "192.168.1.10~5060~" == ";alias=192.168.1.10~5060~";
    assert u + ";alias=" + ("192.168.1.10~5060~" + c) == u + (";alias=" + "192.168.1.10~5060~") + c;
  }

  /** What is restored for it. */
  lemma SourceTexts(p: Proto)
    ensures SourceText(Source("192.168.1.10", false, 5060, p))
            == "sip:192.168.1.10:5060"
               + match p
                 case Tcp => ";transport=tcp"
                 case Tls => ";transport=tls"
                 case Sctp => ";transport=sctp"
                 case Ws => ";transport=ws"
                 case Wss => ";transport=ws"
                 case _ => ""
  {
    hide Decimal;
    PortText();
    assert "sip:" + "192.168.1.10" + ":" + "5060" == "sip:192.168.1.10:5060";
    assert ";transport=" + "tcp" == ";transport=tcp" && ";transport=" + "tls" == ";transport=tls";
    assert ";transport=" + "sctp" == ";transport=sctp" && ";transport=" + "ws" == ";transport=ws";
  }
}
