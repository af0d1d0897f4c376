/** Base64 (sections 4 and 5 of RFC 4648) as src/core/basex.h:562-719 and src/core/basex.c:176-193, 503-632
    compute it. Bytes are numbers; shifts and masks are quotients and remainders. */
module Base64 {
  import opened Numerals

  const PAD: byte := 61            // '='
  const INVALID: byte := 255
  const INT_MAX := 0x7fff_ffff

  type sextet = x: int | 0 <= x < 64

  datatype Alphabet = Std | Url

  // ----- alphabets -----

  /** base64_enc_char, and the table for URLs. */
  function Enc(al: Alphabet, v: sextet): (c: byte)
  {
    if v == 63 then (if al == Std then 47 else 95)
    else if v == 62 then (if al == Std then 43 else 45)
    else if v <= 25 then v + 65
    else if v <= 51 then v - 26 + 97
    else v - 52 + 48
  }

  /** base64_dec_char */
  function DecStd(c: byte): (v: byte)
  {
    if c == 47 then 63
    else if c == 43 then 62
    else if 58 <= c <= 64 || 91 <= c <= 96 then INVALID
    else if c < 48 then INVALID
    else if c <= 57 then c - 48 + 52
    else if c <= 90 then c - 65
    else if c <= 122 then c - 97 + 26
    else INVALID
  }

  /** The decoding table for URLs: -1 for what is not a digit. */
  function DecUrl(c: byte): (v: int)
  {
    if c == 45 then 62
    else if 48 <= c <= 57 then c - 48 + 52
    else if 65 <= c <= 90 then c - 65
    else if c == 95 then 63
    else if 97 <= c <= 122 then c - 97 + 26
    else -1
  }

  /** Each table undoes its alphabet, and has no other digits. */
  lemma Alphabets(v: sextet, c: byte)
    ensures DecStd(Enc(Std, v)) == v && DecUrl(Enc(Url, v)) == v
    ensures DecStd(c) != INVALID ==> DecStd(c) < 64 && Enc(Std, DecStd(c)) == c
    ensures DecUrl(c) >= 0 ==> DecUrl(c) < 64 && Enc(Url, DecUrl(c)) == c
    ensures Enc(Std, v) != PAD && Enc(Url, v) != PAD && DecStd(PAD) == INVALID && DecUrl(PAD) == -1
  {
  }

  /** Where a digit stands among the kinds of digits: capitals, small letters, numerals, and the two others. */
  function Kind(al: Alphabet, c: byte): (k: int)
  {
    if 65 <= c <= 90 then 0 else if 97 <= c <= 122 then 1 else if 48 <= c <= 57 then 2
    else if c == (if al == Std then 43 else 45) then 3
    else if c == (if al == Std then 47 else 95) then 4 else 5
  }

  /** Tables 1 and 2 of RFC 4648: the digits are these characters kind by kind, and within a kind in their
      ASCII order. */
  lemma AlphabetOrder(al: Alphabet, v: sextet, w: sextet, c: byte)
    ensures v < w ==> var x, y := Enc(al, v), Enc(al, w);
                      Kind(al, x) < Kind(al, y) || (Kind(al, x) == Kind(al, y) && x < y)
    ensures DecStd(c) != INVALID <==> Kind(Std, c) < 5
    ensures DecUrl(c) >= 0 <==> Kind(Url, c) < 5
  {
  }

  // ----- the standard -----

  type word = w: int | 0 <= w < 0x100_0000

  /** Three bytes as a 24-bit group. */
  function Word(a: byte, b: byte, c: byte): (w: word)
  {
    a * 65536 + b * 256 + c
  }

  /** The i-th of the four 6-bit groups of a 24-bit group. */
  function Group(w: word, i: nat): (v: sextet)
    requires i < 4
  {
    if i == 0 then w / 262144 else if i == 1 then w / 4096 % 64 else if i == 2 then w / 64 % 64 else w % 64
  }

  /** No other four groups make up the word. */
  lemma GroupsUnique(w: word, p: sextet, q: sextet, r: sextet, s: sextet)
    ensures w == p * 262144 + q * 4096 + r * 64 + s ==>
              p == Group(w, 0) && q == Group(w, 1) && r == Group(w, 2) && s == Group(w, 3)
  {
  }

  /** The groups make up the word again. */
  lemma GroupsJoin(w: word)
    ensures w == Group(w, 0) * 262144 + Group(w, 1) * 4096 + Group(w, 2) * 64 + Group(w, 3)
  {
    var x := w / 64;
    assert w == x * 64 + w % 64 && x / 64 == w / 4096;
    var y := w / 4096;
    assert x == y * 64 + x % 64 && y / 64 == w / 262144;
  }

  function Char(al: Alphabet, w: word, i: nat): (c: byte)
    requires i < 4
  {
    Enc(al, Group(w, i))
  }

  /** The last one or two bytes, filled up with zero bits and '='. */
  function Tail(al: Alphabet, s: seq<byte>): (r: seq<byte>)
    requires |s| < 3
    ensures |r| == if |s| == 0 then 0 else 4
  {
    if |s| == 0 then []
    else if |s| == 1 then
      var w := Word(s[0], 0, 0);
      [Char(al, w, 0), Char(al, w, 1), PAD, PAD]
    else
      var w := Word(s[0], s[1], 0);
      [Char(al, w, 0), Char(al, w, 1), Char(al, w, 2), PAD]
  }

  function Quad(al: Alphabet, w: word): (r: seq<byte>)
    ensures |r| == 4
  {
    [Char(al, w, 0), Char(al, w, 1), Char(al, w, 2), Char(al, w, 3)]
  }

  /** Base64 as the standard defines it. */
  function Encoded(al: Alphabet, s: seq<byte>): (r: seq<byte>)
    ensures |r| == (|s| + 2) / 3 * 4
  {
    if |s| < 3 then Tail(al, s) else Quad(al, Word(s[0], s[1], s[2])) + Encoded(al, s[3..])
  }

  lemma {:induction false} EncodedConcat(al: Alphabet, s: seq<byte>, t: seq<byte>)
    requires |s| % 3 == 0
    ensures Encoded(al, s + t) == Encoded(al, s) + Encoded(al, t)
  {
    hide Quad, Tail;
    if s == [] {
      assert s + t == t;
      assert Encoded(al, s) == [] by { EncodedEmpty(al); }
    } else {
      assert (s + t)[3..] == s[3..] + t;
      EncodedConcat(al, s[3..], t);
    }
  }

  // ----- the same number in base 64 -----

  function DigitValue(al: Alphabet, c: byte): (v: int)
  {
    if al == Std then DecStd(c) else DecUrl(c)
  }

  function DigitValues(al: Alphabet, s: seq<byte>): (d: seq<int>)
    ensures |d| == |s|
    ensures forall i :: 0 <= i < |s| ==> d[i] == DigitValue(al, s[i])
  {
    seq(|s|, i requires 0 <= i < |s| => DigitValue(al, s[i]))
  }

  /** How many digits stand before the '=', and by what the number is multiplied to fill the last one up. */
  function DigitCount(n: nat): (k: nat)
    ensures k <= (n + 2) / 3 * 4
  {
    (4 * n + 2) / 3
  }

  function Filling(n: nat): (m: nat)
  {
    if n % 3 == 0 then 1 else if n % 3 == 1 then 16 else 4
  }

  lemma Counts(n: nat)
    ensures DigitCount(0) == 0 && DigitCount(1) == 2 && DigitCount(2) == 3
    ensures Filling(0) == 1 && Filling(1) == 16 && Filling(2) == 4 && Filling(n + 3) == Filling(n)
  {
  }

  lemma FirstPowers()
    ensures Pow(64, 0) == 1 && Pow(64, 2) == 4096 && Pow(64, 3) == 262144 && Pow(64, 4) == 16777216
    ensures Pow(256, 0) == 1 && Pow(256, 1) == 256 && Pow(256, 2) == 65536 && Pow(256, 3) == 16777216
  {
    assert Pow(64, 1) == 64;
  }

  lemma {:induction false} PowersMeet(n: nat)
    ensures Pow(64, DigitCount(n)) == Pow(256, n) * Filling(n)
  {
    hide Pow;
    FirstPowers();
    if n >= 3 {
      PowersMeet(n - 3);
      PowAdd(64, 4, DigitCount(n - 3));
      PowAdd(256, 3, n - 3);
      MulAssoc(16777216, Pow(256, n - 3), Filling(n));
    }
  }

  lemma FourDigits(b: nat, x: int, y: int, z: int, u: int)
    ensures Val(b, [x, y, z, u]) == ((x * b + y) * b + z) * b + u
  {
    assert [x, y, z, u] == [x, y, z] + [u];
    ThreeDigits(b, x, y, z);
    ValSnoc(b, [x, y, z], u);
  }

  lemma QuadValue(al: Alphabet, w: word)
    ensures Val(64, DigitValues(al, Quad(al, w))) == w
  {
    hide Enc, DecStd, DecUrl;
    forall i | 0 <= i < 4 ensures DigitValue(al, Char(al, w, i)) == Group(w, i) {
      Alphabets(Group(w, i), 0);
    }
    assert DigitValues(al, Quad(al, w)) == [Group(w, 0), Group(w, 1), Group(w, 2), Group(w, 3)];
    FourDigits(64, Group(w, 0), Group(w, 1), Group(w, 2), Group(w, 3));
    GroupsJoin(w);
  }

  /** What the digits of the last bytes denote. */
  ghost predicate TailDenotes(al: Alphabet, s: seq<byte>)
    requires |s| < 3
  {
    Val(64, DigitValues(al, Tail(al, s)[..DigitCount(|s|)])) == Val(256, s) * Filling(|s|)
  }

  lemma OneValue(al: Alphabet, a: byte)
    ensures TailDenotes(al, [a])
  {
    hide Enc, DecStd, DecUrl, Val, Group, Filling, DigitCount;
    var w := Word(a, 0, 0);
    Counts(0);
    Alphabets(Group(w, 0), 0);
    Alphabets(Group(w, 1), 0);
    GroupParts(a, 0, 0);
    assert DigitValues(al, Tail(al, [a])[..2]) == [Group(w, 0), Group(w, 1)];
    ThreeDigits(64, Group(w, 0), Group(w, 1), 0);
    ThreeDigits(256, a, 0, 0);
    assert Group(w, 0) * 64 + Group(w, 1) == a * 16;
  }

  lemma TwoValue(al: Alphabet, a: byte, b: byte)
    ensures TailDenotes(al, [a, b])
  {
    hide Enc, DecStd, DecUrl, Val, Group, Filling, DigitCount;
    var w := Word(a, b, 0);
    Counts(0);
    Alphabets(Group(w, 0), 0);
    Alphabets(Group(w, 1), 0);
    Alphabets(Group(w, 2), 0);
    GroupParts(a, b, 0);
    assert DigitValues(al, Tail(al, [a, b])[..3]) == [Group(w, 0), Group(w, 1), Group(w, 2)];
    ThreeDigits(64, Group(w, 0), Group(w, 1), Group(w, 2));
    ThreeDigits(256, a, b, 0);
    assert (Group(w, 0) * 64 + Group(w, 1)) * 64 + Group(w, 2) == (a * 256 + b) * 4;
  }

  lemma TailValue(al: Alphabet, s: seq<byte>)
    requires |s| < 3
    ensures TailDenotes(al, s)
  {
    if |s| == 0 {
      assert DigitValues(al, Tail(al, s)[..0]) == [] && s == [];
    } else {
      hide TailDenotes;
      if |s| == 1 {
        assert s == [s[0]];
        OneValue(al, s[0]);
      } else {
        assert s == [s[0], s[1]];
        TwoValue(al, s[0], s[1]);
      }
    }
  }

  lemma ValuesSplit(al: Alphabet, s: seq<byte>)
    requires |s| >= 3
    ensures DigitValues(al, Encoded(al, s)[..DigitCount(|s|)])
            == DigitValues(al, Quad(al, Word(s[0], s[1], s[2])))
               + DigitValues(al, Encoded(al, s[3..])[..DigitCount(|s| - 3)])
  {
    hide Quad, Tail, DigitValue;
    assert DigitCount(|s|) == 4 + DigitCount(|s| - 3);
  }

  /** Without its '=' the text denotes in base 64 the number that the bytes denote in base 256, multiplied by
      16 or 4 where bits were filled up. */
  lemma {:induction false} EncodedValue(al: Alphabet, s: seq<byte>)
    ensures Val(64, DigitValues(al, Encoded(al, s)[..DigitCount(|s|)])) == Val(256, s) * Filling(|s|)
  {
    hide Quad, Tail, Val, Encoded, DigitValues, Pow, Filling, DigitCount;
    if |s| < 3 {
      TailValue(al, s);
      EncodedShort(al, s);
    } else {
      var w, t := Word(s[0], s[1], s[2]), s[3..];
      var q, d := DigitValues(al, Quad(al, w)), DigitValues(al, Encoded(al, t)[..DigitCount(|t|)]);
      EncodedValue(al, t);
      QuadValue(al, w);
      ValuesSplit(al, s);
      ValConcat(64, q, d);
      assert s == [s[0], s[1], s[2]] + t;
      ValConcat(256, [s[0], s[1], s[2]], t);
      ThreeDigits(256, s[0], s[1], s[2]);
      PowersMeet(|t|);
      Counts(|t|);
      Distribute(w, Pow(256, |t|), Val(256, t), Filling(|t|));
    }
  }

  /** Behind the digits there is '=' only. */
  lemma {:induction false} EncodedPads(al: Alphabet, s: seq<byte>, i: nat)
    requires DigitCount(|s|) <= i < |Encoded(al, s)|
    ensures Encoded(al, s)[i] == 61
  {
    hide Quad, Char;
    if |s| >= 3 {
      EncodedPads(al, s[3..], i - 4);
    }
  }

  lemma EncodedShort(al: Alphabet, s: seq<byte>)
    requires |s| < 3
    ensures Encoded(al, s) == Tail(al, s)
  {
  }

  lemma Distribute(w: int, p: int, v: int, f: int)
    ensures w * (p * f) + v * f == (w * p + v) * f
  {
  }

  lemma EncodedEmpty(al: Alphabet)
    ensures Encoded(al, []) == []
  {
  }

  // ----- the table of 12-bit pairs -----

  /** Entry r of the 8K table: two characters in one 16-bit number, the first one first in memory. */
  function Entry(r: int, little: bool): (e: int)
    requires 0 <= r < 4096
    ensures 0 <= e < 65536
  {
    if little then Enc(Std, r / 64) + Enc(Std, r % 64) * 256 else Enc(Std, r / 64) * 256 + Enc(Std, r % 64)
  }

  function First8(e: int, little: bool): (c: byte)
    requires 0 <= e < 65536
  {
    if little then e % 256 else e / 256
  }

  function Last8(e: int, little: bool): (c: byte)
    requires 0 <= e < 65536
  {
    if little then e / 256 else e % 256
  }

  lemma EntryParts(r: int, little: bool)
    requires 0 <= r < 4096
    ensures First8(Entry(r, little), little) == Enc(Std, r / 64) && Last8(Entry(r, little), little) == Enc(Std, r % 64)
  {
    hide Enc;
  }

  /** The two indices a group of three bytes has in the table. */
  function Index12(a: byte, b: byte): (r: int)
    ensures 0 <= r < 4096
  {
    a * 16 + b / 16
  }

  function Index34(b: byte, c: byte): (r: int)
    ensures 0 <= r < 4096
  {
    b % 16 * 256 + c
  }

  /** Two look-ups give the four characters of a group. */
  lemma IndexGroups(a: byte, b: byte, c: byte)
    ensures var w := Word(a, b, c);
            && Index12(a, b) / 64 == Group(w, 0) && Index12(a, b) % 64 == Group(w, 1)
            && Index34(b, c) / 64 == Group(w, 2) && Index34(b, c) % 64 == Group(w, 3)
  {
    hide Group;
    var x, y := Index12(a, b), Index34(b, c);
    assert b == b / 16 * 16 + b % 16;
    GroupsUnique(Word(a, b, c), x / 64, x % 64, y / 64, y % 64);
  }

  ghost predicate IsTable(t: seq<int>, little: bool)
  {
    |t| == 4096 && forall r :: 0 <= r < 4096 ==> t[r] == Entry(r, little)
  }

  /** init_basex */
  method InitTable(little: bool) returns (t: array<int>)
    ensures fresh(t) && IsTable(t[..], little)
  {
    hide Entry;
    t := new int[4096];
    var r := 0;
    while r < 4096
      invariant 0 <= r <= 4096 && forall i :: 0 <= i < r ==> t[i] == Entry(i, little)
    {
      t[r] := Entry(r, little);
      r := r + 1;
    }
  }

  // ----- encoding -----

  /** A 16-bit store, in the order of the machine. */
  method PutShort(dst: array<byte>, p: nat, e: int, little: bool)
    requires p + 2 <= dst.Length && 0 <= e < 65536
    modifies dst
    ensures dst[p] == First8(e, little) && dst[p + 1] == Last8(e, little)
    ensures dst[..p] == old(dst[..p]) && dst[p + 2..] == old(dst[p + 2..])
  {
    dst[p] := if little then e % 256 else e / 256;
    dst[p + 1] := if little then e / 256 else e % 256;
  }

  /** Two look-ups and four bytes, one by one at an odd address, two by two at an even one. */
  method PutQuad(a: byte, b: byte, c: byte, dst: array<byte>, p: nat, odd: bool, little: bool, t: seq<int>)
    requires IsTable(t, little) && p + 4 <= dst.Length
    modifies dst
    ensures dst[p..p + 4] == Quad(Std, Word(a, b, c)) && dst[..p] == old(dst[..p])
  {
    hide Entry, Enc, Group, Index12, Index34, First8, Last8, Word;
    IndexGroups(a, b, c);
    EntryParts(Index12(a, b), little);
    EntryParts(Index34(b, c), little);
    var x, y := t[Index12(a, b)], t[Index34(b, c)];
    if odd {
      dst[p] := First8(x, little);
      dst[p + 1] := Last8(x, little);
      dst[p + 2] := First8(y, little);
      dst[p + 3] := Last8(y, little);
    } else {
      PutShort(dst, p, x, little);
      ghost var d := dst[..p + 2];
      PutShort(dst, p + 2, y, little);
      assert dst[p] == d[p] && dst[p + 1] == d[p + 1] && dst[..p] == d[..p];
    }
  }

  /** The switch on what is left over. */
  method PutTail(s: seq<byte>, dst: array<byte>, p: nat, odd: bool, little: bool, t: seq<int>)
    requires IsTable(t, little) && |s| < 3 && p + |Tail(Std, s)| <= dst.Length
    modifies dst
    ensures dst[p..p + |Tail(Std, s)|] == Tail(Std, s) && dst[..p] == old(dst[..p])
  {
    hide Entry, Enc, Group, Index12, First8, Last8, Word;
    if |s| == 2 {
      PutQuad(s[0], s[1], 0, dst, p, odd, little, t);
      ghost var q := dst[p..p + 4];
      assert dst[p] == q[0] && dst[p + 1] == q[1] && dst[p + 2] == q[2];
      dst[p + 3] := PAD;
    } else if |s| == 1 {
      IndexGroups(s[0], 0, 0);
      EntryParts(Index12(s[0], 0), little);
      var x := t[Index12(s[0], 0)];
      if odd {
        dst[p] := First8(x, little);
        dst[p + 1] := Last8(x, little);
      } else {
        PutShort(dst, p, x, little);
      }
      dst[p + 2] := PAD;
      dst[p + 3] := PAD;
    }
  }

  /** base64_enc: on either path, and on machines of either byte order, the encoding of the standard. */
  method Encode(src: seq<byte>, dst: array<byte>, odd: bool, little: bool, t: seq<int>) returns (ret: int)
    requires IsTable(t, little)
    modifies dst
    ensures var n := (|src| + 2) / 3 * 4; ret == if dst.Length < n then -n else n
    ensures ret >= 0 ==> dst[..ret] == Encoded(Std, src)
    ensures ret < 0 ==> dst[..] == old(dst[..])
  {
    hide Tail, Encoded, IsTable;
    var osize := (|src| + 2) / 3 * 4;
    if dst.Length < osize {
      return -osize;
    }
    var end := |src| / 3 * 3;
    var p := PutQuads(src[..end], dst, odd, little, t);
    EncodedLast(Std, src, end);
    PutTail(src[end..], dst, p, odd, little, t);
    assert dst[..osize] == dst[..p] + dst[p..osize];
    ret := osize;
  }

  /** The loop over whole groups. */
  method PutQuads(s: seq<byte>, dst: array<byte>, odd: bool, little: bool, t: seq<int>) returns (p: nat)
    requires IsTable(t, little) && |s| % 3 == 0 && |s| / 3 * 4 <= dst.Length
    modifies dst
    ensures p == |s| / 3 * 4 && dst[..p] == Encoded(Std, s)
  {
    hide Quad, Encoded, IsTable, Word;
    var i := 0;
    p := 0;
    ghost var k, n := 0, |s| / 3;
    EncodedEmpty(Std);
    while i < |s|
      invariant 0 <= k <= n && i == 3 * k && p == 4 * k && dst[..p] == Encoded(Std, s[..i])
    {
      PutQuad(s[i], s[i + 1], s[i + 2], dst, p, odd, little, t);
      EncodedNext(Std, s, i);
      assert dst[..p + 4] == dst[..p] + dst[p..p + 4];
      i, p, k := i + 3, p + 4, k + 1;
    }
    assert s[..i] == s;
  }

  lemma EncodedNext(al: Alphabet, s: seq<byte>, i: nat)
    requires i + 3 <= |s| && i % 3 == 0
    ensures Encoded(al, s[..i + 3]) == Encoded(al, s[..i]) + Quad(al, Word(s[i], s[i + 1], s[i + 2]))
  {
    hide Quad, Tail;
    var g := s[i..i + 3];
    assert s[..i + 3] == s[..i] + g;
    EncodedConcat(al, s[..i], g);
    assert g[3..] == [];
    EncodedEmpty(al);
    assert Quad(al, Word(s[i], s[i + 1], s[i + 2])) + [] == Quad(al, Word(s[i], s[i + 1], s[i + 2]));
  }

  lemma EncodedLast(al: Alphabet, s: seq<byte>, i: nat)
    requires i <= |s| < i + 3 && i % 3 == 0
    ensures Encoded(al, s) == Encoded(al, s[..i]) + Tail(al, s[i..])
    ensures |Tail(al, s[i..])| == (|s| + 2) / 3 * 4 - i / 3 * 4
  {
    hide Quad, Tail;
    assert s == s[..i] + s[i..];
    EncodedConcat(al, s[..i], s[i..]);
  }

  // ----- decoding -----

  /** Bitwise or. */
  function Or(x: nat, y: nat): (r: nat)
  {
    if x == 0 && y == 0 then 0
    else 2 * Or(x / 2, y / 2) + if x % 2 == 1 || y % 2 == 1 then 1 else 0
  }

  lemma {:induction false} OrZero(x: nat)
    ensures Or(x, 0) == x
  {
    if x > 0 {
      OrZero(x / 2);
    }
  }

  lemma OrDouble(x: nat, y: nat)
    ensures Or(2 * x, y) == 2 * Or(x, y / 2) + y % 2
  {
    assert 2 * x / 2 == x;
  }

  lemma OrQuad(x: nat, y: nat)
    ensures Or(4 * x, y) == 4 * Or(x, y / 4) + y % 4
  {
    hide Or;
    OrDouble(2 * x, y);
    OrDouble(x, y / 2);
  }

  /** Where the bits do not overlap, or is plus. */
  lemma OrPlus(x: nat, y: nat)
    ensures y < 4 ==> Or(4 * x, y) == 4 * x + y
    ensures y < 16 ==> Or(16 * x, y) == 16 * x + y
    ensures y < 64 ==> Or(64 * x, y) == 64 * x + y
  {
    hide Or;
    OrZero(x);
    OrQuad(x, y);
    OrQuad(4 * x, y);
    OrQuad(x, y / 4);
    OrQuad(16 * x, y);
    OrQuad(4 * x, y / 4);
    OrQuad(x, y / 16);
  }

  function Byte0(a: byte, b: byte): (r: byte)
  {
    Or(4 * a, b / 16) % 256
  }

  function Byte1(b: byte, c: byte): (r: byte)
  {
    Or(16 * b, c / 4) % 256
  }

  function Byte2(c: byte, d: byte): (r: byte)
  {
    Or(64 * c, d) % 256
  }

  /** Three bytes from four characters, whatever the characters are. */
  function Bytes(p: byte, q: byte, r: byte, s: byte): (b: seq<byte>)
    ensures |b| == 3
  {
    [Byte0(DecStd(p), DecStd(q)), Byte1(DecStd(q), DecStd(r)), Byte2(DecStd(r), DecStd(s))]
  }

  function AllBytes(s: seq<byte>): (b: seq<byte>)
    requires |s| % 4 == 0
    ensures |b| == |s| / 4 * 3
  {
    if s == [] then [] else Bytes(s[0], s[1], s[2], s[3]) + AllBytes(s[4..])
  }

  function Pads(s: seq<byte>): (n: nat)
    requires |s| >= 4
  {
    (if s[|s| - 2] == PAD then 1 else 0) + if s[|s| - 1] == PAD then 1 else 0
  }

  predicate WellFormed(s: seq<byte>)
  {
    |s| >= 4 && |s| % 4 == 0 && !(s[|s| - 2] == PAD && s[|s| - 1] != PAD)
  }

  /** base64_dec on well-formed input. */
  function Decoded(s: seq<byte>): (b: seq<byte>)
    requires WellFormed(s)
    ensures |b| == |s| / 4 * 3 - Pads(s)
  {
    AllBytes(s)[..|s| / 4 * 3 - Pads(s)]
  }

  /** The groups of a word, byte by byte. */
  lemma GroupParts(a: byte, b: byte, c: byte)
    ensures var w := Word(a, b, c);
            && Group(w, 0) == a / 4 && Group(w, 1) == a % 4 * 16 + b / 16
            && Group(w, 2) == b % 16 * 4 + c / 64 && Group(w, 3) == c % 64
  {
    hide Group;
    GroupsUnique(Word(a, b, c), a / 4, a % 4 * 16 + b / 16, b % 16 * 4 + c / 64, c % 64);
  }

  lemma OrBack(a: byte, b: byte, c: byte)
    ensures Or(4 * (a / 4), (a % 4 * 16 + b / 16) / 16) % 256 == a
    ensures Or(16 * (a % 4 * 16 + b / 16), (b % 16 * 4 + c / 64) / 4) % 256 == b
    ensures Or(64 * (b % 16 * 4 + c / 64), c % 64) % 256 == c
  {
    hide Or;
    OrPlus(a / 4, (a % 4 * 16 + b / 16) / 16);
    OrPlus(a % 4 * 16 + b / 16, (b % 16 * 4 + c / 64) / 4);
    OrPlus(b % 16 * 4 + c / 64, c % 64);
    SumBack(a, b, c);
  }

  /** The four characters of a word give its bytes back; the first two need only three of them. */
  lemma BytesBack(a: byte, b: byte, c: byte, s: byte)
    ensures var w := Word(a, b, c);
            && Bytes(Char(Std, w, 0), Char(Std, w, 1), Char(Std, w, 2), s)[..2] == [a, b]
            && Bytes(Char(Std, w, 0), Char(Std, w, 1), Char(Std, w, 2), Char(Std, w, 3)) == [a, b, c]
  {
    hide Group, Enc, DecStd, Or;
    var w := Word(a, b, c);
    Alphabets(Group(w, 0), 0);
    Alphabets(Group(w, 1), 0);
    Alphabets(Group(w, 2), 0);
    Alphabets(Group(w, 3), 0);
    GroupParts(a, b, c);
    OrBack(a, b, c);
  }

  lemma OneBack(a: byte, r: byte, s: byte)
    ensures var w := Word(a, 0, 0); Bytes(Char(Std, w, 0), Char(Std, w, 1), r, s)[0] == a
  {
    hide Group, Enc, DecStd, Or;
    var w := Word(a, 0, 0);
    Alphabets(Group(w, 0), 0);
    Alphabets(Group(w, 1), 0);
    GroupParts(a, 0, 0);
    OrBack(a, 0, 0);
  }

  lemma SumBack(a: byte, b: byte, c: byte)
    ensures 4 * (a / 4) + (a % 4 * 16 + b / 16) / 16 == a
    ensures (16 * (a % 4 * 16 + b / 16) + (b % 16 * 4 + c / 64) / 4) % 256 == b
    ensures (64 * (b % 16 * 4 + c / 64) + c % 64) % 256 == c
  {
    assert (a % 4 * 16 + b / 16) / 16 == a % 4;
    assert (b % 16 * 4 + c / 64) / 4 == b % 16;
    assert 16 * (a % 4 * 16 + b / 16) + b % 16 == 256 * (a % 4) + b;
    assert 64 * (b % 16 * 4 + c / 64) + c % 64 == 256 * (b % 16) + c;
  }

  /** base64_dec undoes base64_enc on every nonempty string. */
  lemma {:induction false} RoundTrip(s: seq<byte>)
    requires s != []
    ensures WellFormed(Encoded(Std, s)) && Decoded(Encoded(Std, s)) == s
  {
    hide Bytes, Char, Tail, AllBytes, Quad;
    if |s| < 3 {
      TailBack(s);
    } else {
      var t := s[3..];
      QuadBack(s[0], s[1], s[2]);
      if t == [] {
        EncodedEmpty(Std);
        assert Encoded(Std, s) == Quad(Std, Word(s[0], s[1], s[2])) + [];
      } else {
        RoundTrip(t);
        DecodedAfter(Quad(Std, Word(s[0], s[1], s[2])), Encoded(Std, t));
        assert s == [s[0], s[1], s[2]] + t;
      }
    }
  }

  lemma QuadBack(a: byte, b: byte, c: byte)
    ensures var q := Quad(Std, Word(a, b, c));
            AllBytes(q) == [a, b, c] && WellFormed(q) && Decoded(q) == [a, b, c] && Decoded(q + []) == [a, b, c]
  {
    hide Bytes, Char;
    BytesBack(a, b, c, 0);
    NoPad(a, b, c);
    var q := Quad(Std, Word(a, b, c));
    assert q[4..] == [] && q + [] == q;
  }

  /** Four characters before the end stand for three whole bytes. */
  lemma DecodedAfter(q: seq<byte>, e: seq<byte>)
    requires |q| == 4 && WellFormed(e)
    ensures WellFormed(q + e) && Decoded(q + e) == AllBytes(q) + Decoded(e)
  {
    hide AllBytes;
    AllBytesConcat(q, e);
    assert Pads(q + e) == Pads(e);
  }

  lemma NoPad(a: byte, b: byte, c: byte)
    ensures Char(Std, Word(a, b, c), 2) != PAD && Char(Std, Word(a, b, c), 3) != PAD
  {
  }

  lemma TailBack(s: seq<byte>)
    requires 1 <= |s| < 3
    ensures WellFormed(Tail(Std, s)) && Decoded(Tail(Std, s)) == s
  {
    hide Char, Bytes;
    var e := Tail(Std, s);
    assert e[4..] == [];
    if |s| == 1 {
      OneBack(s[0], PAD, PAD);
      assert Decoded(e) == [Bytes(e[0], e[1], e[2], e[3])[0]];
    } else {
      BytesBack(s[0], s[1], 0, PAD);
      NoPad(s[0], s[1], 0);
      assert Decoded(e) == Bytes(e[0], e[1], e[2], e[3])[..2];
    }
  }

  /** base64_dec */
  method Decode(src: seq<byte>, dst: array<byte>) returns (ret: int)
    modifies dst
    ensures ret == if !WellFormed(src) then 0 else
                     var n := |src| / 4 * 3 - Pads(src); if dst.Length < n then -n else n
    ensures ret > 0 ==> dst[..ret] == Decoded(src)
    ensures ret <= 0 ==> dst[..] == old(dst[..])
  {
    hide Bytes, AllBytes, Decoded;
    if |src| < 4 || |src| % 4 != 0 || (src[|src| - 2] == PAD && src[|src| - 1] != PAD) {
      return 0;
    }
    var osize := |src| / 4 * 3 - (if src[|src| - 2] == PAD then 1 else 0) - if src[|src| - 1] == PAD then 1 else 0;
    if dst.Length < osize {
      return -osize;
    }
    var end := |src| - 4;
    var p := PutGroups(src[..end], dst);
    PutBytes(src[end..], dst, p, osize - p);
    DecodedSplit(src);
    assert dst[..osize] == dst[..p] + dst[p..osize];
    ret := osize;
  }

  /** The loop over whole groups. */
  method PutGroups(s: seq<byte>, dst: array<byte>) returns (p: nat)
    requires |s| % 4 == 0 && |s| / 4 * 3 <= dst.Length
    modifies dst
    ensures p == |s| / 4 * 3 && dst[..p] == AllBytes(s)
  {
    hide Bytes, AllBytes;
    var i := 0;
    p := 0;
    ghost var k, n := 0, |s| / 4;
    AllBytesEmpty();
    while i < |s|
      invariant 0 <= k <= n && i == 4 * k && p == 3 * k && dst[..p] == AllBytes(s[..i])
    {
      PutBytes(s[i..i + 4], dst, p, 3);
      AllBytesNext(s, i);
      assert dst[..p + 3] == dst[..p] + dst[p..p + 3];
      i, p, k := i + 4, p + 3, k + 1;
    }
    assert s[..i] == s;
  }

  lemma AllBytesEmpty()
    ensures AllBytes([]) == []
  {
  }

  lemma DecodedSplit(s: seq<byte>)
    requires WellFormed(s)
    ensures var e := |s| - 4;
            Decoded(s) == AllBytes(s[..e]) + Bytes(s[e], s[e + 1], s[e + 2], s[e + 3])[..3 - Pads(s)]
  {
    hide Bytes, AllBytes;
    AllBytesNext(s, |s| - 4);
    assert s[..|s|] == s;
  }

  /** The first n bytes that four characters stand for: three in the loop, what the padding leaves at the end. */
  method PutBytes(s: seq<byte>, dst: array<byte>, p: nat, n: nat)
    requires |s| == 4 && 1 <= n <= 3 && p + n <= dst.Length
    modifies dst
    ensures dst[p..p + n] == Bytes(s[0], s[1], s[2], s[3])[..n] && dst[..p] == old(dst[..p])
  {
    hide Byte0, Byte1, Byte2, DecStd;
    var a, b, c := DecStd(s[0]), DecStd(s[1]), DecStd(s[2]);
    dst[p] := Byte0(a, b);
    if n >= 2 {
      dst[p + 1] := Byte1(b, c);
    }
    if n == 3 {
      dst[p + 2] := Byte2(c, DecStd(s[3]));
    }
  }

  lemma {:induction false} AllBytesConcat(s: seq<byte>, t: seq<byte>)
    requires |s| % 4 == 0 && |t| % 4 == 0
    ensures AllBytes(s + t) == AllBytes(s) + AllBytes(t)
  {
    hide Bytes;
    if s == [] {
      assert s + t == t;
    } else {
      assert (s + t)[4..] == s[4..] + t;
      AllBytesConcat(s[4..], t);
    }
  }

  lemma AllBytesNext(s: seq<byte>, i: nat)
    requires i + 4 <= |s| && i % 4 == 0
    ensures AllBytes(s[..i + 4]) == AllBytes(s[..i]) + Bytes(s[i], s[i + 1], s[i + 2], s[i + 3])
  {
    hide Bytes;
    var g := s[i..i + 4];
    assert s[..i + 4] == s[..i] + g;
    AllBytesConcat(s[..i], g);
    assert g[4..] == [];
    assert AllBytes(g) == Bytes(g[0], g[1], g[2], g[3]) + [];
  }
}
