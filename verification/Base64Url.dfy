/** base64url_enc and base64url_dec (src/core/basex.c:529-632). */
module Base64Url {
  import opened Numerals
  import opened Base64

  // ----- what decoding means -----

  /** How many '=' end the string. */
  function Trailing(s: seq<byte>): (n: nat)
    ensures n <= |s|
  {
    if s == [] || s[|s| - 1] != PAD then 0 else 1 + Trailing(s[..|s| - 1])
  }

  function Digits(s: seq<byte>): (d: seq<byte>)
  {
    s[..|s| - Trailing(s)]
  }

  /** The length computed before anything is decoded. */
  function Size(s: seq<byte>): (n: int)
  {
    |s| * 6 / 8 - Trailing(s)
  }

  predicate AllDigits(s: seq<byte>)
  {
    forall i :: 0 <= i < |s| ==> DecUrl(s[i]) >= 0
  }

  /** Up to four digits from the top of a 24-bit block down. */
  function Block(s: seq<byte>): (w: int)
    requires |s| <= 4
  {
    (if |s| > 0 then DecUrl(s[0]) * 262144 else 0) + (if |s| > 1 then DecUrl(s[1]) * 4096 else 0)
    + (if |s| > 2 then DecUrl(s[2]) * 64 else 0) + (if |s| > 3 then DecUrl(s[3]) else 0)
  }

  lemma BlockEmpty()
    ensures Block([]) == 0
  {
  }

  /** The weight of the j-th digit of a block. */
  function Unit(j: nat): (u: int)
  {
    if j == 0 then 262144 else if j == 1 then 4096 else if j == 2 then 64 else if j == 3 then 1 else 0
  }

  lemma BlockSnoc(s: seq<byte>, c: byte)
    requires |s| < 4
    ensures Block(s + [c]) == Block(s) + DecUrl(c) * Unit(|s|)
  {
    hide DecUrl;
  }

  lemma BlockRange(s: seq<byte>)
    requires |s| <= 4 && AllDigits(s)
    ensures 0 <= Block(s) < 0x100_0000
  {
    forall i | 0 <= i < |s| ensures 0 <= DecUrl(s[i]) < 64 {
      Alphabets(0, s[i]);
    }
  }

  function Three(w: word): (b: seq<byte>)
    ensures |b| == 3
  {
    [w / 65536, w / 256 % 256, w % 256]
  }

  function Min4(s: seq<byte>): (k: nat)
    ensures k <= |s| && k <= 4
  {
    if |s| < 4 then |s| else 4
  }

  /** Three bytes for every block, the last one short perhaps. */
  function Bytes(s: seq<byte>): (b: seq<byte>)
    requires AllDigits(s)
    ensures |b| == (|s| + 3) / 4 * 3
  {
    if s == [] then []
    else
      var k := Min4(s);
      BlockRange(s[..k]);
      Three(Block(s[..k])) + Bytes(s[k..])
  }

  lemma SizeFits(s: seq<byte>)
    requires Size(s) > 0 && AllDigits(Digits(s))
    ensures Size(s) <= |Bytes(Digits(s))|
  {
  }

  predicate Decodable(s: seq<byte>)
  {
    Size(s) > 0 && AllDigits(Digits(s))
  }

  function Decoded(s: seq<byte>): (b: seq<byte>)
    requires Decodable(s)
  {
    SizeFits(s);
    Bytes(Digits(s))[..Size(s)]
  }

  // ----- the round trip -----

  /** The digits of an encoding, without its '='. */
  function Bare(s: seq<byte>): (d: seq<byte>)
    ensures |d| == |s| + (|s| + 2) / 3
  {
    Encoded(Url, s)[..|s| + (|s| + 2) / 3]
  }

  /** The encoding ends in no, one or two '='. */
  function Padding(s: seq<byte>): (n: nat)
  {
    if |s| % 3 == 0 then 0 else 3 - |s| % 3
  }

  lemma WordBack(a: byte, b: byte, c: byte)
    ensures Three(Word(a, b, c)) == [a, b, c]
  {
    var w, x := Word(a, b, c), a * 256 + b;
    assert w == x * 256 + c;
    assert w / 256 == x && w % 256 == c;
    assert w / 65536 == x / 256;
  }

  lemma BlockBack(w: word)
    ensures AllDigits(Quad(Url, w)) && Block(Quad(Url, w)) == w
  {
    hide Group, Enc, DecUrl;
    Alphabets(Group(w, 0), 0);
    Alphabets(Group(w, 1), 0);
    Alphabets(Group(w, 2), 0);
    Alphabets(Group(w, 3), 0);
    GroupsJoin(w);
  }

  /** A short last block: the groups left out are zero. */
  lemma TailBack(s: seq<byte>)
    requires 1 <= |s| < 3
    ensures var d := Tail(Url, s)[..|s| + 1];
            AllDigits(d) && Block(d) == if |s| == 1 then Word(s[0], 0, 0) else Word(s[0], s[1], 0)
    ensures forall i :: |s| + 1 <= i < 4 ==> Tail(Url, s)[i] == PAD
  {
    hide Group, Enc, DecUrl;
    var w := if |s| == 1 then Word(s[0], 0, 0) else Word(s[0], s[1], 0);
    Alphabets(Group(w, 0), 0);
    Alphabets(Group(w, 1), 0);
    Alphabets(Group(w, 2), 0);
    GroupsJoin(w);
    GroupParts(s[0], if |s| == 1 then 0 else s[1], 0);
  }

  function Equals(n: nat): (s: seq<byte>)
    ensures |s| == n && forall i :: 0 <= i < n ==> s[i] == PAD
  {
    if n == 0 then [] else [PAD] + Equals(n - 1)
  }

  lemma BareStep(s: seq<byte>)
    requires |s| >= 3
    ensures Bare(s) == Quad(Url, Word(s[0], s[1], s[2])) + Bare(s[3..])
    ensures Padding(s) == Padding(s[3..])
  {
    hide Quad, Tail;
  }

  /** An encoding is its digits and then its padding. */
  lemma {:induction false} BarePad(s: seq<byte>)
    ensures Encoded(Url, s) == Bare(s) + Equals(Padding(s))
  {
    hide Quad, Tail, Bare, Padding, Equals;
    if |s| < 3 {
      BareTail(s);
    } else {
      var q, t := Quad(Url, Word(s[0], s[1], s[2])), s[3..];
      BarePad(t);
      BareStep(s);
      assert q + (Bare(t) + Equals(Padding(t))) == (q + Bare(t)) + Equals(Padding(t));
    }
  }

  /** Its digits decode to the string. */
  lemma {:induction false} BareBack(s: seq<byte>)
    ensures AllDigits(Bare(s)) && |Bytes(Bare(s))| >= |s| && Bytes(Bare(s))[..|s|] == s
  {
    hide Block, Three, Quad, Tail, Bare, AllDigits, Bytes;
    if |s| < 3 {
      BareTail(s);
    } else {
      BareBack(s[3..]);
      BareStep(s);
      BlockBack(Word(s[0], s[1], s[2]));
      WordBack(s[0], s[1], s[2]);
      BytesCons(Quad(Url, Word(s[0], s[1], s[2])), Bare(s[3..]));
      assert s == [s[0], s[1], s[2]] + s[3..];
    }
  }

  lemma BytesCons(q: seq<byte>, d: seq<byte>)
    requires |q| == 4 && AllDigits(q) && AllDigits(d)
    ensures AllDigits(q + d) && 0 <= Block(q) < 0x100_0000 && Bytes(q + d) == Three(Block(q)) + Bytes(d)
  {
    hide Block, DecUrl, Three;
    BlockRange(q);
    assert (q + d)[..4] == q && (q + d)[4..] == d;
  }

  lemma BareTail(s: seq<byte>)
    requires |s| < 3
    ensures Encoded(Url, s) == Bare(s) + Equals(Padding(s))
    ensures AllDigits(Bare(s)) && |Bytes(Bare(s))| >= |s| && Bytes(Bare(s))[..|s|] == s
  {
    hide Block, DecUrl, Three, Char;
    if s != [] {
      TailBack(s);
      var d := Bare(s);
      BlockRange(d);
      assert d[..|d|] == d && d[|d|..] == [];
      if |s| == 1 {
        WordBack(s[0], 0, 0);
      } else {
        WordBack(s[0], s[1], 0);
      }
      assert Bytes(d) == Three(Block(d)) + [];
    }
  }

  lemma {:induction false} TrailingOf(d: seq<byte>, n: nat)
    requires AllDigits(d)
    ensures Trailing(d + Equals(n)) == n && Digits(d + Equals(n)) == d
  {
    var s := d + Equals(n);
    if n == 0 {
      assert s == d;
      if d != [] {
        Alphabets(0, PAD);
        assert DecUrl(d[|d| - 1]) >= 0;
      }
      assert d[..|d|] == d;
    } else {
      EqualsSnoc(n);
      assert s[..|s| - 1] == d + Equals(n - 1);
      TrailingOf(d, n - 1);
    }
  }

  lemma {:induction false} EqualsSnoc(n: nat)
    requires n > 0
    ensures Equals(n) == Equals(n - 1) + [PAD]
  {
    if n > 1 {
      EqualsSnoc(n - 1);
    }
  }

  /** Decoding undoes encoding on every nonempty string, with all of the trailing '=', with some of
      them or with none. */
  lemma RoundTrip(s: seq<byte>, k: nat)
    requires s != [] && k <= Padding(s)
    ensures var e := Encoded(Url, s); var cut := e[..|e| - k]; Decodable(cut) && Decoded(cut) == s
  {
    hide Encoded, Bytes, Equals, Bare, Trailing, AllDigits, Digits;
    BareBack(s);
    BarePad(s);
    var e := Encoded(Url, s);
    var n := Padding(s) - k;
    EqualsCut(Padding(s), n);
    assert e[..|e| - k] == Bare(s) + Equals(n);
    TrailingOf(Bare(s), n);
    SizeOf(|s|, k);
  }

  lemma {:induction false} EqualsCut(m: nat, n: nat)
    requires n <= m
    ensures Equals(m)[..n] == Equals(n)
  {
    if n < m {
      EqualsSnoc(m);
      EqualsCut(m - 1, n);
    }
  }

  lemma SizeOf(n: nat, k: nat)
    requires n > 0 && k <= if n % 3 == 0 then 0 else 3 - n % 3
    ensures var p := if n % 3 == 0 then 0 else 3 - n % 3;
            ((n + 2) / 3 * 4 - k) * 6 / 8 - (p - k) == n
  {
    var g := (n + 2) / 3;
    assert (g * 4 - k) * 6 / 8 == 3 * g - k;
  }

  // ----- the code -----

  /** memset */
  method Clear(out: array<byte>, n: nat)
    requires n <= out.Length
    modifies out
    ensures forall i :: 0 <= i < n ==> out[i] == 0
  {
    var i := 0;
    while i < n
      invariant 0 <= i <= n && forall j :: 0 <= j < i ==> out[j] == 0
    {
      out[i] := 0;
      i := i + 1;
    }
  }

  function At(s: seq<byte>, i: nat): (b: byte)
  {
    if i < |s| then s[i] else 0
  }

  /** Adds up the one to three bytes of a block. */
  method ReadBytes(s: seq<byte>, idx: nat, left: nat) returns (block: int)
    requires left <= 2 && idx + left < |s| && (left < 2 ==> idx + left + 1 == |s|)
    ensures block == Word(At(s, idx), At(s, idx + 1), At(s, idx + 2))
  {
    block := 0;
    var i, unit: int := 0, 65536;
    while i <= left
      invariant 0 <= i <= left + 1
      invariant unit == if i == 0 then 65536 else if i == 1 then 256 else if i == 2 then 1 else 0
      invariant block == (if i > 0 then (s[idx] as int) * 65536 else 0)
                         + (if i > 1 then (s[idx + 1] as int) * 256 else 0) + if i > 2 then s[idx + 2] else 0
    {
      block := block + s[idx + i] * unit;
      i, unit := i + 1, unit / 256;
    }
  }

  /** Four characters of a block, '=' for what it does not fill. */
  function Chars(w: word, left: nat): (r: seq<byte>)
    ensures |r| == 4
  {
    [Char(Url, w, 0), Char(Url, w, 1),
     if left > 0 then Char(Url, w, 2) else PAD, if left > 1 then Char(Url, w, 3) else PAD]
  }

  /** One more block of the encoding. */
  lemma EncodedBlock(s: seq<byte>, k: nat)
    requires 3 * k < |s|
    ensures var i, left := 3 * k, if |s| - 3 * k - 1 > 1 then 2 else |s| - 3 * k - 1;
            var next := if i + 3 <= |s| then i + 3 else |s|;
            Encoded(Url, s[..next]) == Encoded(Url, s[..i]) + Chars(Word(At(s, i), At(s, i + 1), At(s, i + 2)), left)
  {
    hide Char, Encoded;
    var i := 3 * k;
    if i + 3 <= |s| {
      EncodedNext(Url, s, i);
    } else {
      EncodedLast(Url, s, i);
      assert s[..|s|] == s;
    }
  }

  /** base64url_enc */
  method UrlEncode(src: seq<byte>, out: array<byte>) returns (ret: int)
    modifies out
    ensures var n := (|src| + 2) / 3 * 4;
            ret == if out.Length < 1 then -1 else if src == [] then 0
                   else if |src| > INT_MAX / 4 || n >= out.Length then -1 else n
    ensures ret >= 0 ==> out[..ret] == Encoded(Url, src) && out[ret] == 0
    ensures ret < 0 ==> out[..] == old(out[..])
  {
    hide Encoded, Chars, Word;
    EncodedEmpty(Url);
    if out.Length < 1 {
      return -1;
    }
    if |src| == 0 {
      out[0] := 0;
      return 0;
    }
    if |src| > INT_MAX / 4 {
      return -1;
    }
    var olen := (|src| + 2) / 3 * 4;
    if olen >= out.Length {
      return -1;
    }
    Clear(out, olen + 1);
    PutBlocks(src, out, olen);
    ret := olen;
  }

  method PutChars(out: array<byte>, p: nat, block: word, left: nat)
    requires p + 4 <= out.Length
    modifies out
    ensures out[..p + 4] == old(out[..p]) + Chars(block, left) && out[p + 4..] == old(out[p + 4..])
  {
    hide Char;
    out[p] := Char(Url, block, 0);
    out[p + 1] := Char(Url, block, 1);
    out[p + 2] := if left > 0 then Char(Url, block, 2) else PAD;
    out[p + 3] := if left > 1 then Char(Url, block, 3) else PAD;
  }

  method PutBlocks(src: seq<byte>, out: array<byte>, olen: nat)
    requires olen == (|src| + 2) / 3 * 4 < out.Length && out[olen] == 0
    modifies out
    ensures out[..olen] == Encoded(Url, src) && out[olen] == 0
  {
    hide Encoded, Chars, Word;
    EncodedEmpty(Url);
    var idx, p := 0, 0;
    ghost var k, done := 0, 0;
    while idx < |src|
      invariant idx == 3 * k && p == 4 * k <= olen && out[olen] == 0
      invariant done == if idx <= |src| then idx else |src|
      invariant 3 * k <= |src| + 2 && out[..p] == Encoded(Url, src[..done])
    {
      var left := |src| - idx - 1;
      left := if left > 1 then 2 else left;
      var block := ReadBytes(src, idx, left);
      EncodedBlock(src, k);
      PutChars(out, p, block, left);
      assert out[olen] == out[p + 4..][olen - p - 4];
      idx, p, k := idx + 3, p + 4, k + 1;
      done := if idx <= |src| then idx else |src|;
    }
    assert src[..|src|] == src && p == olen;
  }

  /** How many '=' end the string, counted from its end. */
  method CountTrailing(s: seq<byte>) returns (n: nat)
    ensures n == Trailing(s)
  {
    n := 0;
    var i := |s| - 1;
    assert s[..|s|] == s;
    while i >= 0 && s[i] == PAD
      invariant -1 <= i < |s| && n == |s| - 1 - i && n + Trailing(s[..i + 1]) == Trailing(s)
    {
      assert s[..i + 1][..i] == s[..i];
      n, i := n + 1, i - 1;
    }
  }

  /** Reads a block of up to four digits; stops at a character that is none. */
  method ReadBlock(s: seq<byte>, i: nat) returns (ok: bool, block: int, next: nat)
    requires i < |s|
    ensures var k := Min4(s[i..]);
            && (ok <==> AllDigits(s[i..i + k]))
            && (ok ==> block == Block(s[i..i + k]) && next == i + k)
  {
    hide DecUrl, Block;
    BlockEmpty();
    assert s[i..i] == [];
    next, block := i, 0;
    var j, unit: int := 0, 262144;
    while j < 4 && next < |s|
      invariant 0 <= j <= Min4(s[i..]) && next == i + j && AllDigits(s[i..next])
      invariant unit == Unit(j)
      invariant block == Block(s[i..next])
    {
      var c := DecUrl(s[next]);
      if c < 0 {
        assert s[i..i + Min4(s[i..])][j] == s[next];
        return false, 0, next;
      }
      BlockSnoc(s[i..next], s[next]);
      assert s[i..next + 1] == s[i..next] + [s[next]];
      next := next + 1;
      block := block + c * unit;
      j, unit := j + 1, unit / 64;
    }
    ok := true;
  }

  lemma {:induction false} BytesConcat(s: seq<byte>, t: seq<byte>)
    requires |s| % 4 == 0 && AllDigits(s) && AllDigits(t)
    ensures AllDigits(s + t) && Bytes(s + t) == Bytes(s) + Bytes(t)
  {
    hide Block, DecUrl, Three, Bytes;
    if s == [] {
      BytesEmpty();
      assert s + t == t;
    } else {
      BytesConcat(s[4..], t);
      BytesCons(s[..4], s[4..]);
      BytesCons(s[..4], s[4..] + t);
      assert s[..4] + s[4..] == s && s[..4] + (s[4..] + t) == s + t;
    }
  }

  /** Another block read. */
  lemma BytesNext(s: seq<byte>, i: nat, k: nat)
    requires i < |s| && i % 4 == 0 && k == Min4(s[i..]) && AllDigits(s[..i]) && AllDigits(s[i..i + k])
    ensures AllDigits(s[..i + k]) && 0 <= Block(s[i..i + k]) < 0x100_0000
    ensures Bytes(s[..i + k]) == Bytes(s[..i]) + Three(Block(s[i..i + k]))
  {
    hide Block, DecUrl, Three;
    var b := s[i..i + k];
    BlockRange(b);
    BytesConcat(s[..i], b);
    assert s[..i + k] == s[..i] + b;
    assert b[..k] == b && b[k..] == [];
    assert Bytes(b) == Three(Block(b)) + [];
  }

  /** The bytes of a block, as far as the length computed goes. */
  method PutThree(out: array<byte>, idx: nat, olen: nat, w: word)
    requires olen < out.Length
    modifies out
    ensures forall i :: 0 <= i < out.Length && !(idx <= i < idx + 3) ==> out[i] == old(out[i])
    ensures forall i :: idx <= i < idx + 3 && i < olen ==> out[i] == Three(w)[i - idx]
    ensures out[olen] == old(out[olen])
  {
    hide Three;
    var b := Three(w);
    var j := 0;
    while j < 3 && idx + j < olen
      invariant 0 <= j <= 3 && (j == 0 || idx + j <= olen)
      invariant forall i :: 0 <= i < out.Length && !(idx <= i < idx + j) ==> out[i] == old(out[i])
      invariant forall i :: idx <= i < idx + j && i < olen ==> out[i] == b[i - idx]
    {
      out[idx + j] := b[j];
      j := j + 1;
    }
  }

  /** out holds the bytes of the digits before i, as far as it goes. */
  ghost predicate Holds(out: array<byte>, s: seq<byte>, i: nat, olen: nat)
    requires i <= |s| && AllDigits(s[..i]) && olen < out.Length
    reads out
  {
    var b := Bytes(s[..i]);
    forall k :: 0 <= k < |b| && k < olen ==> out[k] == b[k]
  }

  /** The loop over blocks; s is the input without its '='. */
  method GetBlocks(s: seq<byte>, out: array<byte>, olen: nat) returns (ok: bool)
    requires olen < out.Length && olen <= (|s| + 3) / 4 * 3
    modifies out
    ensures ok <==> AllDigits(s)
    ensures ok ==> out[..olen] == Bytes(s)[..olen]
    ensures out[olen] == old(out[olen])
  {
    hide Bytes, Block, Three, DecUrl;
    var i, idx := 0, 0;
    ghost var k := 0;
    BytesEmpty();
    assert s[..0] == [];
    while i < |s|
      invariant i <= |s| && idx == 3 * k && (i == 4 * k || (i == |s| && 4 * k - 4 < i <= 4 * k))
      invariant AllDigits(s[..i]) && |Bytes(s[..i])| == idx && Holds(out, s, i, olen) && out[olen] == old(out[olen])
    {
      var good, block, next := ReadBlock(s, i);
      if !good {
        NotDigits(s, i, Min4(s[i..]));
        return false;
      }
      BytesNext(s, i, Min4(s[i..]));
      label before:
      PutThree(out, idx, olen, block);
      assert Holds(out, s, next, olen) by {
        forall m | 0 <= m < idx + 3 && m < olen ensures out[m] == (Bytes(s[..i]) + Three(block))[m] {
          assert m < idx ==> out[m] == old@before(out[m]);
        }
      }
      i, idx, k := next, idx + 3, k + 1;
    }
    assert s[..i] == s;
    ok := true;
  }

  lemma BytesEmpty()
    ensures AllDigits([]) && Bytes([]) == []
  {
  }

  lemma NotDigits(s: seq<byte>, i: nat, k: nat)
    requires i + k <= |s| && !AllDigits(s[i..i + k])
    ensures !AllDigits(s)
  {
    var j :| 0 <= j < k && DecUrl(s[i..i + k][j]) < 0;
    assert s[i + j] == s[i..i + k][j];
  }

  /** base64url_dec: the decoding with its final NUL, or -1 exactly when the length computed is not
      positive or does not fit, or a character is not a digit. */
  method UrlDecode(src: seq<byte>, out: array<byte>) returns (ret: int)
    modifies out
    ensures ret == if out.Length < 1 then -1 else if src == [] then 0
                   else if !Decodable(src) || Size(src) >= out.Length then -1 else Size(src)
    ensures ret > 0 ==> out[..ret] == Decoded(src)
    ensures ret >= 0 ==> out[ret] == 0
  {
    hide Trailing, Bytes, DecUrl;
    if out.Length < 1 {
      return -1;
    }
    if |src| == 0 {
      out[0] := 0;
      return 0;
    }
    var n := CountTrailing(src);
    var olen := |src| * 6 / 8 - n;
    if olen <= 0 {
      return -1;
    }
    if olen >= out.Length {
      return -1;
    }
    Clear(out, olen + 1);
    var ok := GetBlocks(src[..|src| - n], out, olen);
    ret := if ok then olen else -1;
  }
}
