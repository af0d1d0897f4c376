/** Base58 (src/core/basex.c): radix conversion of byte strings to base-58 text
    and back, against the shortest numeral of the same number. */
module Base58 {
  import opened Numerals

  const MAX_BINSZ := 16 * 1024 * 1024
  const ONE: byte := 49  // '1', the digit zero

  // ----- alphabet -----

  /** `_sr_b58digits`: digits, then capitals without I and O, then small letters without l. */
  function DigitChar(d: int): (c: byte)
    requires 0 <= d < 58
  {
    if d < 9 then 49 + d
    else if d < 17 then 65 + (d - 9)
    else if d < 22 then 74 + (d - 17)
    else if d < 33 then 80 + (d - 22)
    else if d < 44 then 97 + (d - 33)
    else 109 + (d - 44)
  }

  /** `_sr_b58map` extended with -1 for the bytes that have the high bit set. */
  function DigitOf(c: byte): (d: int)
    ensures -1 <= d < 58
    ensures d >= 0 ==> DigitChar(d) == c
    ensures forall x :: 0 <= x < 58 && DigitChar(x) == c ==> x == d
  {
    if 49 <= c <= 57 then c - 49
    else if 65 <= c <= 72 then 9 + (c - 65)
    else if 74 <= c <= 78 then 17 + (c - 74)
    else if 80 <= c <= 90 then 22 + (c - 80)
    else if 97 <= c <= 107 then 33 + (c - 97)
    else if 109 <= c <= 122 then 44 + (c - 109)
    else -1
  }

  /** An ASCII letter or digit other than '0', 'I', 'O' and 'l'. */
  predicate IsLetter58(c: byte)
  {
    (48 < c <= 57 || 65 <= c <= 90 || 97 <= c <= 122) && c != 73 && c != 79 && c != 108
  }

  /** The digits are these characters in their ASCII order; this leaves one alphabet only. */
  lemma Alphabet(i: int, j: int, c: byte)
    ensures 0 <= i < j < 58 ==> DigitChar(i) < DigitChar(j)
    ensures DigitOf(c) >= 0 <==> IsLetter58(c)
    ensures IsLetter58(c) ==> DigitChar(DigitOf(c)) == c
  {
  }

  predicate AllDigits(text: seq<byte>)
  {
    forall k :: 0 <= k < |text| ==> DigitOf(text[k]) >= 0
  }

  function DigitValues(text: seq<byte>): (d: seq<int>)
    ensures |d| == |text|
    ensures forall k :: 0 <= k < |d| ==> d[k] == DigitOf(text[k])
  {
    seq(|text|, k requires 0 <= k < |text| => DigitOf(text[k]))
  }

  function Letters(d: seq<int>): (text: seq<byte>)
    requires Digits(58, d)
    ensures |text| == |d| && AllDigits(text) && DigitValues(text) == d
  {
    seq(|d|, k requires 0 <= k < |d| => DigitChar(d[k]))
  }

  /** The number a base-58 text denotes. */
  function Number(text: seq<byte>): (n: nat)
    requires AllDigits(text)
  {
    ValBounds(58, DigitValues(text));
    Val(58, DigitValues(text))
  }

  // ----- what the two routines promise -----

  function LeadingZeros(bin: seq<int>): (z: nat)
    ensures z <= |bin|
    ensures forall k :: 0 <= k < z ==> bin[k] == 0
    ensures z < |bin| ==> bin[z] != 0
  {
    if bin == [] || bin[0] != 0 then 0 else 1 + LeadingZeros(bin[1..])
  }

  function Ones(n: nat): (text: seq<byte>)
    ensures |text| == n && AllDigits(text)
    ensures forall k :: 0 <= k < n ==> text[k] == ONE
  {
    seq(n, _ => ONE)
  }

  /** One '1' for each leading zero byte, then the shortest base-58 numeral. */
  function EncodeSpec(bin: seq<byte>): (text: seq<byte>)
  {
    ByteValue(bin);
    Ones(LeadingZeros(bin)) + Letters(Shortest(58, Val(256, bin)))
  }

  /** The shortest big-endian byte string of the number; leading '1's leave no trace. */
  function DecodeSpec(text: seq<byte>): (bin: seq<int>)
    requires AllDigits(text)
  {
    Shortest(256, Number(text))
  }

  lemma ByteValue(bin: seq<byte>)
    ensures 0 <= Val(256, bin) < Pow(256, |bin|)
  {
    ValBounds(256, bin);
  }

  lemma EncodeIsDigits(bin: seq<byte>)
    ensures AllDigits(EncodeSpec(bin))
    ensures Number(EncodeSpec(bin)) == Val(256, bin)
  {
    ByteValue(bin);
    var z, d := LeadingZeros(bin), Shortest(58, Val(256, bin));
    PaddedValue(z, d);
  }

  lemma EncodeIs(bin: seq<byte>, z: nat, d: seq<int>)
    requires z < |bin| && bin[z] != 0 && forall k :: 0 <= k < z ==> bin[k] == 0
    requires Digits(58, d) && d != [] && d[0] != 0 && Val(58, d) == Val(256, bin)
    ensures EncodeSpec(bin) == Ones(z) + Letters(d)
  {
    hide Val;
    ShortestUnique(58, d);
    assert LeadingZeros(bin) == z;
  }

  /** Three texts: the byte 9 is "A", the bytes 1 and 0 are "5R", and two zero bytes and 57 are "11z". */
  lemma Examples()
    ensures EncodeSpec([9]) == [65] && EncodeSpec([1, 0]) == [53, 82] && EncodeSpec([0, 0, 57]) == [49, 49, 122]
  {
    hide Val, EncodeSpec;
    ThreeDigits(256, 9, 0, 0);
    ThreeDigits(256, 1, 0, 0);
    ThreeDigits(256, 0, 0, 57);
    ThreeDigits(58, 9, 0, 0);
    ThreeDigits(58, 4, 24, 0);
    ThreeDigits(58, 57, 0, 0);
    EncodeIs([9], 0, [9]);
    EncodeIs([1, 0], 0, [4, 24]);
    EncodeIs([0, 0, 57], 2, [57]);
    assert Ones(0) + Letters([9]) == [65] && Ones(0) + Letters([4, 24]) == [53, 82];
    assert Ones(2) + Letters([57]) == [49, 49, 122];
  }

  lemma PaddedValue(z: nat, d: seq<int>)
    requires Digits(58, d)
    ensures AllDigits(Ones(z) + Letters(d))
    ensures Number(Ones(z) + Letters(d)) == Val(58, d)
  {
    var t := Ones(z) + Letters(d);
    assert DigitOf(ONE) == 0;
    var v := DigitValues(t);
    assert v[z..] == DigitValues(Letters(d));
    ValZeros(58, v, z);
  }

  /** Decoding an encoding drops exactly the leading zero bytes. */
  lemma DecodeEncode(bin: seq<byte>)
    ensures AllDigits(EncodeSpec(bin))
    ensures DecodeSpec(EncodeSpec(bin)) == bin[LeadingZeros(bin)..]
  {
    EncodeIsDigits(bin);
    var z := LeadingZeros(bin);
    ValZeros(256, bin, z);
    ShortestUnique(256, bin[z..]);
  }

  /** The round trip is exact if and only if the input has no leading zero byte. */
  lemma RoundTripExactly(bin: seq<byte>)
    ensures AllDigits(EncodeSpec(bin))
    ensures DecodeSpec(EncodeSpec(bin)) == bin <==> (bin == [] || bin[0] != 0)
    ensures Val(256, DecodeSpec(EncodeSpec(bin))) == Val(256, bin)
  {
    DecodeEncode(bin);
    ValZeros(256, bin, LeadingZeros(bin));
    if bin != [] && bin[0] == 0 {
      assert LeadingZeros(bin) > 0;
      assert |bin[LeadingZeros(bin)..]| < |bin|;
    }
  }

  /** The other way round: a text survives if and only if it does not start with '1'. */
  lemma EncodeDecode(text: seq<byte>)
    requires AllDigits(text)
    ensures var bin: seq<int> := DecodeSpec(text); Digits(256, bin)
    ensures var bin: seq<byte> := DecodeSpec(text);
            EncodeSpec(bin) == text <==> (text == [] || text[0] != ONE)
  {
    var d := DigitValues(text);
    EncodeNoLeadingZero(DecodeSpec(text), Number(text));
    if text == [] || text[0] != ONE {
      assert d != [] ==> d[0] != 0;
      ShortestUnique(58, d);
      LettersOfValues(text);
    } else {
      assert d[0] == 0 && DigitOf(ONE) == 0;
    }
  }

  lemma LettersOfValues(text: seq<byte>)
    requires AllDigits(text)
    ensures Letters(DigitValues(text)) == text
  {
  }

  lemma EncodeNoLeadingZero(bin: seq<byte>, n: nat)
    requires bin != [] ==> bin[0] != 0
    requires Val(256, bin) == n
    ensures EncodeSpec(bin) == Letters(Shortest(58, n))
    ensures EncodeSpec(bin) != [] ==> EncodeSpec(bin)[0] != ONE
  {
    var d := Shortest(58, n);
    assert LeadingZeros(bin) == 0;
    assert d != [] ==> DigitOf(Letters(d)[0]) == d[0] && DigitOf(ONE) == 0;
  }

  // ----- the length bound -----

  lemma LengthBoundSmall(n: nat)
    requires n < 8
    ensures Pow(256, n) <= Pow(58, n * 138 / 100 + 1)
  {
    assert Pow(256, 1) == 256;
    assert Pow(256, 2) == 65536;
    assert Pow(256, 3) == 16777216;
    assert Pow(256, 4) == 4294967296;
    assert Pow(256, 5) == 1099511627776;
    assert Pow(256, 6) == 281474976710656;
    assert Pow(256, 7) == 72057594037927936;
    assert Pow(58, 1) == 58;
    assert Pow(58, 2) == 3364;
    assert Pow(58, 3) == 195112;
    assert Pow(58, 4) == 11316496;
    assert Pow(58, 5) == 656356768;
    assert Pow(58, 6) == 38068692544;
    assert Pow(58, 7) == 2207984167552;
    assert Pow(58, 8) == 128063081718016;
    assert Pow(58, 9) == 7427658739644928;
    assert Pow(58, 10) == 430804206899405824;
  }

  lemma StepBound()
    ensures Pow(256, 8) <= Pow(58, 11)
  {
    assert Pow(256, 4) == 4294967296;
    PowAdd(256, 4, 4);
    assert Pow(58, 5) == 656356768;
    PowAdd(58, 5, 5);
    PowAdd(58, 1, 10);
  }

  /** n bytes never need more than n*138/100+1 base-58 digits. */
  lemma {:induction false} LengthBound(n: nat)
    ensures Pow(256, n) <= Pow(58, n * 138 / 100 + 1)
  {
    if n < 8 {
      LengthBoundSmall(n);
    } else {
      var m := n - 8;
      LengthBound(m);
      StepBound();
      var e := m * 138 / 100 + 1;
      PowAdd(256, 8, m);
      PowAdd(58, 11, e);
      MulMonotone(Pow(256, 8), Pow(58, 11), Pow(256, m));
      MulMonotone(Pow(256, m), Pow(58, e), Pow(58, 11));
      PowMonotone(58, 11 + e, n * 138 / 100 + 1);
    }
  }

  // ----- encoder -----

  ghost predicate ZeroUpTo(buf: seq<int>, high: int)
  {
    forall k :: 0 <= k <= high && k < |buf| ==> buf[k] == 0
  }

  /** If the carry were still positive past the first digit, the number would not fit. */
  lemma NoCarryOut(bin: seq<byte>, z: nat, i: nat, size: nat, carry: nat, now: seq<int>, was: seq<int>)
    requires z <= i < |bin| && (forall k :: 0 <= k < z ==> bin[k] == 0)
    requires size == (|bin| - z) * 138 / 100 + 1
    requires |now| == size && Digits(58, now)
    requires CarryInvariant(58, 256, carry, now, was, bin[i])
    requires Val(58, was) == Val(256, bin[..i])
    ensures carry == 0
  {
    hide Val, Pow;
    var upto: seq<int> := bin[..i + 1];
    assert upto == bin[..i] + [bin[i]];
    ValSnoc(256, bin[..i], bin[i]);
    ValZeros(256, upto, z);
    ValBounds(256, upto[z..]);
    PowMonotone(256, i + 1 - z, |bin| - z);
    LengthBound(|bin| - z);
    ValBounds(58, now);
    if carry >= 1 {
      MulMonotone(1, carry, Pow(58, size));
      assert false;
    }
  }

  method AddByte(buf: array<int>, high: int, ghost bin: seq<byte>, ghost z: nat, ghost i: nat, b: byte)
    returns (low: int)
    requires z <= i < |bin| && b == bin[i] && (forall k :: 0 <= k < z ==> bin[k] == 0)
    requires buf.Length == (|bin| - z) * 138 / 100 + 1
    requires -1 <= high < buf.Length && ZeroUpTo(buf[..], high)
    requires Digits(58, buf[..]) && Val(58, buf[..]) == Val(256, bin[..i])
    modifies buf
    ensures -1 <= low <= high && ZeroUpTo(buf[..], low)
    ensures Digits(58, buf[..]) && Val(58, buf[..]) == Val(256, bin[..i + 1])
  {
    ghost var was := buf[..];
    var size := buf.Length;
    var carry: int := b;
    var j := size - 1;
    assert buf[..][size..] == [] && was[size..] == [];
    while j > high || carry != 0
      invariant -1 <= j < size && carry >= 0
      invariant Digits(58, buf[..])
      invariant PartlyAdded(58, 256, buf[..], was, j, carry, b)
      decreases j
    {
      if j == -1 {
        assert buf[..][0..] == buf[..] && was[0..] == was;
        NoCarryOut(bin, z, i, size, carry, buf[..], was);
        assert false;
      }
      ghost var before := buf[..];
      carry := carry + 256 * buf[j];
      buf[j] := carry % 58;
      Turn(58, 256, carry / 58, carry % 58, carry - 256 * before[j], was, before, j, b);
      assert buf[..] == before[j := carry % 58];
      carry := carry / 58;
      j := j - 1;
    }
    low := j;
    AddByteDone(bin, i, j, was, buf[..]);
  }

  lemma AddByteDone(bin: seq<byte>, i: nat, j: int, was: seq<int>, now: seq<int>)
    requires i < |bin| && -1 <= j < |now| == |was|
    requires PartlyAdded(58, 256, now, was, j, 0, bin[i]) && ZeroUpTo(was, j)
    requires Val(58, was) == Val(256, bin[..i])
    ensures ZeroUpTo(now, j) && Val(58, now) == Val(256, bin[..i + 1])
  {
    forall k | 0 <= k <= j ensures now[k] == 0 {
      assert now[k] == now[..j + 1][k] == was[..j + 1][k] == was[k];
    }
    ValZeros(58, now, j + 1);
    ValZeros(58, was, j + 1);
    assert bin[..i + 1] == bin[..i] + [bin[i]];
    ValSnoc(256, bin[..i], bin[i]);
  }

  /** The buffer after all bytes are added; `j` is its first nonzero digit. */
  method ToDigits(bin: seq<byte>) returns (zcount: nat, buf: array<int>, j: nat)
    ensures fresh(buf) && j <= buf.Length && Digits(58, buf[j..])
    ensures Digits(58, buf[..]) && Val(58, buf[..]) == Val(256, bin)
    ensures ZeroUpTo(buf[..], j - 1) && (j < buf.Length ==> buf[j] != 0)
    ensures EncodeSpec(bin) == Ones(zcount) + Letters(buf[j..])
  {
    hide Val, Shortest, Letters, Ones, LeadingZeros, EncodeSpec;
    zcount := 0;
    while zcount < |bin| && bin[zcount] == 0
      invariant zcount <= |bin|
      invariant forall k :: 0 <= k < zcount ==> bin[k] == 0
    {
      zcount := zcount + 1;
    }
    var size := (|bin| - zcount) * 138 / 100 + 1;
    buf := new int[size](_ => 0);
    ValAllZero(58, buf[..]);
    ValAllZero(256, bin[..zcount]);
    var i, high := zcount, size - 1;
    while i < |bin|
      invariant zcount <= i <= |bin| && -1 <= high < size
      invariant ZeroUpTo(buf[..], high) && Digits(58, buf[..])
      invariant Val(58, buf[..]) == Val(256, bin[..i])
    {
      high := AddByte(buf, high, bin, zcount, i, bin[i]);
      i := i + 1;
    }
    assert bin[..i] == bin;
    j := 0;
    while j < size && buf[j] == 0
      invariant j <= size
      invariant forall k :: 0 <= k < j ==> buf[k] == 0
    {
      j := j + 1;
    }
    assert buf[..][j..] == buf[j..];
    EncodeResult(bin, zcount, buf[..], j);
  }

  /** What is left in the buffer is the encoding. */
  lemma EncodeResult(bin: seq<byte>, z: nat, buf: seq<int>, j: nat)
    requires z <= |bin| && (forall k :: 0 <= k < z ==> bin[k] == 0)
    requires z < |bin| ==> bin[z] != 0
    requires Digits(58, buf) && Val(58, buf) == Val(256, bin)
    requires j <= |buf| && (forall k :: 0 <= k < j ==> buf[k] == 0)
    requires j < |buf| ==> buf[j] != 0
    ensures Digits(58, buf[j..])
    ensures EncodeSpec(bin) == Ones(z) + Letters(buf[j..])
  {
    LeadingZerosUnique(bin, z);
    ValZeros(58, buf, j);
    var d := buf[j..];
    ShortestUnique(58, d);
  }

  /** An int in a comparison with a size_t: a negative one counts as very large. */
  function AsSize(n: int): (s: int)
  {
    if n < 0 then n + 0x1_0000_0000_0000_0000 else n
  }

  /** `b58_encode`: the base-58 digits of the number, least significant last, in a
      buffer whose untouched front part is bounded by a moving high-water mark. A negative size is
      not refused; the text is written all the same. */
  method Encode(b58: array<byte>, b58sz: int, bin: seq<byte>) returns (ok: bool, sz: int)
    requires -0x8000_0000 <= b58sz <= b58.Length
    requires b58sz < 0 ==> |EncodeSpec(bin)| < b58.Length
    modifies b58
    ensures ok <==> |bin| <= MAX_BINSZ && |EncodeSpec(bin)| < AsSize(b58sz)
    ensures ok ==> sz == |EncodeSpec(bin)| && b58[..sz] == EncodeSpec(bin) && b58[sz] == 0
    ensures ok ==> b58[sz + 1..] == old(b58[sz + 1..])
    ensures !ok ==> b58[..] == old(b58[..])
    ensures !ok ==> sz == if |bin| > MAX_BINSZ then b58sz else |EncodeSpec(bin)| + 1
  {
    hide Val, Shortest, EncodeSpec, Digits, ZeroUpTo;
    if |bin| > MAX_BINSZ {
      return false, b58sz;
    }
    var zcount, buf, j := ToDigits(bin);
    ghost var text := EncodeSpec(bin);
    if AsSize(b58sz) <= zcount + buf.Length - j {
      return false, zcount + buf.Length - j + 1;
    }
    Emit(b58, zcount, buf, j, text);
    return true, zcount + buf.Length - j;
  }

  method Emit(b58: array<byte>, zcount: nat, buf: array<int>, start: nat, ghost text: seq<byte>)
    requires start <= buf.Length && Digits(58, buf[start..])
    requires text == Ones(zcount) + Letters(buf[start..]) && |text| < b58.Length
    requires b58 as object != buf
    modifies b58
    ensures b58[..|text|] == text && b58[|text|] == 0
    ensures b58[|text| + 1..] == old(b58[|text| + 1..])
  {
    var i := 0;
    while i < zcount
      invariant 0 <= i <= zcount
      invariant forall k :: 0 <= k < i ==> b58[k] == text[k]
      invariant forall k :: i <= k < b58.Length ==> b58[k] == old(b58[k])
    {
      b58[i] := ONE;
      i := i + 1;
    }
    var j := start;
    while j < buf.Length
      invariant start <= j <= buf.Length && i == zcount + j - start
      invariant forall k :: 0 <= k < i ==> b58[k] == text[k]
      invariant forall k :: i <= k < b58.Length ==> b58[k] == old(b58[k])
    {
      assert buf[j] == buf[start..][j - start];
      b58[i] := DigitChar(buf[j]);
      i, j := i + 1, j + 1;
    }
    b58[i] := 0;
  }

  lemma {:induction false} LeadingZerosUnique(bin: seq<int>, z: nat)
    requires z <= |bin| && (forall k :: 0 <= k < z ==> bin[k] == 0)
    requires z < |bin| ==> bin[z] != 0
    ensures LeadingZeros(bin) == z
  {
    if z > 0 {
      LeadingZerosUnique(bin[1..], z - 1);
    }
  }

  // ----- decoder -----

  const LIMB := 0x1_0000_0000

  function StrLen(s: seq<byte>): (n: nat)
    requires 0 in s
    ensures n < |s| && s[n] == 0 && 0 !in s[..n]
  {
    if s[0] == 0 then 0 else
      var n := StrLen(s[1..]);
      assert s[..n + 1] == [s[0]] + s[1..][..n];
      n + 1
  }

  /** The text to decode: `b58sz` bytes, or up to the terminating 0 when `b58sz` is 0. */
  function Input(b58: seq<byte>, b58sz: nat): (text: seq<byte>)
    requires b58sz <= |b58| && (b58sz == 0 ==> 0 in b58)
  {
    if b58sz == 0 then b58[..StrLen(b58)] else b58[..b58sz]
  }

  ghost predicate Fits(text: seq<byte>, room: nat)
  {
    AllDigits(text) && Number(text) < Pow(256, room)
  }

  /** What a buffer of a given size can take: one place is for the final 0, and one is not enough. */
  ghost predicate Accepts(text: seq<byte>, size: int)
  {
    size > 1 && Fits(text, size - 1)
  }

  /** The encoding of a byte string can be decoded in a buffer if and only if the buffer has two places or
      more and holds what is left of the string without its leading zeros, and the final 0. */
  lemma EncodingFits(bin: seq<byte>, size: int)
    ensures Accepts(EncodeSpec(bin), size) <==> size > 1 && |bin| - LeadingZeros(bin) < size
  {
    if size > 1 {
      EncodingRoom(bin, size - 1);
    }
  }

  lemma EncodingRoom(bin: seq<byte>, room: nat)
    ensures Fits(EncodeSpec(bin), room) <==> |bin| - LeadingZeros(bin) <= room
  {
    hide Val, Pow, Number, EncodeSpec;
    EncodeIsDigits(bin);
    var z := LeadingZeros(bin);
    var d := bin[z..];
    ValZeros(256, bin, z);
    ByteValue(d);
    if |d| <= room {
      PowMonotone(256, |d|, room);
    } else {
      LeadingDigitWeight(256, d);
      PowMonotone(256, room, |d| - 1);
    }
  }

  lemma NumberSnoc(text: seq<byte>, i: nat)
    requires i < |text| && AllDigits(text)
    ensures Number(text[..i + 1]) == Number(text[..i]) * 58 + DigitOf(text[i])
  {
    assert DigitValues(text[..i + 1]) == DigitValues(text[..i]) + [DigitOf(text[i])];
    ValSnoc(58, DigitValues(text[..i]), DigitOf(text[i]));
  }

  lemma {:induction false} NumberGrows(text: seq<byte>, i: nat)
    requires i <= |text| && AllDigits(text)
    ensures Number(text[..i]) <= Number(text)
    decreases |text| - i
  {
    if i == |text| {
      assert text[..i] == text;
    } else {
      NumberSnoc(text, i);
      NumberGrows(text, i + 1);
    }
  }

  lemma OnesAreZero(text: seq<byte>, i: nat)
    requires i <= |text| && forall k :: 0 <= k < i ==> text[k] == ONE
    ensures AllDigits(text[..i]) && Number(text[..i]) == 0
  {
    ValAllZero(58, DigitValues(text[..i]));
  }

  lemma LimbPow(n: nat)
    ensures Pow(LIMB, n) == Pow(256, 4 * n)
  {
    if n > 0 {
      LimbPow(n - 1);
      PowAdd(256, 4, 4 * (n - 1));
      assert Pow(256, 4) == LIMB;
    }
  }

  lemma RoomInLimbs(room: nat)
    requires room > 0
    ensures var n := (room + 3) / 4;
            Pow(256, room) == if room % 4 == 0 then Pow(LIMB, n) else Pow(256, room % 4) * Pow(LIMB, n - 1)
  {
    var n := (room + 3) / 4;
    LimbPow(n);
    LimbPow(n - 1);
    PowAdd(256, room % 4, 4 * (n - 1));
    assert room % 4 == 0 ==> 4 * n == room;
    assert room % 4 != 0 ==> room % 4 + 4 * (n - 1) == room;
  }

  /** Without a carry, the top limb alone decides whether the number fits. */
  lemma TopLimbExact(room: nat, limbs: seq<int>)
    requires room > 0 && |limbs| == (room + 3) / 4 && Digits(LIMB, limbs)
    ensures Val(LIMB, limbs) < Pow(256, room) <==> (room % 4 == 0 || limbs[0] < Pow(256, room % 4))
  {
    RoomInLimbs(room);
    ValBounds(LIMB, limbs);
    TopDigitBound(LIMB, limbs, Pow(256, room % 4));
  }

  /** With a carry out of the top limb it never fits. */
  lemma CarryIsTooBig(room: nat, limbs: seq<int>, carry: nat)
    requires room > 0 && |limbs| == (room + 3) / 4 && Digits(LIMB, limbs) && carry > 0
    ensures carry * Pow(LIMB, |limbs|) + Val(LIMB, limbs) >= Pow(256, room)
  {
    LimbPow(|limbs|);
    PowMonotone(256, room, 4 * |limbs|);
    MulMonotone(1, carry, Pow(LIMB, |limbs|));
    ValBounds(LIMB, limbs);
  }

  lemma LimbCarry(x: int, c: int)
    requires 0 <= x < LIMB && 0 <= c < 58
    ensures var t := x * 58 + c;
            && 0 <= t / LIMB < 58 && t / LIMB % 64 == t / LIMB && 0 <= t % LIMB < LIMB
            && t / LIMB * LIMB + t % LIMB == c + 58 * x
  {
  }

  /** Multiplies the limbs by 58 and adds a digit; the mask keeps the whole carry. */
  method MulAddDigit(outi: array<int>, digit: int) returns (carry: int)
    requires 0 <= digit < 58 && Digits(LIMB, outi[..])
    modifies outi
    ensures Digits(LIMB, outi[..]) && 0 <= carry < 58
    ensures carry * Pow(LIMB, outi.Length) + Val(LIMB, outi[..]) == 58 * Val(LIMB, old(outi[..])) + digit
  {
    ghost var was := outi[..];
    carry := digit;
    var j := outi.Length;
    assert outi[..][j..] == [] && was[j..] == [];
    while j > 0
      invariant 0 <= j <= outi.Length && 0 <= carry < 58
      invariant Digits(LIMB, outi[..])
      invariant PartlyAdded(LIMB, 58, outi[..], was, j - 1, carry, digit)
    {
      j := j - 1;
      ghost var before := outi[..];
      LimbCarry(outi[j], carry);
      var t := outi[j] * 58 + carry;
      Turn(LIMB, 58, t / LIMB, t % LIMB, carry, was, before, j, digit);
      carry := t / LIMB % 64;
      outi[j] := t % LIMB;
      assert outi[..] == before[j := t % LIMB];
    }
    assert outi[..][0..] == outi[..] && was[0..] == was;
  }

  /** `b58_decode`. On success the decoded bytes are outb[start..start+len]. */
  method Decode(outb: array<byte>, outbszp: int, b58: seq<byte>, b58sz: nat)
    returns (ok: bool, start: nat, len: int)
    requires outbszp <= outb.Length
    requires b58sz <= |b58| && (b58sz == 0 ==> 0 in b58)
    modifies outb
    ensures ok <==> Accepts(Input(b58, b58sz), outbszp)
    ensures ok ==> start + len == outbszp - 1 && len >= 0 && outb[outbszp - 1] == 0
    ensures ok ==> outb[start..outbszp - 1] == DecodeSpec(Input(b58, b58sz))
    ensures outbszp <= 1 ==> outb[..] == old(outb[..])
    ensures outbszp > 1 ==> outb[outbszp..] == old(outb[outbszp..])
  {
    if outbszp <= 1 {
      return false, 0, outbszp;
    }
    var outbsz := outbszp - 1;
    var text := Input(b58, b58sz);
    outb[outbsz] := 0;
    var outi := new int[(outbsz + 3) / 4](_ => 0);
    var fits := ReadNumber(outi, outbsz, text);
    if !fits {
      return false, 0, outbszp;
    }
    TopLimbExact(outbsz, outi[..]);
    WriteBytes(outb, outbsz, outi[..]);
    start := SkipZeros(outb, outbsz);
    return true, start, outbsz - start;
  }

  /** Start of the shortest byte string within the first `room` bytes. */
  method SkipZeros(outb: array<byte>, room: nat) returns (i: nat)
    requires room < outb.Length
    ensures i <= room && Val(256, outb[..room]) >= 0
    ensures outb[i..room] == Shortest(256, Val(256, outb[..room]))
  {
    i := 0;
    while i < room && outb[i] == 0
      invariant i <= room
      invariant forall k :: 0 <= k < i ==> outb[k] == 0
    {
      i := i + 1;
    }
    ghost var out: seq<int> := outb[..room];
    ValZeros(256, out, i);
    ShortestUnique(256, out[i..]);
    assert out[i..] == outb[i..room];
  }

  /** What the limbs hold after the digits of `text` were read. */
  ghost predicate Holds(limbs: seq<int>, room: nat, text: seq<byte>)
  {
    && Digits(LIMB, limbs) && AllDigits(text)
    && Val(LIMB, limbs) == Number(text) < Pow(256, room)
  }

  /** The digit loop; a failing test means that no continuation could fit. */
  method ReadNumber(outi: array<int>, room: nat, text: seq<byte>) returns (fits: bool)
    requires room > 0 && outi.Length == (room + 3) / 4
    requires forall k :: 0 <= k < outi.Length ==> outi[k] == 0
    modifies outi
    ensures fits <==> Fits(text, room)
    ensures fits ==> Holds(outi[..], room, text)
  {
    var i := 0;
    while i < |text| && text[i] == ONE
      invariant 0 <= i <= |text|
      invariant forall k :: 0 <= k < i ==> text[k] == ONE
    {
      i := i + 1;
    }
    OnesAreZero(text, i);
    ValAllZero(LIMB, outi[..]);
    PowPositive(256, room);
    while i < |text|
      invariant 0 <= i <= |text|
      invariant Holds(outi[..], room, text[..i])
    {
      if text[i] >= 128 || DigitOf(text[i]) == -1 {
        assert !AllDigits(text);
        return false;
      }
      var good := ReadDigit(outi, room, text, i);
      if !good {
        return false;
      }
      i := i + 1;
    }
    assert text[..i] == text;
    return true;
  }

  method ReadDigit(outi: array<int>, room: nat, text: seq<byte>, i: nat) returns (good: bool)
    requires room > 0 && outi.Length == (room + 3) / 4
    requires i < |text| && DigitOf(text[i]) >= 0
    requires Holds(outi[..], room, text[..i])
    modifies outi
    ensures good ==> Holds(outi[..], room, text[..i + 1])
    ensures !good ==> !Fits(text, room)
  {
    ghost var upto := text[..i + 1];
    assert upto == text[..i] + [text[i]] && upto[..i] == text[..i];
    NumberSnoc(upto, i);
    assert upto[..i + 1] == upto;
    if AllDigits(text) {
      NumberGrows(text, i + 1);
    }
    var c := MulAddDigit(outi, DigitOf(text[i]));
    if c != 0 {
      CarryIsTooBig(room, outi[..], c);
      return false;
    }
    TopLimbExact(room, outi[..]);
    var left := room % 4;
    var limit := Pow(256, left);
    PowPositive(256, left);
    LowPart(outi[0], limit);
    if left != 0 && outi[0] - outi[0] % limit != 0 {
      return false;
    }
    return true;
  }

  /** Clearing the low part leaves zero exactly when the value is below the limit. */
  lemma LowPart(x: int, limit: nat)
    requires x >= 0 && limit > 0
    ensures x - x % limit != 0 <==> x >= limit
  {
    if x < limit {
      QuotRem(0, limit, x);
    }
  }

  /** Big-endian bytes of the limbs, the top limb cut to room%4 bytes. */
  method WriteBytes(outb: array<byte>, room: nat, limbs: seq<int>)
    requires 0 < room < outb.Length && |limbs| == (room + 3) / 4
    requires Digits(LIMB, limbs)
    requires room % 4 == 0 || limbs[0] < Pow(256, room % 4)
    modifies outb
    ensures Val(256, outb[..room]) == Val(LIMB, limbs)
    ensures outb[room] == old(outb[room]) && outb[room + 1..] == old(outb[room + 1..])
  {
    hide Val, Pow;
    var u := WriteTopBytes(outb, room % 4, limbs[0]);
    var j := if room % 4 == 0 then 0 else 1;
    TopLimb(limbs, j);
    while j < |limbs|
      invariant 0 <= j <= |limbs| && u == room - 4 * (|limbs| - j)
      invariant Val(256, outb[..u]) == Val(LIMB, limbs[..j])
      invariant forall k :: room <= k < outb.Length ==> outb[k] == old(outb[k])
    {
      WriteLimb(outb, u, limbs[j], room);
      LimbPrefix(limbs, j);
      u, j := u + 4, j + 1;
    }
    assert limbs[..j] == limbs;
  }

  method WriteLimb(outb: array<byte>, u: nat, x: int, ghost room: nat)
    requires u + 4 <= room < outb.Length && 0 <= x < LIMB
    modifies outb
    ensures Val(256, outb[..u + 4]) == Val(256, old(outb[..u])) * LIMB + x
    ensures forall k :: room <= k < outb.Length ==> outb[k] == old(outb[k])
  {
    outb[u] := x / 16777216 % 256;
    outb[u + 1] := x / 65536 % 256;
    outb[u + 2] := x / 256 % 256;
    outb[u + 3] := x % 256;
    FourBytes(old(outb[..u]), x);
    assert outb[..u + 4] == old(outb[..u]) + [x / 16777216 % 256, x / 65536 % 256, x / 256 % 256, x % 256];
  }

  lemma LimbPrefix(limbs: seq<int>, j: nat)
    requires j < |limbs|
    ensures Val(LIMB, limbs[..j + 1]) == Val(LIMB, limbs[..j]) * LIMB + limbs[j]
  {
    assert limbs[..j + 1] == limbs[..j] + [limbs[j]];
    ValSnoc(LIMB, limbs[..j], limbs[j]);
  }

  lemma TopLimb(limbs: seq<int>, j: nat)
    requires j <= 1 && |limbs| > 0
    ensures Val(LIMB, limbs[..j]) == if j == 0 then 0 else limbs[0]
  {
    if j == 1 {
      assert limbs[..1] == [] + [limbs[0]];
      ValSnoc(LIMB, [], limbs[0]);
    }
  }

  /** The falling-through switch on the number of bytes in the top limb. */
  method WriteTopBytes(outb: array<byte>, left: nat, x: int) returns (u: nat)
    requires left < 4 && left < outb.Length && outb.Length >= 2
    requires x >= 0 && (left == 0 || x < Pow(256, left))
    modifies outb
    ensures u == left && Val(256, outb[..u]) == if left == 0 then 0 else x
    ensures forall k :: left <= k < outb.Length ==> outb[k] == old(outb[k])
  {
    u := 0;
    if left == 3 {
      outb[u] := x / 65536 % 256;
      u := u + 1;
    }
    if left >= 2 {
      outb[u] := x / 256 % 256;
      u := u + 1;
    }
    if left >= 1 {
      outb[u] := x % 256;
      u := u + 1;
      TopSplit(x, left);
      TopBytes(outb[..u], x);
    }
  }

  lemma TopBytes(s: seq<int>, x: int)
    requires 1 <= |s| <= 3
    requires |s| == 1 ==> x == s[0]
    requires |s| == 2 ==> x == s[0] * 256 + s[1]
    requires |s| == 3 ==> x == s[0] * 65536 + s[1] * 256 + s[2]
    ensures Val(256, s) == x
  {
    ValShort(256, s);
  }

  lemma TopSplit(x: int, left: nat)
    requires 1 <= left <= 3 && 0 <= x < Pow(256, left)
    ensures left == 1 ==> x == x % 256
    ensures left == 2 ==> x == x / 256 % 256 * 256 + x % 256
    ensures left == 3 ==> x == x / 65536 % 256 * 65536 + x / 256 % 256 * 256 + x % 256
  {
    assert Pow(256, 1) == 256 && Pow(256, 2) == 65536 && Pow(256, 3) == 16777216;
    LimbSplit(x);
  }

  lemma FourBytes(s: seq<int>, x: int)
    requires 0 <= x < LIMB
    ensures Val(256, s + [x / 16777216 % 256, x / 65536 % 256, x / 256 % 256, x % 256]) == Val(256, s) * LIMB + x
  {
    var a, b, c, d := x / 16777216 % 256, x / 65536 % 256, x / 256 % 256, x % 256;
    assert s + [a, b, c, d] == s + [a] + [b] + [c] + [d];
    ValSnoc(256, s, a);
    ValSnoc(256, s + [a], b);
    ValSnoc(256, s + [a] + [b], c);
    ValSnoc(256, s + [a] + [b] + [c], d);
    LimbSplit(x);
  }

  lemma LimbSplit(x: int)
    requires 0 <= x < LIMB
    ensures x == x / 16777216 % 256 * 16777216 + x / 65536 % 256 * 65536 + x / 256 % 256 * 256 + x % 256
  {
    var y := x / 256;
    var z := y / 256;
    assert z == x / 65536 && z / 256 == x / 16777216 < 256;
    assert x == y * 256 + x % 256 && y == z * 256 + y % 256 && z == z / 256 * 256 + z % 256;
  }
}
