/** Bit packing. The bit string is read as an unsigned base-2 integer and
    written out big-endian in the fewest whole bytes that can hold as many
    bits as the string has; the value is therefore right-aligned, and any
    padding zeros sit in the high bits of the first byte. Unpacking reads
    the bytes back as an integer, writes it in base 2 without leading zeros
    and left-pads it with zeros to the recorded length. */
module Packing {
  import opened Results
  import opened Bits

  function Pow2(n: nat): (r: nat)
    ensures 1 <= r
  {
    if n == 0 then 1 else 2 * Pow2(n - 1)
  }

  function Pow256(n: nat): (r: nat)
    ensures 1 <= r
  {
    if n == 0 then 1 else 256 * Pow256(n - 1)
  }

  lemma {:induction false} Pow256IsPow2(n: nat)
    ensures Pow256(n) == Pow2(8 * n)
  {
    if 0 < n {
      Pow256IsPow2(n - 1);
      assert Pow2(8 * n) == 256 * Pow2(8 * (n - 1)) by {
        var m := 8 * (n - 1);
        assert Pow2(m + 8) == 2 * Pow2(m + 7) == 4 * Pow2(m + 6) == 8 * Pow2(m + 5);
        assert Pow2(m + 5) == 2 * Pow2(m + 4) == 4 * Pow2(m + 3) == 8 * Pow2(m + 2);
        assert Pow2(m + 2) == 2 * Pow2(m + 1) == 4 * Pow2(m);
      }
    }
  }

  lemma {:induction false} Pow2Monotone(a: nat, b: nat)
    requires a <= b
    ensures Pow2(a) <= Pow2(b)
    decreases b
  {
    if a < b {
      Pow2Monotone(a, b - 1);
    }
  }

  /** The bits as an unsigned base-2 numeral, most significant bit first. */
  function BitsValue(bits: Code): (v: nat)
    ensures v < Pow2(|bits|)
  {
    if |bits| == 0 then 0 else 2 * BitsValue(bits[..|bits| - 1]) + bits[|bits| - 1]
  }

  /** The bytes as an unsigned base-256 numeral, most significant first. */
  function BytesValue(data: seq<Byte>): (v: nat)
    ensures v < Pow256(|data|)
  {
    if |data| == 0 then 0 else 256 * BytesValue(data[..|data| - 1]) + data[|data| - 1]
  }

  /** `v` written big-endian in exactly `n` bytes; the value must fit. */
  function ToBytes(v: nat, n: nat): (r: seq<Byte>)
    requires v < Pow256(n)
    ensures |r| == n && BytesValue(r) == v
  {
    if n == 0 then []
    else
      var high := ToBytes(v / 256, n - 1);
      assert (high + [v % 256])[..n - 1] == high;
      high + [v % 256]
  }

  /** `v` in base 2 without leading zeros; zero is the single digit 0. */
  function Binary(v: nat): (r: Code)
    ensures 1 <= |r| && BitsValue(r) == v
    ensures r[0] == 0 ==> r == [0]
  {
    if v < 2 then [v]
    else
      var high := Binary(v / 2);
      assert (high + [v % 2])[..|high|] == high;
      high + [v % 2]
  }

  /** A value below `2^L` needs at most `L` binary digits. */
  lemma {:induction false} BinaryLength(v: nat, L: nat)
    requires 1 <= L && v < Pow2(L)
    ensures |Binary(v)| <= L
  {
    assert Pow2(1) == 2;
    if 2 <= v {
      BinaryLength(v / 2, L - 1);
    }
  }

  function Zeros(n: nat): (r: Code)
    ensures |r| == n && forall i :: 0 <= i < n ==> r[i] == 0
  {
    seq(n, i => 0)
  }

  /** Leading zeros do not change a numeral's value. */
  lemma {:induction false} LeadingZeros(n: nat, s: Code)
    ensures BitsValue(Zeros(n) + s) == BitsValue(s)
    decreases |s|
  {
    if |s| == 0 {
      assert Zeros(n) + s == Zeros(n);
      ZerosValue(n);
    } else {
      var t := Zeros(n) + s;
      assert t[..|t| - 1] == Zeros(n) + s[..|s| - 1];
      LeadingZeros(n, s[..|s| - 1]);
    }
  }

  lemma {:induction false} ZerosValue(n: nat)
    ensures BitsValue(Zeros(n)) == 0
  {
    if 0 < n {
      assert Zeros(n)[..n - 1] == Zeros(n - 1);
      ZerosValue(n - 1);
    }
  }

  /** Two numerals of the same length with the same value are equal. */
  lemma {:induction false} BitsValueInjective(a: Code, b: Code)
    requires |a| == |b| && BitsValue(a) == BitsValue(b)
    ensures a == b
    decreases |a|
  {
    if 0 < |a| {
      var n := |a| - 1;
      assert a[n] == b[n];
      BitsValueInjective(a[..n], b[..n]);
      assert a == a[..n] + [a[n]];
      assert b == b[..n] + [b[n]];
    }
  }

  /** Left-pads a digit string with zeros to `width`; a string already that
      long is left as it is. */
  function ZFill(s: Code, width: nat): (r: Code)
    ensures |r| == if |s| < width then width else |s|
    ensures BitsValue(r) == BitsValue(s)
  {
    if |s| < width then LeadingZeros(width - |s|, s); Zeros(width - |s|) + s else s
  }

  /** The `ceil(L / 8)` bytes of `L` bits hold every value below `2^L`. */
  lemma PackFits(L: nat)
    ensures Pow2(L) <= Pow256((L + 7) / 8)
  {
    Pow256IsPow2((L + 7) / 8);
    Pow2Monotone(L, 8 * ((L + 7) / 8));
  }

  /** Packs a bit string into `ceil(L / 8)` bytes whose big-endian value is
      the bits' value. The empty string is not a base-2 numeral and is
      refused. */
  function Pack(bits: Code): (r: Result<seq<Byte>>)
    ensures |bits| == 0 <==> r == Err(EmptyBitString)
    ensures r.Ok? ==> |r.value| == (|bits| + 7) / 8
    ensures r.Ok? ==> BytesValue(r.value) == BitsValue(bits)
  {
    if |bits| == 0 then Err(EmptyBitString)
    else
      PackFits(|bits|);
      Ok(ToBytes(BitsValue(bits), (|bits| + 7) / 8))
  }

  /** Reads bytes back into a bit string of at least `length` bits with the
      same value. Zeros are added only up to `length`: a longer result has
      no leading zero, unless it is the single digit 0. */
  function Unpack(data: seq<Byte>, length: nat): (r: Code)
    ensures length <= |r|
    ensures BitsValue(r) == BytesValue(data)
    ensures length < |r| ==> r[0] == 1 || r == [0]
  {
    ZFill(Binary(BytesValue(data)), length)
  }

  /** Unpacking a packed non-empty bit string with its length gives the bit
      string back: the leading zeros lost by the integer reading are
      restored by the padding. */
  lemma PackRoundTrip(bits: Code)
    requires 0 < |bits|
    ensures Pack(bits).Ok?
    ensures Unpack(Pack(bits).value, |bits|) == bits
  {
    var v := BitsValue(bits);
    BinaryLength(v, |bits|);
    BitsValueInjective(Unpack(Pack(bits).value, |bits|), bits);
  }

  /** Appending a digit doubles the value and adds the digit. */
  lemma AppendBit(s: Code, b: Bit)
    ensures BitsValue(s + [b]) == 2 * BitsValue(s) + b
  {
    assert (s + [b])[..|s|] == s;
  }

  lemma NineBitsValue()
    ensures BitsValue([1, 0, 1, 1, 0, 0, 0, 0, 1]) == 353
  {
    var b: Code := [1, 0, 1, 1, 0, 0, 0, 0, 1];
    assert BitsValue(b[..1]) == 1 by {
      assert b[..1][..0] == [];
    }
    var expected := [1, 2, 5, 11, 22, 44, 88, 176, 353];
    for k := 1 to 9
      invariant BitsValue(b[..k]) == expected[k - 1]
    {
      assert b[..k + 1] == b[..k] + [b[k]];
      AppendBit(b[..k], b[k]);
    }
    assert b[..9] == b;
  }

  lemma PackNineBits()
    ensures Pack([1, 0, 1, 1, 0, 0, 0, 0, 1]) == Ok([1, 97])
  {
    NineBitsValue();
    assert (9 + 7) / 8 == 2;
    assert Pow256(2) == 65536;
    assert 353 / 256 == 1 && 353 % 256 == 97;
    assert ToBytes(0, 0) == [];
    assert ToBytes(1, 1) == [1];
    assert ToBytes(353, 2) == [1, 97];
  }

  /** The packed value is right-aligned: a single 1 bit packs to the byte 1,
      and nine bits 1 0 1 1 0 0 0 0 1 pack to the bytes 1 and 97. */
  lemma PackRightAligned()
    ensures Pack([1]) == Ok([1])
    ensures Pack([1, 0, 1, 1, 0, 0, 0, 0, 1]) == Ok([1, 97])
  {
    assert BitsValue([1]) == 1 by {
      assert [1][..0] == [];
    }
    assert ToBytes(1, 1) == [1];
    PackNineBits();
  }
}
