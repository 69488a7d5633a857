/**
 * The byte-level half of str_to_int and int_to_str: big-endian conversion
 * between byte strings and non-negative integers (OS2IP and I2OSP of
 * sections 4.2 and 4.1 of RFC 8017), with int_to_str's minimal length
 * (bit_length + 7) // 8.
 */
module Octets {
  import opened Wrappers
  import opened NumberTheory

  type Byte = x: int | 0 <= x < 256

  /** int.from_bytes(s, "big"): the byte string read as a base-256 numeral. */
  function BytesToInt(s: seq<Byte>): (i: nat)
    ensures i < Pow(256, |s|)
  {
    if s == [] then 0 else BytesToInt(s[..|s| - 1]) * 256 + s[|s| - 1]
  }

  /** int.bit_length(): the number of binary digits of i, and 0 for 0. */
  function BitLength(i: nat): (b: nat)
    ensures i < Pow(2, b)
    ensures i > 0 ==> b >= 1 && Pow(2, b - 1) <= i
    ensures b == 0 <==> i == 0
  {
    if i == 0 then 0
    else
      var b := BitLength(i / 2);
      HalveBounds(i, b);
      1 + b
  }

  /** Doubling the bounds on i / 2 gives bounds on i one bit longer. */
  lemma HalveBounds(i: nat, b: nat)
    requires i > 0 && i / 2 < Pow(2, b)
    requires b == 0 <==> i / 2 == 0
    requires i / 2 > 0 ==> Pow(2, b - 1) <= i / 2
    ensures i < Pow(2, b + 1) && Pow(2, b) <= i
  {
    var w := Pow(2, b);
    assert Pow(2, b + 1) == 2 * w;
    assert i == 2 * (i / 2) + i % 2;
    if b > 0 {
      assert w == 2 * Pow(2, b - 1);
    }
  }

  /**
   * x.to_bytes(len, "big"): x as exactly len big-endian bytes, or None where
   * Python raises OverflowError because x does not fit.
   */
  function I2OSP(x: nat, len: nat): (r: Option<seq<Byte>>)
    ensures r.Some? <==> x < Pow(256, len)
    ensures r.Some? ==> |r.value| == len && BytesToInt(r.value) == x
  {
    if len == 0 then
      if x == 0 then Some([]) else None
    else
      match I2OSP(x / 256, len - 1)
      case None => None
      case Some(s) =>
        assert (s + [x % 256])[..len - 1] == s;
        Some(s + [x % 256])
  }

  /** 256 ** len == 2 ** (8 * len). */
  lemma BytePower(len: nat)
    ensures Pow(256, len) == Pow(2, 8 * len)
  {
    PowMul(2, 8, len);
  }

  /** int_to_str's length (bit_length + 7) // 8 always leaves room for i. */
  lemma FitsInByteLength(i: nat)
    ensures i < Pow(256, ByteLength(i))
  {
    var b := BitLength(i);
    var len := (b + 7) / 8;
    assert b <= 8 * len by { ByteCountBounds(b, len); }
    assert Pow(256, len) == Pow(2, 8 * len) by { BytePower(len); }
    assert Pow(2, b) <= Pow(2, 8 * len) by { PowMonotone(2, b, 8 * len); }
  }

  /** Reading a byte string splits off its first byte at weight 256 ** (|s| - 1). */
  lemma {:induction false} BytesToIntFirst(s: seq<Byte>)
    requires s != []
    ensures BytesToInt(s) == s[0] * Pow(256, |s| - 1) + BytesToInt(s[1..])
  {
    var n := |s|;
    if n == 1 {
      assert s[..0] == [] && s[1..] == [];
    } else {
      var t := s[..n - 1];
      BytesToIntFirst(t);
      assert t[1..] == s[1..][..n - 2];
      var w := Pow(256, n - 2);
      assert Pow(256, n - 1) == 256 * w;
      calc {
        BytesToInt(s);
        BytesToInt(t) * 256 + s[n - 1];
        (s[0] * w + BytesToInt(t[1..])) * 256 + s[n - 1];
        { ShiftByte(s[0], w, BytesToInt(t[1..]), s[n - 1]); }
        s[0] * (256 * w) + (BytesToInt(s[1..][..n - 2]) * 256 + s[n - 1]);
        s[0] * Pow(256, n - 1) + BytesToInt(s[1..]);
      }
    }
  }

  lemma ShiftByte(a: int, w: int, rest: int, last: int)
    ensures (a * w + rest) * 256 + last == a * (256 * w) + (rest * 256 + last)
  {
  }

  /** int_to_str's byte count: (i.bit_length() + 7) // 8. */
  function ByteLength(i: nat): nat
  {
    (BitLength(i) + 7) / 8
  }

  /**
   * int_to_str's byte string: i.to_bytes((i.bit_length() + 7) // 8, "big").
   * It reads back as i, is empty exactly for 0 and otherwise has no leading
   * zero byte.
   */
  function IntToBytes(i: nat): (s: seq<Byte>)
    ensures BytesToInt(s) == i
    ensures |s| == ByteLength(i)
    ensures s == [] <==> i == 0
    ensures s != [] ==> s[0] != 0
  {
    FitsInByteLength(i);
    var s := I2OSP(i, ByteLength(i)).value;
    LeadingByteNonZero(i, s);
    s
  }

  lemma LeadingByteNonZero(i: nat, s: seq<Byte>)
    requires |s| == ByteLength(i) && BytesToInt(s) == i
    ensures s != [] ==> s[0] != 0
  {
    if s != [] && s[0] == 0 {
      BytesToIntFirst(s);
      assert i < Pow(256, |s| - 1) by {
        assert |s[1..]| == |s| - 1;
      }
      SmallestLength(i, |s|);
    }
  }

  /** A positive i needs all (bit_length + 7) // 8 bytes: it is at least 256 ** (n - 1). */
  lemma SmallestLength(i: nat, n: nat)
    requires n >= 1 && n == ByteLength(i)
    ensures Pow(256, n - 1) <= i
  {
    var b := BitLength(i);
    ByteCountBounds(b, n);
    PowerBelowBits(i, b, n - 1);
  }

  /** A number with b bits is at least 256 ** k once 8 * k < b. */
  lemma PowerBelowBits(i: nat, b: nat, k: nat)
    requires b >= 1 && 8 * k <= b - 1 && Pow(2, b - 1) <= i
    ensures Pow(256, k) <= i
  {
    BytePower(k);
    PowMonotone(2, 8 * k, b - 1);
  }

  /** The length (b + 7) // 8 is the least n with b <= 8 * n. */
  lemma ByteCountBounds(b: nat, n: nat)
    requires n == (b + 7) / 8
    ensures b <= 8 * n
    ensures n >= 1 ==> b >= 1 && 8 * (n - 1) <= b - 1
  {
  }

  lemma ByteCountExact(b: nat, n: nat)
    requires 8 * (n - 1) < b <= 8 * n
    ensures (b + 7) / 8 == n
  {
  }

  /** I2OSP undoes OS2IP at the byte string's own length. */
  lemma {:induction false} I2OSPOfBytes(s: seq<Byte>)
    ensures I2OSP(BytesToInt(s), |s|) == Some(s)
  {
    if s != [] {
      var n := |s|;
      var t := s[..n - 1];
      I2OSPOfBytes(t);
      DivModUnique(BytesToInt(s), 256, BytesToInt(t), s[n - 1]);
      assert s == t + [s[n - 1]];
    }
  }

  /**
   * int_to_str(str_to_int(b)) == b at the byte level, for every byte string
   * that is empty or does not start with a zero byte.
   */
  lemma BytesRoundTrip(s: seq<Byte>)
    requires s == [] || s[0] != 0
    ensures IntToBytes(BytesToInt(s)) == s
  {
    var i := BytesToInt(s);
    I2OSPOfBytes(s);
    if s != [] {
      var w := Pow(256, |s| - 1);
      assert i == s[0] * w + BytesToInt(s[1..]) by { BytesToIntFirst(s); }
      assert w <= s[0] * w by {
        PowPositive(256, |s| - 1);
        MulAtLeast(w, s[0]);
      }
      LengthOfBytes(i, |s|);
    }
    assert ByteLength(i) == |s|;
  }

  /** A number in [256 ** (n - 1), 256 ** n) has byte length n. */
  lemma LengthOfBytes(i: nat, n: nat)
    requires n >= 1 && Pow(256, n - 1) <= i < Pow(256, n)
    ensures ByteLength(i) == n
  {
    var b := BitLength(i);
    BytePower(n - 1);
    BytePower(n);
    if b > 8 * n {
      PowMonotone(2, 8 * n, b - 1);
    }
    if b <= 8 * (n - 1) {
      PowMonotone(2, b, 8 * (n - 1));
    }
    ByteCountExact(b, n);
  }

  /** A leading zero byte is lost: the byte string [0] comes back empty. */
  lemma LeadingZeroLost()
    ensures BytesToInt([0]) == 0 && IntToBytes(BytesToInt([0])) == []
  {
    assert [0][..0] == [];
  }

  /** The bytes of "Hi" are the integer 18537 (0x4869), and back. */
  lemma HiExample()
    ensures BytesToInt([72, 105]) == 18537
    ensures IntToBytes(18537) == [72, 105]
  {
    var s: seq<Byte> := [72, 105];
    assert BytesToInt(s) == 18537 by {
      assert s[..1] == [72] && [72][..0] == [];
    }
    BytesRoundTrip(s);
  }
}
