/** Bytes, unsigned 64-bit words, big-endian encoding and the NUL trimming of
    the manifest header. */
module Words {

  type byte = x: int | 0 <= x < 256

  const TWO_TO_64: int := 0x1_0000_0000_0000_0000
  const TWO_TO_63: int := 0x8000_0000_0000_0000

  type uint64 = x: int | 0 <= x < 0x1_0000_0000_0000_0000

  /** Go's conversion `int64(x)` of an unsigned 64-bit value: values with the
      top bit set become negative. */
  function Int64Of(x: uint64): (r: int)
    ensures -TWO_TO_63 <= r < TWO_TO_63
    ensures r % TWO_TO_64 == x
    ensures r == x <==> x < TWO_TO_63
  {
    if x < TWO_TO_63 then x else x - TWO_TO_64
  }

  function Pow256(n: nat): (p: nat)
    ensures p > 0
  {
    if n == 0 then 1 else 256 * Pow256(n - 1)
  }

  /** Eight bytes hold exactly the uint64 range (Pow256 unfolds eight times). */
  lemma Pow256Eight()
    ensures Pow256(8) == TWO_TO_64
  {
  }

  /** The unsigned value of a big-endian byte string. */
  function FromBigEndian(s: seq<byte>): (x: nat)
    ensures x < Pow256(|s|)
  {
    if s == [] then 0
    else
      var hi := FromBigEndian(s[..|s| - 1]);
      assert hi * 256 <= (Pow256(|s| - 1) - 1) * 256;
      hi * 256 + s[|s| - 1]
  }

  /** The n-byte big-endian encoding of x. */
  function ToBigEndian(x: nat, n: nat): (s: seq<byte>)
    requires x < Pow256(n)
    ensures |s| == n
    ensures FromBigEndian(s) == x
  {
    if n == 0 then []
    else
      var s := ToBigEndian(x / 256, n - 1) + [x % 256];
      assert s[..|s| - 1] == ToBigEndian(x / 256, n - 1);
      s
  }

  /** The 8-byte encoding binary.Write gives a uint64 in big-endian order. */
  function EncodeUint64(x: uint64): (s: seq<byte>)
    ensures |s| == 8
    ensures DecodeUint64(s) == x
  {
    Pow256Eight();
    ToBigEndian(x, 8)
  }

  /** The uint64 that binary.Read decodes from 8 big-endian bytes. */
  function DecodeUint64(s: seq<byte>): (x: uint64)
    requires |s| == 8
    ensures x == FromBigEndian(s)
  {
    Pow256Eight();
    FromBigEndian(s)
  }

  /** Encoding the value of a big-endian string gives the string back. */
  lemma {:induction false} BigEndianRoundTrip(s: seq<byte>)
    ensures ToBigEndian(FromBigEndian(s), |s|) == s
  {
    if s != [] {
      var init := s[..|s| - 1];
      BigEndianRoundTrip(init);
      var x := FromBigEndian(s);
      assert x / 256 == FromBigEndian(init);
      assert x % 256 == s[|s| - 1];
      assert s == init + [s[|s| - 1]];
    }
  }

  /** Decoding reads exactly the 8 bytes: encoding the result gives them back. */
  lemma DecodeUint64Inverse(s: seq<byte>)
    requires |s| == 8
    ensures EncodeUint64(DecodeUint64(s)) == s
  {
    BigEndianRoundTrip(s);
  }

  function Zeros(n: nat): (z: seq<byte>)
    ensures |z| == n
    ensures forall k :: 0 <= k < n ==> z[k] == 0
  {
    if n == 0 then [] else Zeros(n - 1) + [0]
  }

  /** A name with no NUL byte at either end. */
  predicate NulFree(name: seq<byte>)
  {
    name == [] || (name[0] != 0 && name[|name| - 1] != 0)
  }

  /** s is name placed at offset i and surrounded by NUL bytes only. */
  predicate PaddedAt(s: seq<byte>, name: seq<byte>, i: nat)
  {
    i + |name| <= |s| && s[i..i + |name|] == name &&
    (forall k :: 0 <= k < i ==> s[k] == 0) &&
    (forall k :: i + |name| <= k < |s| ==> s[k] == 0)
  }

  /** bytes.TrimLeft(s, "\x00"). */
  function TrimLeadingNul(s: seq<byte>): seq<byte>
  {
    if s != [] && s[0] == 0 then TrimLeadingNul(s[1..]) else s
  }

  /** bytes.TrimRight(s, "\x00"). */
  function TrimTrailingNul(s: seq<byte>): seq<byte>
  {
    if s != [] && s[|s| - 1] == 0 then TrimTrailingNul(s[..|s| - 1]) else s
  }

  /** TrimLeft keeps a suffix that does not start with NUL, and drops only
      NUL bytes. */
  lemma {:induction false} TrimLeadingNulFacts(s: seq<byte>)
    ensures var r := TrimLeadingNul(s);
      |r| <= |s| && r == s[|s| - |r|..] &&
      (forall k :: 0 <= k < |s| - |r| ==> s[k] == 0) &&
      (r == [] || r[0] != 0)
  {
    if s != [] && s[0] == 0 {
      TrimLeadingNulFacts(s[1..]);
      var r := TrimLeadingNul(s[1..]);
      assert s[1..][|s| - 1 - |r|..] == s[|s| - |r|..];
      assert forall k :: 1 <= k < |s| - |r| ==> s[k] == s[1..][k - 1];
    }
  }

  /** TrimRight keeps a prefix that does not end with NUL, and drops only
      NUL bytes. */
  lemma {:induction false} TrimTrailingNulFacts(s: seq<byte>)
    ensures var r := TrimTrailingNul(s);
      |r| <= |s| && r == s[..|r|] &&
      (forall k :: |r| <= k < |s| ==> s[k] == 0) &&
      (r == [] || r[|r| - 1] != 0)
  {
    if s != [] && s[|s| - 1] == 0 {
      TrimTrailingNulFacts(s[..|s| - 1]);
      var r := TrimTrailingNul(s[..|s| - 1]);
      assert s[..|s| - 1][..|r|] == s[..|r|];
    }
  }

  /** bytes.Trim(s, "\x00"). */
  function TrimNul(s: seq<byte>): (r: seq<byte>)
    ensures NulFree(r)
  {
    var left := TrimLeadingNul(s);
    TrimLeadingNulFacts(s);
    TrimTrailingNulFacts(left);
    var r := TrimTrailingNul(left);
    assert r == [] || r[0] == left[0];
    r
  }

  /** What trimming keeps is the middle of s: everything before and after
      it is NUL. */
  lemma TrimNulPadded(s: seq<byte>)
    ensures exists i :: PaddedAt(s, TrimNul(s), i)
  {
    var left := TrimLeadingNul(s);
    TrimLeadingNulFacts(s);
    TrimTrailingNulFacts(left);
    var r := TrimTrailingNul(left);
    assert r == TrimNul(s);
    var i := |s| - |left|;
    assert s[i..i + |r|] == left[..|r|];
    forall k | i + |r| <= k < |s| ensures s[k] == 0 {
      assert s[k] == left[k - i];
    }
    assert PaddedAt(s, r, i);
  }

  lemma {:induction false} TrimLeadingOfZeros(a: nat, rest: seq<byte>)
    requires rest == [] || rest[0] != 0
    ensures TrimLeadingNul(Zeros(a) + rest) == rest
  {
    if a == 0 {
      assert Zeros(a) + rest == rest;
    } else {
      var s := Zeros(a) + rest;
      ZerosCons(a);
      assert s == [0] + (Zeros(a - 1) + rest);
      assert s[1..] == Zeros(a - 1) + rest;
      TrimLeadingOfZeros(a - 1, rest);
    }
  }

  lemma {:induction false} TrimTrailingOfZeros(rest: seq<byte>, b: nat)
    requires rest == [] || rest[|rest| - 1] != 0
    ensures TrimTrailingNul(rest + Zeros(b)) == rest
  {
    if b > 0 {
      var s := rest + Zeros(b);
      assert s[|s| - 1] == 0;
      assert s[..|s| - 1] == rest + Zeros(b - 1);
      TrimTrailingOfZeros(rest, b - 1);
    } else {
      assert rest + Zeros(b) == rest;
    }
  }

  lemma {:induction false} ZerosCons(n: nat)
    requires n > 0
    ensures Zeros(n) == [0] + Zeros(n - 1)
  {
    if n > 1 {
      ZerosCons(n - 1);
    }
  }

  /** Header round trip: a name with no NUL at either end, padded with any
      number of NUL bytes on either side, trims back to that name. */
  lemma {:induction false} TrimPadded(a: nat, name: seq<byte>, b: nat)
    requires NulFree(name)
    ensures TrimNul(Zeros(a) + name + Zeros(b)) == name
  {
    if name == [] {
      assert Zeros(a) + name + Zeros(b) == Zeros(a + b);
      assert Zeros(a + b) == Zeros(a + b) + [];
      TrimLeadingOfZeros(a + b, []);
      assert TrimLeadingNul(Zeros(a + b)) == [];
    } else {
      assert Zeros(a) + name + Zeros(b) == Zeros(a) + (name + Zeros(b));
      TrimLeadingOfZeros(a, name + Zeros(b));
      TrimTrailingOfZeros(name, b);
    }
  }
}
