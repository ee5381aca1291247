/** The additive checksum of src/checksum.cpp. */
module Checksum {
  import opened Bytes

  /** The unbounded sum of all bytes; the firmware keeps it modulo 256. */
  function Sum(s: seq<Byte>): nat {
    if s == [] then 0 else Sum(s[..|s| - 1]) + s[|s| - 1]
  }

  /** `checksum8`: running 8-bit sum, negated modulo 256; by `Complement`, it closes `data` to a zero sum. */
  method Checksum8(data: seq<Byte>) returns (r: Byte)
    ensures r == Complement(data) && (Sum(data) + r) % 256 == 0
  {
    var sum: Byte := 0;
    for i := 0 to |data|
      invariant sum == Sum(data[..i]) % 256
    {
      assert data[..i + 1][..i] == data[..i];
      AddModulo(Sum(data[..i]), data[i]);
      sum := (sum + data[i]) % 256;
    }
    assert data[..|data|] == data;
    NegateModulo(Sum(data));
    r := (0 - sum) % 256;
  }

  /** `verify_checksum8`: non-empty, and all bytes sum to zero modulo 256. */
  method VerifyChecksum8(data: seq<Byte>) returns (ok: bool)
    ensures ok <==> Balanced(data)
    ensures ok <==> data != [] && Sum(data) % 256 == 0
  {
    if |data| == 0 {
      return false;
    }
    var sum: Byte := 0;
    for i := 0 to |data|
      invariant sum == Sum(data[..i]) % 256
    {
      assert data[..i + 1][..i] == data[..i];
      AddModulo(Sum(data[..i]), data[i]);
      sum := (sum + data[i]) % 256;
    }
    assert data[..|data|] == data;
    ok := sum == 0;
  }

  lemma AddModulo(x: nat, b: Byte)
    ensures (x % 256 + b) % 256 == (x + b) % 256
  {
  }

  lemma NegateModulo(x: nat)
    ensures (0 - x % 256) % 256 == (0 - x) % 256
  {
  }

  predicate Balanced(s: seq<Byte>) {
    s != [] && Sum(s) % 256 == 0
  }

  /** The one byte that balances `s`. */
  function Complement(s: seq<Byte>): (c: Byte)
    ensures (Sum(s) + c) % 256 == 0
  {
    (0 - Sum(s)) % 256
  }

  lemma {:induction false} SumAppend(a: seq<Byte>, b: seq<Byte>)
    ensures Sum(a + b) == Sum(a) + Sum(b)
  {
    if b == [] {
      assert a + b == a;
    } else {
      var b' := b[..|b| - 1];
      assert (a + b)[..|a + b| - 1] == a + b';
      SumAppend(a, b');
    }
  }

  lemma {:induction false} SumUpdate(s: seq<Byte>, i: nat, v: Byte)
    requires i < |s|
    ensures Sum(s[i := v]) == Sum(s) - s[i] + v
  {
    var n := |s| - 1;
    if i == n {
      assert s[i := v][..n] == s[..n];
    } else {
      assert s[i := v][..n] == s[..n][i := v];
      SumUpdate(s[..n], i, v);
    }
  }

  /** A byte closes a buffer to a zero sum exactly when it is the checksum. */
  lemma BalancedByComplement(s: seq<Byte>, c: Byte)
    ensures Balanced(s + [c]) <==> c == Complement(s)
  {
  }
}
