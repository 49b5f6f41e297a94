/** Bytes, sums modulo 256 and the zero checksum shared by IPMB frames and FRU areas. */
module Bytes {

  type byte = x: int | 0 <= x < 0x100
  type word = x: int | 0 <= x < 0x1_0000

  datatype Option<+T> = None | Some(value: T)

  /** The mathematical sum; the source's `uint8_t` accumulators hold it modulo 256. */
  function Sum(s: seq<byte>): (r: nat) {
    if s == [] then 0 else Sum(s[..|s| - 1]) + s[|s| - 1]
  }

  function Zeros(n: nat): (r: seq<byte>)
    ensures |r| == n && forall i | 0 <= i < n :: r[i] == 0
  {
    seq(n, _ => 0)
  }

  /** `(~x) + 1` and `-x` in eight bits. */
  function Negated(n: int): (r: byte) {
    (0x100 - n % 0x100) % 0x100
  }

  /** What every zero checksum of the two standards demands. */
  predicate ZeroSum(s: seq<byte>) {
    Sum(s) % 0x100 == 0
  }

  lemma {:induction false} SumUpdate(s: seq<byte>, i: nat, v: byte)
    requires i < |s|
    ensures Sum(s[i := v]) == Sum(s) - s[i] + v
  {
    var n := |s| - 1;
    if i == n {
      assert s[i := v][..n] == s[..n];
    } else {
      SumUpdate(s[..n], i, v);
      assert s[i := v][..n] == s[..n][i := v];
    }
  }

  lemma SumOfTwo(a: byte, b: byte)
    ensures Sum([a, b]) == a + b
  {
    assert [a][..0] == [];
    assert Sum([a]) == a;
    var s: seq<byte> := [a, b];
    assert s[..1] == [a];
    assert Sum(s) == Sum(s[..1]) + b;
  }

  lemma SliceOfSlice<T>(s: seq<T>, lo: nat, hi: nat, i: nat, j: nat)
    requires lo <= hi <= |s| && i <= j <= hi - lo
    ensures s[lo..hi][i..j] == s[lo + i..lo + j]
  {
    var a, b := s[lo..hi][i..j], s[lo + i..lo + j];
    assert |a| == |b|;
    assert forall k | 0 <= k < |a| :: a[k] == s[lo + i + k] && b[k] == s[lo + i + k];
    assert a == b;
  }

  lemma NegationCloses(n: nat)
    ensures (n + Negated(n)) % 0x100 == 0
  {
    var q, m := n / 0x100, n % 0x100;
    assert n == 0x100 * q + m;
    assert n + Negated(n) == 0x100 * if m == 0 then q else q + 1;
  }

  lemma SumAppend(s: seq<byte>, b: byte)
    ensures Sum(s + [b]) == Sum(s) + b
  {
    assert (s + [b])[..|s|] == s;
  }

  /** Appending the negated sum closes any byte string. */
  lemma ChecksumCloses(s: seq<byte>)
    ensures ZeroSum(s + [Negated(Sum(s))])
  {
    SumAppend(s, Negated(Sum(s)));
    NegationCloses(Sum(s));
  }

  /** A zero checksum sees every change of a single byte. */
  lemma OneByteChangeBreaksSum(s: seq<byte>, i: nat, v: byte)
    requires i < |s| && v != s[i] && ZeroSum(s)
    ensures !ZeroSum(s[i := v])
  {
    SumUpdate(s, i, v);
  }
}
