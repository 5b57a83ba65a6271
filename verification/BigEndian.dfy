/** Big-endian octet strings and the numbers they stand for. */
module BigEndian {
  import opened Bytes

  /** The unsigned number a big-endian octet string stands for. */
  function Value(s: seq<byte>): nat {
    if s == [] then 0 else Value(s[..|s| - 1]) * 0x100 + s[|s| - 1]
  }

  /** The k low-order octets of n, most significant first. */
  function Octets(n: nat, k: nat): (s: seq<byte>)
    ensures |s| == k
  {
    if k == 0 then [] else Octets(n / 0x100, k - 1) + [n % 0x100]
  }

  /** How many octets n occupies; none for zero. */
  function OctetCount(n: nat): nat {
    if n == 0 then 0 else 1 + OctetCount(n / 0x100)
  }

  function Pow256(k: nat): (p: nat)
    ensures p > 0
  {
    if k == 0 then 1 else 0x100 * Pow256(k - 1)
  }

  lemma {:induction false} ValueOfOctets(n: nat, k: nat)
    requires OctetCount(n) <= k
    ensures Value(Octets(n, k)) == n
  {
    if k > 0 {
      ValueOfOctets(n / 0x100, k - 1);
      assert Octets(n, k)[..k - 1] == Octets(n / 0x100, k - 1);
    }
  }

  lemma {:induction false} OctetCountOfValue(s: seq<byte>)
    ensures OctetCount(Value(s)) <= |s|
  {
    if s != [] {
      OctetCountOfValue(s[..|s| - 1]);
    }
  }

  /** Octets is the inverse of Value on strings of a fixed length. */
  lemma {:induction false} OctetsOfValue(s: seq<byte>)
    ensures Octets(Value(s), |s|) == s
  {
    if s != [] {
      OctetsOfValue(s[..|s| - 1]);
      assert s == s[..|s| - 1] + [s[|s| - 1]];
    }
  }

  lemma {:induction false} ValueBound(s: seq<byte>)
    ensures Value(s) < Pow256(|s|)
  {
    if s != [] {
      ValueBound(s[..|s| - 1]);
    }
  }

  /** Splitting off the leading octet. */
  lemma {:induction false} ValueFromFront(s: seq<byte>)
    requires s != []
    ensures Value(s) == s[0] * Pow256(|s| - 1) + Value(s[1..])
  {
    if |s| > 1 {
      var front, p := s[..|s| - 1], Pow256(|s| - 2);
      ValueFromFront(front);
      assert front[1..] == s[1..][..|s| - 2];
      var v, last := Value(front[1..]), s[|s| - 1];
      assert Value(s) == (s[0] * p + v) * 0x100 + last;
      assert Value(s[1..]) == v * 0x100 + last;
      assert Pow256(|s| - 1) == 0x100 * p;
    }
  }

  /** Leading zero octets do not change the value. */
  lemma {:induction false} ValueOfPadded(pad: seq<byte>, s: seq<byte>)
    requires forall i :: 0 <= i < |pad| ==> pad[i] == 0
    ensures Value(pad + s) == Value(s)
  {
    if pad != [] {
      ValueFromFront(pad + s);
      assert (pad + s)[1..] == pad[1..] + s;
      ValueOfPadded(pad[1..], s);
    } else {
      assert pad + s == s;
    }
  }

  /** Equal values of equal length are the same string. */
  lemma ValueInjective(s: seq<byte>, t: seq<byte>)
    requires |s| == |t| && Value(s) == Value(t)
    ensures s == t
  {
    OctetsOfValue(s);
    OctetsOfValue(t);
  }
}
