/** `std::vector<Byte>`: a byte buffer that is resized, indexed and cleared in place. */
module Buffers {
  import opened Bytes

  function Zeros(n: nat): (z: seq<Byte>)
    ensures |z| == n && forall i :: 0 <= i < n ==> z[i] == 0
  {
    seq(n, _ => 0)
  }

  class ByteBuffer {
    var bytes: seq<Byte>

    constructor (size: nat)
      ensures bytes == Zeros(size)
    {
      bytes := Zeros(size);
    }

    /** Growing appends zero octets, shrinking truncates. */
    method Resize(size: nat)
      modifies this
      ensures bytes == if size <= |old(bytes)| then old(bytes)[..size] else old(bytes) + Zeros(size - |old(bytes)|)
    {
      bytes := if size <= |bytes| then bytes[..size] else bytes + Zeros(size - |bytes|);
    }

    method Set(at: nat, value: Byte)
      requires at < |bytes|
      modifies this
      ensures bytes == old(bytes)[at := value]
    {
      bytes := bytes[at := value];
    }

    method Clear()
      modifies this
      ensures bytes == []
    {
      bytes := [];
    }
  }
}

/** `hton` and `ntoh`: unsigned integers of any byte width, in network byte order. */
module ByteOrder {
  import opened Bytes
  import opened Buffers

  function Pow256(n: nat): (r: nat)
    ensures r > 0
  {
    if n == 0 then 1 else 256 * Pow256(n - 1)
  }

  /** The number a byte string denotes, most significant octet first. */
  function BigEndian(s: seq<Byte>): (v: nat)
  {
    if s == [] then 0 else s[0] * Pow256(|s| - 1) + BigEndian(s[1..])
  }

  /** The n low octets of a number, most significant first. */
  function ToBigEndian(v: nat, n: nat): (s: seq<Byte>)
    ensures |s| == n
  {
    if n == 0 then [] else ToBigEndian(v / 256, n - 1) + [v % 256]
  }

  lemma {:induction false} BigEndianBound(s: seq<Byte>)
    ensures BigEndian(s) < Pow256(|s|)
  {
    if s != [] {
      BigEndianBound(s[1..]);
      MulMonotone(s[0], 255, Pow256(|s| - 1));
    }
  }

  lemma {:induction false} BigEndianSnoc(s: seq<Byte>, b: Byte)
    ensures BigEndian(s + [b]) == 256 * BigEndian(s) + b
  {
    if s == [] {
      assert s + [b] == [b];
    } else {
      assert (s + [b])[1..] == s[1..] + [b];
      BigEndianSnoc(s[1..], b);
      assert s[0] * Pow256(|s|) == 256 * (s[0] * Pow256(|s| - 1));
    }
  }

  /** `ntoh` undoes `hton`, for every width and every value the width can hold. */
  lemma {:induction false} ReadAfterWrite(v: nat, n: nat)
    requires v < Pow256(n)
    ensures BigEndian(ToBigEndian(v, n)) == v
  {
    if n > 0 {
      ReadAfterWrite(v / 256, n - 1);
      BigEndianSnoc(ToBigEndian(v / 256, n - 1), v % 256);
    }
  }

  /** `hton` undoes `ntoh`, for every byte string. */
  lemma {:induction false} WriteAfterRead(s: seq<Byte>)
    ensures ToBigEndian(BigEndian(s), |s|) == s
  {
    if s != [] {
      var init, b := s[..|s| - 1], s[|s| - 1];
      assert s == init + [b];
      BigEndianSnoc(init, b);
      WriteAfterRead(init);
    }
  }

  /** Strict lexicographic order, as `memcmp` compares octets. */
  predicate LexLess(s: seq<Byte>, t: seq<Byte>)
    requires |s| == |t|
  {
    s != [] && (s[0] < t[0] || (s[0] == t[0] && LexLess(s[1..], t[1..])))
  }

  lemma {:induction false} HeadDecides(a: nat, x: nat, b: nat, y: nat, w: nat)
    requires a < b && x < w
    ensures a * w + x < b * w + y
  {
    MulMonotone(a + 1, b, w);
  }

  /** Comparing encodings octet by octet is comparing the numbers. */
  lemma {:induction false} LexicographicIsNumeric(s: seq<Byte>, t: seq<Byte>)
    requires |s| == |t|
    ensures LexLess(s, t) <==> BigEndian(s) < BigEndian(t)
  {
    if s != [] {
      LexicographicIsNumeric(s[1..], t[1..]);
      var w := Pow256(|s| - 1);
      BigEndianBound(s[1..]);
      BigEndianBound(t[1..]);
      if s[0] < t[0] {
        HeadDecides(s[0], BigEndian(s[1..]), t[0], BigEndian(t[1..]), w);
      } else if t[0] < s[0] {
        HeadDecides(t[0], BigEndian(t[1..]), s[0], BigEndian(s[1..]), w);
      }
    }
  }

  lemma {:induction false} DivDiv(v: nat, d: nat)
    requires d > 0
    ensures v / (256 * d) == v / 256 / d
  {
    var q, r := v / 256 / d, v / 256 % d;
    assert v == 256 * (q * d + r) + v % 256;
    assert v == q * (256 * d) + (256 * r + v % 256);
    DivModUnique(v, 256 * d, q, 256 * r + v % 256);
  }

  /** The octet the `hton` loop stores at one position, by shifting and masking. */
  lemma {:induction false} ShiftedOctet(v: nat, n: nat, i: nat)
    requires i < n
    ensures ToBigEndian(v, n)[i] == v / Pow256(n - 1 - i) % 256
  {
    if i < n - 1 {
      ShiftedOctet(v / 256, n - 1, i);
      DivDiv(v, Pow256(n - 2 - i));
    }
  }

  /** `ntoh<T>` with sizeof(T) == n. Sums wrap at the width of T; the result shows that none does. */
  method Ntoh(data: seq<Byte>, n: nat) returns (result: nat)
    requires n <= |data|
    ensures result == BigEndian(data[..n])
    ensures result < Pow256(n)
  {
    result := 0;
    var cnt := 0;
    assert data[..n] == data[0..n];
    BigEndianBound(data[..n]);
    while cnt < n
      invariant 0 <= cnt <= n
      invariant result + BigEndian(data[cnt..n]) == BigEndian(data[..n]) < Pow256(n)
    {
      assert data[cnt..n][1..] == data[cnt + 1..n];
      DivModUnique(result + data[cnt] * Pow256(n - cnt - 1), Pow256(n), 0, result + data[cnt] * Pow256(n - cnt - 1));
      result := (result + data[cnt] * Pow256(n - cnt - 1)) % Pow256(n);
      cnt := cnt + 1;
    }
  }

  /** `hton<T>` with sizeof(T) == n, storing at an offset of a buffer. */
  method Hton(data: ByteBuffer, at: nat, value: nat, n: nat)
    requires at + n <= |data.bytes|
    requires value < Pow256(n)
    modifies data
    ensures data.bytes == old(data.bytes)[..at] + ToBigEndian(value, n) + old(data.bytes)[at + n..]
  {
    ghost var was, out := data.bytes, ToBigEndian(value, n);
    var cnt := 0;
    while cnt < n
      invariant 0 <= cnt <= n
      invariant data.bytes == was[..at] + out[..cnt] + was[at + cnt..]
    {
      ShiftedOctet(value, n, cnt);
      data.Set(at + cnt, value / Pow256(n - 1 - cnt) % 256);
      assert out[..cnt + 1] == out[..cnt] + [out[cnt]];
      cnt := cnt + 1;
    }
    assert out[..n] == out;
  }
}
