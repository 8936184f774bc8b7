/** The internet checksum of the frames the NAT bridge sends (netstack.c: inet_csum): RFC 1071. */
module Checksum {
  import opened Basics

  const M: nat := 0xffff
  const P16: nat := 0x1_0000

  function Pair(hi: int, lo: int): int { 256 * hi + lo }

  /** The big-endian 16-bit words of the data; an odd last byte is padded with zero. */
  function Words(data: seq<Byte>): seq<nat> {
    if data == [] then [] else if |data| == 1 then [Pair(data[0], 0)]
    else [Pair(data[0], data[1])] + Words(data[2..])
  }

  function Sum(words: seq<nat>): nat { if words == [] then 0 else words[0] + Sum(words[1..]) }

  /** The one's-complement sum: zero only for zero. */
  function Folded(s: nat): nat { if s == 0 then 0 else if s % M == 0 then M else s % M }

  lemma FoldStep(s: nat)
    ensures Folded(s % P16 + s / P16) == Folded(s)
    ensures s >= P16 ==> s % P16 + s / P16 < s
    ensures s < P16 ==> Folded(s) == s
  {
    var q, r := s / P16, s % P16;
    assert s == q * M + (q + r);
    Multiple(q, q + r);
  }

  lemma Multiple(q: nat, x: nat)
    ensures (q * M + x) % M == x % M
  {
  }

  /** The carry folding loop. */
  method Fold(start: nat) returns (sum: nat)
    ensures sum == Folded(start) && sum < P16
  {
    sum := start;
    while sum >= P16
      invariant Folded(sum) == Folded(start)
      decreases sum
    {
      FoldStep(sum);
      sum := sum % P16 + sum / P16;
    }
    FoldStep(sum);
  }

  lemma {:induction false} SumPrefix(data: seq<Byte>, i: nat)
    requires i % 2 == 0 && i <= |data|
    ensures Sum(Words(data)) == Sum(Words(data[..i])) + Sum(Words(data[i..]))
    decreases i
  {
    if i == 0 {
      assert data[..0] == [] && data[0..] == data;
    } else {
      SumPrefix(data[2..], i - 2);
      assert data[2..][..i - 2] == data[2..i] && data[2..][i - 2..] == data[i..];
      assert data[..i][0] == data[0] && data[..i][1] == data[1] && data[..i][2..] == data[2..i];
    }
  }

  lemma {:induction false} SumBound(data: seq<Byte>)
    ensures Sum(Words(data)) <= P16 * ((|data| + 1) / 2)
  {
    if |data| >= 2 {
      SumBound(data[2..]);
      SumFirst(Pair(data[0], data[1]), Words(data[2..]));
      assert (|data| + 1) / 2 == (|data[2..]| + 1) / 2 + 1;
    }
  }

  lemma SumFirst(x: nat, words: seq<nat>)
    ensures Sum([x] + words) == x + Sum(words)
  {
    assert ([x] + words)[1..] == words;
  }

  lemma SumNext(data: seq<Byte>, i: nat)
    requires i % 2 == 0 && i + 1 < |data|
    ensures Sum(Words(data[..i + 2])) == Sum(Words(data[..i])) + Pair(data[i], data[i + 1])
  {
    SumPrefix(data[..i + 2], i);
    assert data[..i + 2][..i] == data[..i] && data[..i + 2][i..] == [data[i], data[i + 1]];
    TwoBytes(data[i], data[i + 1]);
  }

  lemma TwoBytes(a: Byte, b: Byte)
    ensures Sum(Words([a, b])) == Pair(a, b)
  {
    var d: seq<Byte> := [a, b];
    assert d[2..] == [];
    assert Words(d[2..]) == [];
    assert Words(d) == [Pair(a, b)];
    assert Words(d)[1..] == [];
  }

  lemma NoWords(data: seq<Byte>)
    ensures Sum(Words(data[..0])) == 0
  {
  }

  /** inet_csum.  The 32-bit accumulator does not wrap for data of this size, which covers every
      frame. */
  method InetCsum(data: seq<Byte>) returns (csum: nat)
    requires |data| < 0x1_0000
    ensures csum == M - Folded(Sum(Words(data)))
  {
    hide Words, Sum, Folded;
    var sum: int, i := 0, 0;
    assert Sum(Words(data[..0])) == 0 by { NoWords(data); }
    while i + 1 < |data|
      invariant i % 2 == 0 && i <= |data| && sum == Sum(Words(data[..i])) && sum < 0x1_0000_0000
      decreases |data| - i
    {
      SumNext(data, i);
      SumBound(data[..i + 2]);
      sum := sum + Pair(data[i], data[i + 1]);
      i := i + 2;
    }
    if |data| % 2 == 1 {
      SumPrefix(data, i);
      assert data[i..] == [data[|data| - 1]];
      OneByte(data[|data| - 1]);
      sum := sum + Pair(data[|data| - 1], 0);
    } else {
      assert data[..i] == data;
    }
    sum := Fold(sum);
    csum := M - sum;
  }

  lemma OneByte(a: Byte)
    ensures Sum(Words([a])) == Pair(a, 0)
  {
    assert Words([a])[1..] == [];
  }

  // ---- What the receiver checks -----------------------------------------------------------

  lemma {:induction false} SumUpdate(words: seq<nat>, k: nat, v: nat)
    requires k < |words|
    ensures Sum(words[k := v]) == Sum(words) - words[k] + v
  {
    if k > 0 {
      SumUpdate(words[1..], k - 1, v);
      assert words[k := v][1..] == words[1..][k - 1 := v];
    } else {
      assert words[k := v][1..] == words[1..];
    }
  }

  /** With the checksum computed over a zeroed field and stored there, the receiver's sum over
      everything is all ones. */
  lemma ChecksumVerifies(words: seq<nat>, k: nat)
    requires k < |words| && words[k] == 0
    ensures var c := M - Folded(Sum(words)); c >= 0 && Folded(Sum(words[k := c])) == M
  {
    var s := Sum(words);
    SumUpdate(words, k, M - Folded(s));
    if s > 0 && s % M != 0 { assert s + M - s % M == (s / M + 1) * M; Multiple(s / M + 1, 0); }
  }

  /** A change of one word goes unnoticed exactly when the two values differ by a multiple of 65535,
      that is, when it swaps all zeros for all ones. */
  lemma OneWordDetected(words: seq<nat>, k: nat, v: nat)
    requires k < |words| && words[k] < P16 && v < P16 && Folded(Sum(words)) == M && Sum(words[k := v]) > 0
    ensures Folded(Sum(words[k := v])) == M <==> v == words[k] || (v == 0 && words[k] == M) || (v == M && words[k] == 0)
  {
    SumUpdate(words, k, v);
  }
}
