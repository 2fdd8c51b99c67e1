/** The IP header checksum of libpcapcapture/packet.cpp, against the one's complement sum of RFC 1071. */
module Checksum {
  import opened Words

  // ---------- reference definition ----------

  /** Addition of 16-bit words with end-around carry (section 1 of RFC 1071). */
  function OnesAdd(a: u16, b: u16): u16 {
    if a + b > 0xFFFF then a + b - 0xFFFF else a + b
  }

  function OnesSum(ws: seq<u16>): u16 {
    if ws == [] then 0 else OnesAdd(OnesSum(ws[..|ws| - 1]), ws[|ws| - 1])
  }

  /** The Internet checksum: the one's complement of the one's complement sum. */
  function InternetChecksum(ws: seq<u16>): u16 {
    0xFFFF - OnesSum(ws)
  }

  // ---------- residues ----------

  function WordSum(ws: seq<u16>): nat {
    if ws == [] then 0 else WordSum(ws[..|ws| - 1]) + ws[|ws| - 1]
  }

  /** The 16-bit representative of a sum modulo 65535; 0 stands for the sum 0 only. */
  function Residue(n: nat): u16 {
    if n == 0 then 0 else 1 + (n - 1) % 0xFFFF
  }

  lemma ResidueQuotient(n: nat) returns (q: nat)
    ensures n == Residue(n) + 0xFFFF * q
  {
    q := if n == 0 then 0 else (n - 1) / 0xFFFF;
  }

  lemma ResidueUnique(n: nat, r: u16, q: nat)
    requires n == r + 0xFFFF * q && (r == 0 ==> n == 0)
    ensures Residue(n) == r
  {
    if n > 0 {
      assert n - 1 == (r - 1) + 0xFFFF * q;
    }
  }

  /** Adding a word to the accumulator is adding it with end-around carry to the residue. */
  lemma ResidueAdd(n: nat, x: u16)
    ensures Residue(n + x) == OnesAdd(Residue(n), x)
  {
    var q := ResidueQuotient(n);
    var a := Residue(n);
    if a + x > 0xFFFF {
      ResidueUnique(n + x, a + x - 0xFFFF, q + 1);
    } else {
      ResidueUnique(n + x, a + x, q);
    }
  }

  /** Folding the high bits in does not change the residue. */
  lemma ResidueFold(n: nat)
    ensures Residue(n % 0x1_0000 + n / 0x1_0000) == Residue(n)
  {
    var h := n / 0x1_0000;
    var f := n % 0x1_0000 + h;
    assert n == f + 0xFFFF * h;
    var q := ResidueQuotient(f);
    ResidueUnique(n, Residue(f), q + h);
  }

  /** The reference sum is the residue of the unbounded sum. */
  lemma {:induction false} OnesSumIsResidue(ws: seq<u16>)
    ensures OnesSum(ws) == Residue(WordSum(ws))
  {
    if ws != [] {
      OnesSumIsResidue(ws[..|ws| - 1]);
      ResidueAdd(WordSum(ws[..|ws| - 1]), ws[|ws| - 1]);
    }
  }

  lemma OnesSumNext(w: seq<u16>, k: nat)
    requires k < |w|
    ensures OnesSum(w[..k + 1]) == OnesAdd(OnesSum(w[..k]), w[k])
  {
    assert w[..k + 1][..k] == w[..k];
  }

  // ---------- the implementation ----------

  lemma SumOfNothing(w: seq<u16>)
    ensures OnesSum(w[..0]) == 0 == Residue(0)
  {
  }

  /** `in_chksum_ip`: `len` is in bytes; a last odd byte makes the code add the whole word it starts. */
  method InChksumIp(w: seq<u16>, len: int) returns (checksum: u16)
    requires 0 <= len && (len + 1) / 2 <= |w|
    ensures checksum == InternetChecksum(w[..(len + 1) / 2])
  {
    hide Residue, OnesSum;
    SumOfNothing(w);
    var sum: int := 0;
    var next := 0;
    var left := len;
    while left > 1
      invariant 0 <= left && 2 * next + left == len
      invariant 0 <= sum < 0x8000_0000
      invariant Residue(sum) == OnesSum(w[..next])
    {
      ResidueAdd(sum, w[next]);
      OnesSumNext(w, next);
      sum := sum + w[next];
      next := next + 1;
      if sum / 0x8000_0000 % 2 == 1 {  // the top bit of 32 is set
        ResidueFold(sum);
        sum := sum % 0x1_0000 + sum / 0x1_0000;
      }
      left := left - 2;
    }
    if left != 0 {
      ResidueAdd(sum, w[next]);
      OnesSumNext(w, next);
      sum := sum + w[next];
    }
    while sum / 0x1_0000 != 0
      invariant 0 <= sum
      invariant Residue(sum) == OnesSum(w[..(len + 1) / 2])
      decreases sum
    {
      ResidueFold(sum);
      sum := sum % 0x1_0000 + sum / 0x1_0000;
    }
    ResidueUnique(sum, sum, 0);
    assert Residue(sum) == sum;
    checksum := (-sum - 1) % 0x1_0000;  // ~sum, truncated to 16 bits
  }

  // ---------- what the checksum is good for ----------

  /** The result is 0xFFFF minus the representative of the unbounded word sum. */
  lemma ChecksumValue(ws: seq<u16>)
    ensures InternetChecksum(ws) == 0xFFFF - Residue(WordSum(ws))
    ensures InternetChecksum(ws) == 0 <==> WordSum(ws) > 0 && WordSum(ws) % 0xFFFF == 0
  {
    OnesSumIsResidue(ws);
    var n := WordSum(ws);
    var q := ResidueQuotient(n);
    if n > 0 && n % 0xFFFF == 0 {
      ResidueUnique(n, 0xFFFF, n / 0xFFFF - 1);
    }
  }

  lemma {:induction false} WordSumUpdate(ws: seq<u16>, k: nat, x: u16)
    requires k < |ws|
    ensures WordSum(ws[k := x]) == WordSum(ws) - ws[k] + x
  {
    var n := |ws| - 1;
    if k < n {
      WordSumUpdate(ws[..n], k, x);
      assert ws[k := x][..n] == ws[..n][k := x];
    } else {
      assert ws[k := x][..n] == ws[..n];
    }
  }

  /** Storing the checksum of a header whose checksum word is zero makes the check come out as zero. */
  lemma StoreThenCheck(ws: seq<u16>, k: nat)
    requires k < |ws| && ws[k] == 0
    ensures InternetChecksum(ws[k := InternetChecksum(ws)]) == 0
  {
    ChecksumValue(ws);
    var n := WordSum(ws);
    var c := InternetChecksum(ws);
    WordSumUpdate(ws, k, c);
    var q := ResidueQuotient(n);
    assert n + c == 0xFFFF * (q + 1);
    ChecksumValue(ws[k := c]);
  }

  lemma {:induction false} WordBelowSum(ws: seq<u16>, k: nat)
    requires k < |ws|
    ensures ws[k] <= WordSum(ws)
  {
    if k < |ws| - 1 {
      WordBelowSum(ws[..|ws| - 1], k);
    }
  }

  /** A header that checks still checks after one word is changed only if the change is between 0 and 0xFFFF (and does
      not leave zeros only). */
  lemma SingleWordChange(ws: seq<u16>, k: nat, x: u16)
    requires k < |ws| && x != ws[k] && InternetChecksum(ws) == 0
    ensures InternetChecksum(ws[k := x]) == 0 <==>
            (ws[k] == 0 && x == 0xFFFF) || (ws[k] == 0xFFFF && x == 0 && WordSum(ws) > 0xFFFF)
  {
    ChecksumValue(ws);
    ChecksumValue(ws[k := x]);
    WordSumUpdate(ws, k, x);
    WordBelowSum(ws, k);
    var n := WordSum(ws);
    var q := n / 0xFFFF;
    assert n == 0xFFFF * q;
    var n' := n - ws[k] + x;
    if n' % 0xFFFF == 0 {
      var q' := n' / 0xFFFF;
      assert x - ws[k] == 0xFFFF * (q' - q);
      assert q' - q == 1 || q' - q == -1;
    }
  }

  // ---------- byte order ----------

  function SwapAll(ws: seq<u16>): (r: seq<u16>)
    ensures |r| == |ws|
  {
    if ws == [] then [] else SwapAll(ws[..|ws| - 1]) + [Swap16(ws[|ws| - 1])]
  }

  lemma SwapIsShift(x: u16)
    ensures Swap16(x) == 0x100 * x - 0xFFFF * (x / 0x100)
  {
  }

  lemma SwapZero(x: u16)
    ensures Swap16(x) == 0 <==> x == 0
  {
  }

  lemma OnesAddSwap(a: u16, b: u16)
    ensures OnesAdd(Swap16(a), Swap16(b)) == Swap16(OnesAdd(a, b))
  {
    hide Swap16;
    var r, left := OnesAdd(a, b), OnesAdd(Swap16(a), Swap16(b));
    var right := Swap16(r);
    SwapIsShift(a);
    SwapIsShift(b);
    SwapIsShift(r);
    SwapZero(a);
    SwapZero(b);
    SwapZero(r);
    var c := if a + b > 0xFFFF then 1 else 0;
    var d := if Swap16(a) + Swap16(b) > 0xFFFF then 1 else 0;
    MultipleInRange(left, right, 0x100 * c - a / 0x100 - b / 0x100 - d + r / 0x100);
  }

  /** Two words that differ by a multiple of 65535 are equal, or they are 0 and 0xFFFF. */
  lemma MultipleInRange(x: u16, y: u16, t: int)
    requires x - y == 0xFFFF * t && (x == 0 <==> y == 0)
    ensures x == y
  {
  }

  /** Summing byte-swapped words swaps the bytes of the sum (section 2(B) of RFC 1071). */
  lemma {:induction false} OnesSumSwap(ws: seq<u16>)
    ensures OnesSum(SwapAll(ws)) == Swap16(OnesSum(ws))
  {
    if ws != [] {
      var n := |ws| - 1;
      OnesSumSwap(ws[..n]);
      assert SwapAll(ws)[..n] == SwapAll(ws[..n]);
      OnesAddSwap(OnesSum(ws[..n]), ws[n]);
    }
  }

  /** The checksum does not depend on the byte order it is computed in; in particular the test for zero on words in host
      order agrees with the definition on words in network order. */
  lemma ByteOrderIndependence(ws: seq<u16>)
    ensures InternetChecksum(SwapAll(ws)) == Swap16(InternetChecksum(ws))
    ensures InternetChecksum(SwapAll(ws)) == 0 <==> InternetChecksum(ws) == 0
  {
    OnesSumSwap(ws);
    var s := OnesSum(ws);
    var h, l := s / 0x100, s % 0x100;
    LowByte(0xFF - l, 0xFF - h);
    Swap16Involution(InternetChecksum(ws));
  }
}
