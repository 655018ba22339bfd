/** The internet checksum (sections 1 and 2 of RFC 1071). */
module Checksum {
  import opened Bytes

  /** The sum of the big-endian 16-bit words; an odd last byte is the high half of a word. */
  function WordSum(data: seq<byte>): (s: nat) {
    if |data| == 0 then 0
    else if |data| == 1 then data[0] * 256
    else FromBe16(data[0], data[1]) + WordSum(data[2..])
  }

  /** Fold the carries back in until 16 bits are left. */
  function Fold(x: nat): (r: u16)
    ensures x == 0 ==> r == 0
    ensures x > 0 ==> r == (x - 1) % 65535 + 1
  {
    if x < 0x1_0000 then x
    else
      var y := x % 0x1_0000 + x / 0x1_0000;
      FoldStep(x, y);
      Fold(y)
  }

  lemma FoldStep(x: nat, y: nat)
    requires x >= 0x1_0000 && y == x % 0x1_0000 + x / 0x1_0000
    ensures 0 < y < x && (y - 1) % 65535 == (x - 1) % 65535
  {}

  function InternetChecksum(data: seq<byte>): (c: u16) {
    0xFFFF - Fold(WordSum(data))
  }

  // ---- the reference definition ----

  /** Ones-complement addition: a carry out of the top goes back in at the bottom. */
  function EndAround(a: u16, b: u16): (r: u16) {
    if a + b > 0xFFFF then a + b - 0xFFFF else a + b
  }

  function OnesComplementSum(data: seq<byte>): (s: u16) {
    if |data| == 0 then 0
    else if |data| == 1 then data[0] * 256
    else EndAround(FromBe16(data[0], data[1]), OnesComplementSum(data[2..]))
  }

  lemma FoldIsEndAround(a: u16, x: nat)
    ensures Fold(a + x) == EndAround(a, Fold(x))
  {
    hide Fold;
    if x > 0 {
      var q := Carries(x);
    }
  }

  /** How often folding took 65535 away. */
  lemma Carries(x: nat) returns (q: nat)
    requires x > 0
    ensures x == Fold(x) + 65535 * q && Fold(x) > 0
  {
    q := (x - 1) / 65535;
  }

  /** Summing in 32 bits and folding at the end is ones-complement addition word by word. */
  lemma {:induction false} FoldedSumIsOnesComplement(data: seq<byte>)
    ensures Fold(WordSum(data)) == OnesComplementSum(data)
  {
    if |data| >= 2 {
      FoldedSumIsOnesComplement(data[2..]);
      FoldIsEndAround(FromBe16(data[0], data[1]), WordSum(data[2..]));
    }
  }

  /** The folded sum is congruent to the sum modulo 65535, and zero only for a zero sum. */
  lemma FoldCongruent(x: nat)
    ensures Fold(x) % 65535 == x % 65535
    ensures Fold(x) == 0 <==> x == 0
  {
    hide Fold;
    if x > 0 {
      var q := Carries(x);
    }
  }

  /** An odd last byte counts as if a zero byte followed it. */
  lemma {:induction false} OddByteIsPadded(data: seq<byte>)
    requires |data| % 2 == 1
    ensures WordSum(data + [0]) == WordSum(data)
  {
    if |data| > 1 {
      OddByteIsPadded(data[2..]);
      assert (data + [0])[2..] == data[2..] + [0];
    }
  }

  /** The example of section 3 of RFC 1071. */
  lemma WorkedExample()
    ensures InternetChecksum([0x00, 0x01, 0xF2, 0x03, 0xF4, 0xF5, 0xF6, 0xF7]) == 0x220D
  {
    assert WordSum([0xF4, 0xF5, 0xF6, 0xF7]) == 0xF4F5 + 0xF6F7 by { assert [0xF4, 0xF5, 0xF6, 0xF7][2..] == [0xF6, 0xF7]; }
    var data: seq<byte> := [0x00, 0x01, 0xF2, 0x03, 0xF4, 0xF5, 0xF6, 0xF7];
    assert data[2..] == [0xF2, 0x03, 0xF4, 0xF5, 0xF6, 0xF7] && data[2..][2..] == [0xF4, 0xF5, 0xF6, 0xF7];
    assert WordSum(data) == 0x2DDF0;
  }

  // ---- 32 bits suffice ----

  const MAX_LENGTH: nat := 131074

  lemma {:induction false} SumBound(data: seq<byte>)
    ensures WordSum(data) <= (|data| + 1) / 2 * 65535
  {
    if |data| >= 2 {
      SumBound(data[2..]);
    }
  }

  function Ones(n: nat): (s: seq<byte>)
    ensures |s| == n && forall i :: 0 <= i < n ==> s[i] == 255
  {
    seq(n, _ => 255)
  }

  lemma {:induction false} SumOfOnes(n: nat)
    ensures WordSum(Ones(n)) == n / 2 * 65535 + n % 2 * 0xFF00
  {
    if n >= 2 {
      SumOfOnes(n - 2);
      assert Ones(n)[2..] == Ones(n - 2);
    }
  }

  /** The 32-bit sum never overflows on any input of length `n` exactly when `n` is at most 131074. */
  lemma NoOverflowIff(n: nat)
    ensures (forall data: seq<byte> :: |data| == n ==> WordSum(data) < 0x1_0000_0000) <==> n <= MAX_LENGTH
  {
    if n <= MAX_LENGTH {
      forall data: seq<byte> | |data| == n ensures WordSum(data) < 0x1_0000_0000 {
        SumBound(data);
      }
    } else {
      SumOfOnes(n);
    }
  }

  /** The first loop of `checksum`: the sum fits 32 bits. */
  method SumWords(data: seq<byte>) returns (sum: u32)
    requires |data| <= MAX_LENGTH
    ensures sum == WordSum(data)
  {
    SumBound(data);
    sum := 0;
    var i := 0;
    while i + 1 < |data|
      invariant 0 <= i <= |data| && i % 2 == 0
      invariant sum + WordSum(data[i..]) == WordSum(data)
    {
      assert WordSum(data[i..]) == FromBe16(data[i], data[i + 1]) + WordSum(data[i..][2..]);
      assert data[i..][2..] == data[i + 2..];
      sum := sum + FromBe16(data[i], data[i + 1]);
      i := i + 2;
    }
    if i < |data| {
      sum := sum + FromBe16(data[i], 0);
    }
  }

  /** `checksum`, in 32-bit arithmetic. */
  method Compute(data: seq<byte>) returns (c: u16)
    requires |data| <= MAX_LENGTH
    ensures c == InternetChecksum(data)
    ensures c == 0xFFFF - OnesComplementSum(data)
  {
    var sum := SumWords(data);
    while sum / 0x1_0000 != 0
      invariant Fold(sum) == Fold(WordSum(data))
      decreases sum
    {
      FoldStep(sum, sum % 0x1_0000 + sum / 0x1_0000);
      sum := sum % 0x1_0000 + sum / 0x1_0000;
    }
    FoldedSumIsOnesComplement(data);
    c := 0xFFFF - sum;
  }

  // ---- filling in the checksum field ----

  lemma {:induction false} SumAppend(a: seq<byte>, b: seq<byte>)
    requires |a| % 2 == 0
    ensures WordSum(a + b) == WordSum(a) + WordSum(b)
  {
    if |a| == 0 {
      assert a + b == b;
    } else {
      SumAppend(a[2..], b);
      assert (a + b)[2..] == a[2..] + b;
    }
  }

  lemma SumOfField(a: seq<byte>, v: u16, b: seq<byte>)
    requires |a| % 2 == 0
    ensures WordSum(a + Be16(v) + b) == WordSum(a) + v + WordSum(b)
  {
    SumAppend(a, Be16(v) + b);
    assert a + Be16(v) + b == a + (Be16(v) + b);
  }

  /**
   A message whose checksum field, at an even offset, was zero when the checksum
   was computed over it verifies: its own checksum is zero.
   */
  lemma FilledInVerifies(a: seq<byte>, b: seq<byte>)
    requires |a| % 2 == 0
    ensures InternetChecksum(a + Be16(InternetChecksum(a + Be16(0) + b)) + b) == 0
  {
    var s := WordSum(a + Be16(0) + b);
    var c := 0xFFFF - Fold(s);
    SumOfField(a, 0, b);
    SumOfField(a, c, b);
    FoldToAllOnes(s);
  }

  lemma FoldToAllOnes(s: nat)
    ensures Fold(s + 0xFFFF - Fold(s)) == 0xFFFF
  {
    hide Fold;
    if s > 0 {
      var q := Carries(s);
    }
  }
}
