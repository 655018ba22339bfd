/** One bit per physical frame, packed into 64-bit words; a clear bit is a free frame. */
module FrameBits {
  const FULL: bv64 := 0xFFFF_FFFF_FFFF_FFFF

  predicate BitAt(w: bv64, b: bv6) {
    (w >> b) & 1 == 1
  }

  function MaskAt(b: bv6): (m: bv64) { 1 << b }
  function Or(w: bv64, m: bv64): (r: bv64) { w | m }
  function AndNot(w: bv64, m: bv64): (r: bv64) { w & !m }

  function WithBitAt(w: bv64, b: bv6): (r: bv64) {
    Or(w, MaskAt(b))
  }

  function WithoutBitAt(w: bv64, b: bv6): (r: bv64) {
    AndNot(w, MaskAt(b))
  }

  lemma SetBitAt(w: bv64, b: bv6, c: bv6)
    ensures BitAt(WithBitAt(w, b), c) <==> c == b || BitAt(w, c)
  {}

  lemma SetAfterClear(w: bv64, b: bv6)
    ensures WithBitAt(WithoutBitAt(w, b), b) == WithBitAt(w, b)
  {}

  lemma ClearedBit(w: bv64, b: bv6)
    ensures !BitAt(WithoutBitAt(w, b), b)
  {}

  /** Setting bit `b` after clearing it makes no difference to the other bits. */
  lemma ClearBitAt(w: bv64, b: bv6, c: bv6)
    ensures BitAt(WithoutBitAt(w, b), c) <==> c != b && BitAt(w, c)
  {
    hide BitAt, WithBitAt, WithoutBitAt;
    ClearedBit(w, b);
    SetAfterClear(w, b);
    SetBitAt(w, b, c);
    SetBitAt(WithoutBitAt(w, b), b, c);
  }

  /** The shift amount for bit `b`. */
  function Shift(b: nat): (s: bv6)
    requires b < 64
  {
    b as bv6
  }

  lemma ShiftRoundTrip(b: nat)
    requires b < 64
    ensures Shift(b) as int == b
  {}

  predicate Bit(w: bv64, b: nat)
    requires b < 64
  {
    BitAt(w, Shift(b))
  }

  function WithBit(w: bv64, b: nat): (r: bv64)
    requires b < 64
  {
    WithBitAt(w, Shift(b))
  }

  function WithoutBit(w: bv64, b: nat): (r: bv64)
    requires b < 64
  {
    WithoutBitAt(w, Shift(b))
  }

  lemma SetBit(w: bv64, b: nat, c: nat)
    requires b < 64 && c < 64
    ensures Bit(WithBit(w, b), c) <==> c == b || Bit(w, c)
  {
    hide Shift, BitAt, WithBitAt;
    ShiftRoundTrip(b);
    ShiftRoundTrip(c);
    SetBitAt(w, Shift(b), Shift(c));
  }

  lemma ClearBit(w: bv64, b: nat, c: nat)
    requires b < 64 && c < 64
    ensures Bit(WithoutBit(w, b), c) <==> c != b && Bit(w, c)
  {
    hide Shift, BitAt, WithoutBitAt;
    ShiftRoundTrip(b);
    ShiftRoundTrip(c);
    ClearBitAt(w, Shift(b), Shift(c));
  }

  lemma FullWord(b: nat)
    requires b < 64
    ensures Bit(FULL, b)
  {}

  // ---- frames ----

  predicate FrameUsed(words: seq<bv64>, f: nat)
    requires f < 64 * |words|
  {
    Bit(words[f / 64], f % 64)
  }

  ghost function FreeFrames(words: seq<bv64>): (s: set<nat>) {
    set f: nat | f < 64 * |words| && !FrameUsed(words, f)
  }

  lemma SetFrame(words: seq<bv64>, f: nat)
    requires f < 64 * |words|
    ensures FreeFrames(words[f / 64 := WithBit(words[f / 64], f % 64)]) == FreeFrames(words) - {f}
  {
    var w' := words[f / 64 := WithBit(words[f / 64], f % 64)];
    hide Bit, WithBit;
    forall g: nat | g < 64 * |words| ensures FrameUsed(w', g) <==> g == f || FrameUsed(words, g) {
      SetBit(words[f / 64], f % 64, g % 64);
    }
  }

  lemma ClearFrame(words: seq<bv64>, f: nat)
    requires f < 64 * |words|
    ensures FreeFrames(words[f / 64 := WithoutBit(words[f / 64], f % 64)]) == FreeFrames(words) + {f}
  {
    var w' := words[f / 64 := WithoutBit(words[f / 64], f % 64)];
    hide Bit, WithoutBit;
    forall g: nat | g < 64 * |words| ensures FrameUsed(w', g) <==> g != f && FrameUsed(words, g) {
      ClearBit(words[f / 64], f % 64, g % 64);
    }
  }

  // ---- counting ----

  /** The ones among the lowest `n` bits. */
  function OnesBelow(w: bv64, n: nat): (c: nat)
    requires n <= 64
    ensures c <= n
  {
    if n == 0 then 0 else OnesBelow(w, n - 1) + if Bit(w, n - 1) then 1 else 0
  }

  /** The population count of a word. */
  function CountOnes(w: bv64): (c: nat) {
    OnesBelow(w, 64)
  }

  function TotalOnes(words: seq<bv64>): (c: nat)
    ensures c <= 64 * |words|
  {
    if words == [] then 0 else TotalOnes(words[..|words| - 1]) + CountOnes(words[|words| - 1])
  }

  ghost function UsedBelow(words: seq<bv64>, m: nat): (s: set<nat>)
    requires m <= 64 * |words|
  {
    set f: nat | f < m && FrameUsed(words, f)
  }

  lemma {:induction false} UsedInWord(words: seq<bv64>, k: nat, n: nat)
    requires k < |words| && n <= 64
    ensures |UsedBelow(words, 64 * k + n)| == |UsedBelow(words, 64 * k)| + OnesBelow(words[k], n)
  {
    hide Bit;
    if n > 0 {
      UsedInWord(words, k, n - 1);
      var f := 64 * k + n - 1;
      assert f / 64 == k && f % 64 == n - 1;
      var s := UsedBelow(words, f);
      assert UsedBelow(words, f + 1) == if FrameUsed(words, f) then s + {f} else s;
    }
  }

  lemma {:induction false} CountUsed(words: seq<bv64>, k: nat)
    requires k <= |words|
    ensures |UsedBelow(words, 64 * k)| == TotalOnes(words[..k])
  {
    if k == 0 {
    } else {
      CountUsed(words, k - 1);
      UsedInWord(words, k - 1, 64);
      assert words[..k][..k - 1] == words[..k - 1];
    }
  }

  ghost function Below(n: nat): (s: set<nat>)
    ensures forall f: nat :: f in s <==> f < n
    ensures |s| == n
  {
    if n == 0 then {} else Below(n - 1) + {n - 1}
  }

  /** Counting the ones of every word counts the frames that are not free. */
  lemma FreeCount(words: seq<bv64>)
    ensures |FreeFrames(words)| == 64 * |words| - TotalOnes(words)
  {
    var n := |words|;
    CountUsed(words, n);
    assert words[..n] == words;
    assert FreeFrames(words) == Below(64 * n) - UsedBelow(words, 64 * n);
  }
}
