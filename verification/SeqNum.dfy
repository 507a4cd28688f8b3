/**
 Sequence numbers of the client: a random start, then the same random step between 1 and 0xDEAD added
 before every call, in 32 bits with wrap-around.
 */
module SeqNum {
  import opened Bytes

  const WINDOW := 0x2_0000    // 2^17

  predicate ValidStep(step: uint32) { 1 <= step <= 0xDEAD }

  function Add32(a: uint32, b: uint32): uint32 { if a + b < UINT32 then a + b else a + b - UINT32 }

  // The sequence number of the k-th call.
  function Wire(start: uint32, step: uint32, k: nat): uint32
  {
    if k == 0 then start else Add32(Wire(start, step, k - 1), step)
  }

  function Pow2(k: nat): nat { if k == 0 then 1 else 2 * Pow2(k - 1) }

  lemma {:induction false} PowerOfTwoDivisor(a: nat, b: nat, k: nat)
    requires a * b == Pow2(k)
    ensures exists i :: 0 <= i <= k && b == Pow2(i)
    decreases k
  {
    if k == 0 {
      assert b == 1;
      assert b == Pow2(0);
    } else {
      EvenFactor(a, b, Pow2(k - 1));
      if b % 2 == 0 {
        assert a * (b / 2) == Pow2(k - 1);
        PowerOfTwoDivisor(a, b / 2, k - 1);
        var i :| 0 <= i <= k - 1 && b / 2 == Pow2(i);
        assert b == Pow2(i + 1);
      } else {
        assert (a / 2) * b == Pow2(k - 1);
        PowerOfTwoDivisor(a / 2, b, k - 1);
      }
    }
  }

  // An even product has an even factor, and halving that factor halves the product.
  lemma EvenFactor(a: nat, b: nat, half: nat)
    requires a * b == 2 * half
    ensures b % 2 == 0 ==> a * (b / 2) == half
    ensures b % 2 != 0 ==> (a / 2) * b == half
  {
    var c, d := a / 2, b / 2;
    if b % 2 == 0 {
      assert b == 2 * d;
      assert a * b == 2 * (a * d);
    } else {
      assert b == 2 * d + 1;
      assert a * b == 2 * (a * d) + a;
      assert a % 2 == 0 && a == 2 * c;
      assert a * b == 2 * (c * b);
    }
  }

  lemma {:induction false} Pow2Monotone(i: nat, j: nat)
    requires i <= j
    ensures Pow2(i) <= Pow2(j)
  {
    if i < j { Pow2Monotone(i, j - 1); }
  }

  lemma NoPowerBetween(i: nat)
    ensures !(Pow2(15) < Pow2(i) < Pow2(16))
  {
    if i <= 15 { Pow2Monotone(i, 15); } else { Pow2Monotone(16, i); }
  }

  lemma MulMonotone(a: nat, b: nat, c: nat, d: nat)
    requires a <= c && b <= d
    ensures a * b <= c * d
  {
    assert a * b <= c * b;
    assert c * b <= c * d;
  }

  // Fewer than 2^17 steps of at most 0xDEAD never add up to a multiple of 2^32: the sum is below twice
  // 2^32, so the step would be a power of two between 2^15 and 2^16.
  lemma NoMultiple(d: nat, step: uint32, p: nat, m: int)
    requires 0 < d < WINDOW && ValidStep(step) && p == d * step
    ensures p != m * UINT32
  {
    MulMonotone(1, 1, d, step);
    MulMonotone(d, step, WINDOW, 0xDEAD);
    if step <= 0x8000 { MulMonotone(d, step, WINDOW - 1, 0x8000); }
    if p == m * UINT32 {
      assert m == 1 && step > 0x8000;
      Pow2Values();
      PowerOfTwoDivisor(d, step, 32);
      var i :| 0 <= i <= 32 && step == Pow2(i);
      NoPowerBetween(i);
    }
  }

  lemma Pow2Values()
    ensures Pow2(15) == 0x8000 && Pow2(16) == 0x1_0000 && Pow2(32) == UINT32
  {
    assert Pow2(8) == 256;
    assert Pow2(12) == 4096;
    assert Pow2(16) == 65536;
    assert Pow2(20) == 0x10_0000;
    assert Pow2(24) == 0x100_0000;
    assert Pow2(28) == 0x1000_0000;
  }

  // The k-th number is start + k * step, up to some number of wrap-arounds.
  lemma {:induction false} WireWraps(start: uint32, step: uint32, k: nat) returns (m: nat)
    ensures Wire(start, step, k) == start + k * step - m * UINT32
  {
    if k == 0 {
      m := 0;
    } else {
      m := WireWraps(start, step, k - 1);
      assert (k - 1) * step + step == k * step;
      if Wire(start, step, k - 1) + step >= UINT32 {
        m := m + 1;
      }
    }
  }

  /** Calls fewer than 2^17 apart never share a sequence number. */
  lemma WireDistinct(start: uint32, step: uint32, i: nat, j: nat)
    requires 1 <= step <= 0xDEAD && i < j < i + 0x2_0000
    ensures Wire(start, step, i) != Wire(start, step, j)
  {
    var m := WireWraps(start, step, i);
    var n := WireWraps(start, step, j);
    if Wire(start, step, i) == Wire(start, step, j) {
      assert j * step - i * step == (j - i) * step;
      assert n * UINT32 - m * UINT32 == (n - m) * UINT32;
      NoMultiple(j - i, step, (j - i) * step, n - m);
    }
  }

  /** The bound cannot be raised: with step 2^15, calls 2^17 apart share their number. */
  lemma WindowIsTight(start: uint32, i: nat)
    ensures ValidStep(0x8000) && Wire(start, 0x8000, i) == Wire(start, 0x8000, i + WINDOW)
  {
    var m := WireWraps(start, 0x8000, i);
    var n := WireWraps(start, 0x8000, i + WINDOW);
    var w := Wire(start, 0x8000, i) - Wire(start, 0x8000, i + WINDOW);
    assert w == (n - m - 1) * UINT32;
    assert -UINT32 < w < UINT32;
  }
}
