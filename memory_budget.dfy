/** Memory budgeting for permutation: how many permuted phenotype vectors
    `gen_perm_memory` keeps in memory at once, and how many worker threads
    `run_competitive` can afford. Total and used RAM and the user's memory
    limit are parameters (the original reads them from the system). */
module MemoryBudget {
  import opened Outcome

  /** `size_t` and `intptr_t` are 64 bits wide. */
  const SizeModulus: int := 0x1_0000_0000_0000_0000
  const IntptrMax: int := 0x7FFF_FFFF_FFFF_FFFF

  /** Unsigned subtraction, which wraps around below zero. */
  function SizeSub(a: nat, b: nat): (d: nat)
    requires a < SizeModulus && b < SizeModulus
    ensures d < SizeModulus
    ensures a >= b ==> d == a - b
    ensures a < b ==> d == SizeModulus - (b - a)
  {
    (a - b) % SizeModulus
  }

  /** What converting a double of 2^63 or more to `intptr_t` yields on
      x86-64 (the C++ standard leaves it undefined). */
  const IntptrMin: int := -0x8000_0000_0000_0000

  /** The spacing of doubles (53-bit significand) at a non-negative integer. */
  function Ulp(d: nat): (u: nat)
    ensures u >= 1
    ensures d < 0x20_0000_0000_0000 ==> u == 1
    ensures d >= 0x20_0000_0000_0000 ==> u * 0x10_0000_0000_0000 <= d
  {
    if d < 0x20_0000_0000_0000 then 1 else 2 * Ulp(d / 2)
  }

  /** Every integer of the top binade below 2^64 has spacing 2^11. */
  lemma UlpTop(d: nat)
    requires 0x8000_0000_0000_0000 <= d < SizeModulus
    ensures Ulp(d) == 2048
  {
    var x := d / 2048;
    assert 0x10_0000_0000_0000 <= x < 0x20_0000_0000_0000;
    assert Ulp(x) == 1;
    assert Ulp(d / 1024) == 2 * Ulp(x) by { assert d / 1024 / 2 == x; }
    assert Ulp(d / 512) == 4 by { assert d / 512 / 2 == d / 1024; }
    assert Ulp(d / 256) == 8 by { assert d / 256 / 2 == d / 512; }
    assert Ulp(d / 128) == 16 by { assert d / 128 / 2 == d / 256; }
    assert Ulp(d / 64) == 32 by { assert d / 64 / 2 == d / 128; }
    assert Ulp(d / 32) == 64 by { assert d / 32 / 2 == d / 64; }
    assert Ulp(d / 16) == 128 by { assert d / 16 / 2 == d / 32; }
    assert Ulp(d / 8) == 256 by { assert d / 8 / 2 == d / 16; }
    assert Ulp(d / 4) == 512 by { assert d / 4 / 2 == d / 8; }
    assert Ulp(d / 2) == 1024 by { assert d / 2 / 2 == d / 4; }
  }

  /** The conversion of a `size_t` to double: the nearest multiple of the
      spacing, ties going to the even multiple. */
  function RoundToDouble(d: nat): (r: nat)
    ensures r == (d / Ulp(d)) * Ulp(d) || r == (d / Ulp(d) + 1) * Ulp(d)
    ensures d <= r + Ulp(d) / 2 && 2 * r <= 2 * d + Ulp(d)
    ensures d < 0x20_0000_0000_0000 ==> r == d
  {
    var u := Ulp(d);
    var q := d / u;
    var rem := d % u;
    QuotientRemainder(d, u);
    if 2 * rem < u || (2 * rem == u && q % 2 == 0) then q * u else (q + 1) * u
  }

  lemma QuotientRemainder(d: nat, u: nat)
    requires u >= 1
    ensures d == (d / u) * u + d % u && 0 <= d % u < u
    ensures (d / u + 1) * u == (d / u) * u + u
  {
  }

  /** A `size_t` below 2^64 rounds to 2^64 exactly when it is within 1024 of
      it; otherwise it stays below 2^64. */
  lemma RoundsToModulus(d: nat)
    requires d < SizeModulus
    ensures RoundToDouble(d) <= SizeModulus
    ensures RoundToDouble(d) == SizeModulus <==> d >= SizeModulus - 1024
  {
    if d >= 0x8000_0000_0000_0000 {
      UlpTop(d);
      var q := d / 2048;
      assert q <= 0x1F_FFFF_FFFF_FFFF;
      if q < 0x1F_FFFF_FFFF_FFFF {
        assert RoundToDouble(d) <= (q + 1) * 2048;
      }
    } else {
      assert Ulp(d) < 2048;
    }
  }

  /** `final_mb` as the source computes it: the difference of two `size_t`
      values, converted to double, halved and converted to `intptr_t`
      (truncating). A wrapped difference within 1024 of 2^64 rounds to 2^64,
      whose half does not fit in `intptr_t`; the model gives the x86-64
      result there. The value is negative exactly then, and otherwise it is
      half of the rounded difference. */
  function FinalMbAsWritten(valid: nat, used: nat): (r: int)
    requires valid < SizeModulus && used < SizeModulus
    ensures r <= IntptrMax
    ensures r < 0 <==> SizeSub(valid, used) >= SizeModulus - 1024
    ensures r < 0 ==> r == IntptrMin
    ensures r >= 0 ==> r == RoundToDouble(SizeSub(valid, used)) / 2
  {
    var d := SizeSub(valid, used);
    RoundsToModulus(d);
    var half := RoundToDouble(d) / 2;
    if half > IntptrMax then IntptrMin else half
  }

  /** When more memory is in use than allowed, the source's check on the sign
      of `final_mb` fires only for an excess of at most 1024 bytes; for a
      larger excess up to 2^63 bytes the budget is at least about 2^62. */
  lemma AsWrittenSignOfDeficit(valid: nat, used: nat)
    requires valid < used < SizeModulus
    ensures FinalMbAsWritten(valid, used) < 0 <==> used - valid <= 1024
    ensures 1024 < used - valid <= 0x8000_0000_0000_0000 ==> FinalMbAsWritten(valid, used) >= 0x3FFF_FFFF_FFFF_FE00
  {
    var d := SizeSub(valid, used);
    if 1024 < used - valid <= 0x8000_0000_0000_0000 {
      assert d >= 0x8000_0000_0000_0000;
      UlpTop(d);
    }
  }

  /** Truncation toward zero of x * 0.5, as the conversion to an integer does. */
  function TruncHalf(x: int): int
  {
    if x >= 0 then x / 2 else -((-x) / 2)
  }

  /** `final_mb` as the signed declaration intends: half of the signed
      difference. It is negative exactly when the process already uses two
      bytes or more beyond the limit, and otherwise half of the margin. */
  function FinalMb(valid: nat, used: nat): (r: int)
    ensures r < 0 <==> used >= valid + 2
    ensures valid >= used ==> r == (valid - used) / 2 && 2 * r <= valid - used < 2 * r + 2
  {
    TruncHalf(valid - used)
  }

  /** The number of permutations held per slice before the cap by the
      container's maximum size (1653-1663). */
  function UncappedSlice(finalMb: nat, sampleCt: nat, numPerm: nat): (slice: nat)
    requires sampleCt > 0 || finalMb != 0
    ensures finalMb < 8 * sampleCt ==> slice == 1
    ensures finalMb >= 8 * sampleCt && finalMb > 8 * sampleCt * numPerm ==> slice == numPerm
    ensures slice <= numPerm || slice == 1
    ensures finalMb >= 8 * sampleCt ==> slice * (8 * sampleCt) <= finalMb
    ensures 8 * sampleCt <= finalMb <= 8 * sampleCt * numPerm ==>
              1 <= slice && finalMb < (slice + 1) * (8 * sampleCt)
  {
    var minMem := 8 * sampleCt;
    var maxReq := minMem * numPerm;
    if finalMb < minMem then 1
    else if finalMb > maxReq then numPerm
    else
      assert minMem > 0;
      DivBounds(finalMb, minMem, numPerm);
      finalMb / minMem
  }

  lemma DivBounds(x: nat, d: nat, n: nat)
    requires 0 < d <= x <= d * n
    ensures 1 <= x / d <= n
    ensures (x / d) * d <= x < (x / d + 1) * d
  {
    var q := x / d;
    assert x == q * d + x % d;
  }

  /** `gen_perm_memory` from the budget `final_mb` (1650-1665): it throws iff
      the budget is negative; otherwise the slice is the uncapped number,
      lowered when needed so that a slice of permuted phenotypes fits in
      `max_size` doubles. */
  function PermPerSlice(finalMb: int, sampleCt: nat, numPerm: nat, maxSize: nat): (r: Result<nat>)
    requires sampleCt > 0 || finalMb != 0
    ensures r.Err? <==> finalMb < 0
    ensures r.Ok? ==> r.value <= UncappedSlice(finalMb, sampleCt, numPerm)
    ensures r.Ok? ==> r.value * sampleCt <= maxSize
    ensures r.Ok? && UncappedSlice(finalMb, sampleCt, numPerm) * sampleCt <= maxSize ==>
              r.value == UncappedSlice(finalMb, sampleCt, numPerm)
    ensures r.Ok? && sampleCt > 0 && UncappedSlice(finalMb, sampleCt, numPerm) * sampleCt > maxSize ==>
              r.value == maxSize / sampleCt
  {
    if finalMb < 0 then Result<nat>.Err("Error: Insufficient memory for permutation!")
    else
      var slice := UncappedSlice(finalMb, sampleCt, numPerm);
      if sampleCt > 0 && slice * sampleCt > maxSize then
        CapBounds(slice, sampleCt, maxSize);
        Ok(maxSize / sampleCt)
      else Ok(slice)
  }

  lemma CapBounds(slice: nat, sampleCt: nat, maxSize: nat)
    requires sampleCt > 0 && slice * sampleCt > maxSize
    ensures maxSize / sampleCt <= slice && (maxSize / sampleCt) * sampleCt <= maxSize
  {
    var q := maxSize / sampleCt;
    assert maxSize == q * sampleCt + maxSize % sampleCt;
  }

  /** A deficit in the source's arithmetic: with 1 GiB allowed and 2 GiB in
      use, the wrapped subtraction yields a budget of almost 2^63 bytes, so no
      error is raised and every permutation is put in one slice; the signed
      budget rejects the run. With one byte too many the rounded difference
      is 2^64, whose half overflows `intptr_t`. */
  lemma AsWrittenAcceptsDeficit()
    ensures FinalMbAsWritten(0x4000_0000, 0x8000_0000) == 0x7FFF_FFFF_E000_0000
    ensures PermPerSlice(FinalMbAsWritten(0x4000_0000, 0x8000_0000), 1000, 10000, 0x1000_0000_0000_0000)
            == Ok(10000)
    ensures PermPerSlice(FinalMb(0x4000_0000, 0x8000_0000), 1000, 10000, 0x1000_0000_0000_0000).Err?
    ensures FinalMbAsWritten(0x4000_0000, 0x4000_0001) == IntptrMin
  {
    var d := SizeSub(0x4000_0000, 0x8000_0000);
    assert d == 0xFFFF_FFFF_C000_0000;
    UlpTop(d);
    assert RoundToDouble(d) == d;
  }

  /** The corrected budget rejects a run iff memory use exceeds the limit by
      two bytes or more, and it never wraps a deficit into a positive budget. */
  lemma PermBudgetRejectsDeficit(valid: nat, used: nat, sampleCt: nat, numPerm: nat, maxSize: nat)
    requires sampleCt > 0
    ensures PermPerSlice(FinalMb(valid, used), sampleCt, numPerm, maxSize).Err? <==> used >= valid + 2
    ensures used > valid ==> FinalMb(valid, used) <= 0
  {
  }

  /** `basic_memory_required_per_thread`: the bytes of eight-byte doubles one
      worker's copy of the design needs, over-estimated. */
  function PerThread(rows: nat, cols: nat): nat
  {
    rows * 8 * (cols * 6 + 15)
  }

  /** The thread cap of `run_competitive` (2017-2040). Here the subtraction
      happens only after `valid <= used` has been rejected, so it cannot wrap.
      The division by the per-thread need requires at least one sample row. */
  function CompetitiveThreads(rows: nat, cols: nat, valid: nat, used: nat, requested: nat): (r: Result<nat>)
    requires rows > 0
    ensures r.Err? <==> valid <= used || (valid - used) / 2 < PerThread(rows, cols)
    ensures r.Ok? ==> r.value <= requested
    ensures r.Ok? ==> r.value * PerThread(rows, cols) <= (valid - used) / 2 || r.value == requested
    ensures r.Ok? && requested >= 1 ==> r.value >= 1
    ensures r.Ok? && r.value < requested ==>
              r.value * PerThread(rows, cols) <= (valid - used) / 2 < (r.value + 1) * PerThread(rows, cols)
  {
    if valid <= used then Result<nat>.Err("Error: Not enough memory for permutation")
    else
      var available := (valid - used) / 2;
      var per := PerThread(rows, cols);
      assert per > 0;
      if available < per then Result<nat>.Err("Error: Not enough memory for permutation")
      else
        var affordable := available / per;
        QuotientBounds(available, per);
        if affordable < requested then Ok(affordable) else Ok(requested)
  }

  lemma QuotientBounds(x: nat, d: nat)
    requires 0 < d <= x
    ensures 1 <= x / d && (x / d) * d <= x < (x / d + 1) * d
  {
    var q := x / d;
    assert x == q * d + x % d;
  }
}
