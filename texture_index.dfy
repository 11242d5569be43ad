/** Arithmetic of the active-texture index of a mesh.

    A mesh keeps an ordered list of `n` texture handles and an active index
    `i < n`.  The index moves forward and backward with wrap-around and can be
    set from a random number.  `Inc`, `Dec` and `Rand` say what those moves are
    meant to do; `IncSizeT`, `DecSizeT` and `RandSizeT` are the expressions the
    mesh evaluates, in the unsigned 64-bit `size_t` arithmetic of the target,
    where `i - 1` wraps to 2^64 - 1 when `i` is zero.  The lemmas show that the
    two agree for every list the standard vector can hold, and state the cyclic
    and inverse laws of the moves. */
module TextureIndex {

  /** Values of `size_t` are taken modulo 2^64. */
  const SizeModulus: nat := 0x1_0000_0000_0000_0000

  /** The most elements a `std::vector<uint32_t>` can hold (its `max_size()`,
      PTRDIFF_MAX / 4 on a 64-bit target).  No texture list is longer. */
  const MaxTextures: nat := 0x1FFF_FFFF_FFFF_FFFF

  /** The largest value `rand()` returns (RAND_MAX of the GNU C library). */
  const RandMax: nat := 0x7FFF_FFFF

  // ---------------------------------------------------------------------
  // The moves, as intended

  /** The next texture, wrapping from the last one to the first. */
  function Inc(i: nat, n: nat): (r: nat)
    requires i < n
    ensures r < n
  {
    if i + 1 == n then 0 else i + 1
  }

  /** The previous texture, wrapping from the first one to the last. */
  function Dec(i: nat, n: nat): (r: nat)
    requires i < n
    ensures r < n
  {
    if i == 0 then n - 1 else i - 1
  }

  /** The texture a random number `rnd` selects. */
  function Rand(rnd: nat, n: nat): (r: nat)
    requires n > 0
    ensures r < n
    ensures rnd < n ==> r == rnd
  {
    rnd % n
  }

  // ---------------------------------------------------------------------
  // The moves, as evaluated in size_t arithmetic

  /** `(i + 1) % n` with `i + 1` computed in `size_t`. */
  function IncSizeT(i: nat, n: nat): (r: nat)
    requires n > 0
    ensures r < n
  {
    ((i + 1) % SizeModulus) % n
  }

  /** `(i - 1 + n) % n` with `i - 1` and `i - 1 + n` computed in `size_t`. */
  function DecSizeT(i: nat, n: nat): (r: nat)
    requires n > 0
    ensures r < n
  {
    (((i - 1) % SizeModulus + n) % SizeModulus) % n
  }

  /** `rand() % n`: the non-negative `int` from `rand()` converted to `size_t`. */
  function RandSizeT(rnd: nat, n: nat): (r: nat)
    requires n > 0
    ensures r < n
  {
    (rnd % SizeModulus) % n
  }

  /** Euclidean division is unique: a quotient and remainder that rebuild `a`
      are the ones `/` and `%` give. */
  lemma ModUnique(a: int, n: int, q: int, r: int)
    requires n > 0 && 0 <= r < n && a == n * q + r
    ensures a % n == r && a / n == q
  {
    var q', r' := a / n, a % n;
    var d := q - q';
    assert n * d == r' - r by {
      assert n * q - n * q' == n * (q - q');
    }
    if d > 0 {
      MulAtLeast(n, d);
    } else if d < 0 {
      assert n * (-d) == -(n * d);
      MulAtLeast(n, -d);
    }
  }

  /** A positive multiple of a positive number is at least that number. */
  lemma {:induction false} MulAtLeast(n: int, d: int)
    requires n > 0 && d > 0
    ensures n * d >= n
    decreases d
  {
    if d > 1 {
      MulAtLeast(n, d - 1);
      assert n * d == n * (d - 1) + n;
    }
  }

  /** Increment in `size_t` never overflows, because `i + 1 <= n < 2^64`. */
  lemma IncSizeTIsInc(i: nat, n: nat)
    requires i < n <= MaxTextures
    ensures IncSizeT(i, n) == Inc(i, n)
  {
    ModUnique(i + 1, SizeModulus, 0, i + 1);
    if i + 1 == n {
      ModUnique(i + 1, n, 1, 0);
    } else {
      ModUnique(i + 1, n, 0, i + 1);
    }
  }

  /** Decrement in `size_t`: from index 0 the subtraction wraps to 2^64 - 1 and
      adding `n` wraps back to `n - 1`; from any other index nothing wraps,
      because `i - 1 + n < 2 * MaxTextures < 2^64`. */
  lemma DecSizeTIsDec(i: nat, n: nat)
    requires i < n <= MaxTextures
    ensures DecSizeT(i, n) == Dec(i, n)
  {
    if i == 0 {
      ModUnique(-1, SizeModulus, -1, SizeModulus - 1);
      ModUnique(SizeModulus - 1 + n, SizeModulus, 1, n - 1);
      ModUnique(n - 1, n, 0, n - 1);
    } else {
      ModUnique(i - 1, SizeModulus, 0, i - 1);
      ModUnique(i - 1 + n, SizeModulus, 0, i - 1 + n);
      ModUnique(i - 1 + n, n, 1, i - 1);
    }
  }

  /** The conversion of `rand()`'s result to `size_t` keeps its value. */
  lemma RandSizeTIsRand(rnd: nat, n: nat)
    requires 0 < n && rnd <= RandMax
    ensures RandSizeT(rnd, n) == Rand(rnd, n)
  {
    ModUnique(rnd, SizeModulus, 0, rnd);
  }

  // ---------------------------------------------------------------------
  // Repeated moves

  /** The index after `k` calls of the forward move. */
  function IncTimes(i: nat, n: nat, k: nat): (r: nat)
    requires i < n
    ensures r < n
    decreases k
  {
    if k == 0 then i else Inc(IncTimes(i, n, k - 1), n)
  }

  /** The index after `k` calls of the backward move. */
  function DecTimes(i: nat, n: nat, k: nat): (r: nat)
    requires i < n
    ensures r < n
    decreases k
  {
    if k == 0 then i else Dec(DecTimes(i, n, k - 1), n)
  }

  /** One forward move on a residue is the residue of the successor. */
  lemma IncOfMod(x: int, n: nat)
    requires n > 0
    ensures Inc(x % n, n) == (x + 1) % n
  {
    var q, r := x / n, x % n;
    if r + 1 == n {
      ModUnique(x + 1, n, q + 1, 0);
    } else {
      ModUnique(x + 1, n, q, r + 1);
    }
  }

  /** One backward move on a residue is the residue of the predecessor. */
  lemma DecOfMod(x: int, n: nat)
    requires n > 0
    ensures Dec(x % n, n) == (x - 1) % n
  {
    var q, r := x / n, x % n;
    if r == 0 {
      ModUnique(x - 1, n, q - 1, n - 1);
    } else {
      ModUnique(x - 1, n, q, r - 1);
    }
  }

  /** `k` forward moves from `i` land on `(i + k) mod n`. */
  lemma {:induction false} IncTimesIsAdd(i: nat, n: nat, k: nat)
    requires i < n
    ensures IncTimes(i, n, k) == (i + k) % n
  {
    if k == 0 {
      ModUnique(i, n, 0, i);
    } else {
      IncTimesIsAdd(i, n, k - 1);
      IncOfMod(i + k - 1, n);
    }
  }

  /** `k` backward moves from `i` land on `(i - k) mod n` (the remainder taken
      in `[0, n)`). */
  lemma {:induction false} DecTimesIsSub(i: nat, n: nat, k: nat)
    requires i < n
    ensures DecTimes(i, n, k) == (i - k) % n
  {
    if k == 0 {
      ModUnique(i, n, 0, i);
    } else {
      DecTimesIsSub(i, n, k - 1);
      DecOfMod(i - (k - 1), n);
    }
  }

  /** Moving forward once per texture comes back to the starting texture. */
  lemma IncTimesCycle(i: nat, n: nat)
    requires i < n
    ensures IncTimes(i, n, n) == i
  {
    IncTimesIsAdd(i, n, n);
    ModUnique(i + n, n, 1, i);
  }

  /** Moving backward once per texture comes back to the starting texture. */
  lemma DecTimesCycle(i: nat, n: nat)
    requires i < n
    ensures DecTimes(i, n, n) == i
  {
    DecTimesIsSub(i, n, n);
    ModUnique(i - n, n, -1, i);
  }

  /** Shifting a residue of `a` back by `s` gives the residue of `a - s`; here
      it is used when that is already the in-range value `i`. */
  lemma ResidueShift(a: int, n: int, s: int, i: int)
    requires n > 0 && 0 <= i < n && a - s == i
    ensures (a % n - s) % n == i
  {
    var q := a / n;
    assert a == n * q + a % n;
    assert a % n - s == n * (-q) + i by {
      assert n * (-q) == -(n * q);
    }
    ModUnique(a % n - s, n, -q, i);
  }

  /** `k` backward moves undo `k` forward moves; with `k == 1`, `Dec` undoes
      `Inc`. */
  lemma IncThenDec(i: nat, n: nat, k: nat)
    requires i < n
    ensures DecTimes(IncTimes(i, n, k), n, k) == i
  {
    var f := IncTimes(i, n, k);
    IncTimesIsAdd(i, n, k);
    DecTimesIsSub(f, n, k);
    ResidueShift(i + k, n, k, i);
  }

  /** `k` forward moves undo `k` backward moves; with `k == 1`, `Inc` undoes
      `Dec`. */
  lemma DecThenInc(i: nat, n: nat, k: nat)
    requires i < n
    ensures IncTimes(DecTimes(i, n, k), n, k) == i
  {
    var b := DecTimes(i, n, k);
    DecTimesIsSub(i, n, k);
    IncTimesIsAdd(b, n, k);
    ResidueShift(i - k, n, -(k as int), i);
  }
}
