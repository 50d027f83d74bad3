/** Fixed-width integers of the C code, as ranges of `int`, and the packed triangles
    that hold one record per unordered pair. */
module Words {
  const TWO_31: int := 0x8000_0000

  type u8 = x: int | 0 <= x < 0x100
  type u16 = x: int | 0 <= x < 0x1_0000
  type u32 = x: int | 0 <= x < 0x1_0000_0000
  type i32 = x: int | -0x8000_0000 <= x < 0x8000_0000

  /** Reads a 32-bit word as a two's-complement number. */
  function Signed32(w: u32): int {
    if w < 0x8000_0000 then w else w - 0x1_0000_0000
  }

  /** Conversion of an `int32_t` to `uint32_t`. */
  function Unsigned32(x: i32): u32 {
    if x < 0 then x + 0x1_0000_0000 else x
  }

  /** Unsigned 32-bit addition. */
  function Add32(a: u32, b: u32): u32 {
    if a + b < 0x1_0000_0000 then a + b else a + b - 0x1_0000_0000
  }

  /** A byte is a number below 256. */
  lemma ByteThroughBits(b: int)
    requires 0 <= b < 256
    ensures ((b as bv8) as int) == b
  {
    if b < 16 {
    } else if b < 32 {
    } else if b < 64 {
    } else if b < 128 {
    } else if b < 192 {
    } else {
    }
  }

  ghost function Below(n: nat): (s: set<nat>)
    ensures |s| == n && forall i: nat :: i in s <==> i < n
  {
    if n == 0 then {} else Below(n - 1) + {n - 1}
  }

  /** A part of a set is no larger, and only the whole is as large. */
  lemma SubsetSize(a: set<nat>, b: set<nat>)
    requires a <= b
    ensures |a| <= |b| && (|a| == |b| ==> a == b)
  {
    assert |b - a| == |b| - |a|;
  }

  /** Number of unordered pairs among `n` things. */
  function Triangle(n: nat): nat {
    if n == 0 then 0 else Triangle(n - 1) + (n - 1)
  }

  /** The closed form the C code computes. */
  lemma {:induction false} TriangleClosedForm(n: nat)
    ensures Triangle(n) == n * (n - 1) / 2
  {
    if n > 0 {
      TriangleClosedForm(n - 1);
      assert n * (n - 1) == (n - 1) * (n - 2) + 2 * (n - 1);
    }
  }

  lemma {:induction false} TriangleMonotone(m: nat, n: nat)
    requires m <= n
    ensures Triangle(m) <= Triangle(n)
    decreases n
  {
    if m < n {
      TriangleMonotone(m, n - 1);
    }
  }

  /** Append order: the record of the pair formed when `later` arrived. */
  function AppendSlot(later: nat, earlier: nat): nat
    requires earlier < later
  {
    Triangle(later) + earlier
  }

  lemma AppendSlotInRange(later: nat, earlier: nat, n: nat)
    requires earlier < later < n
    ensures AppendSlot(later, earlier) < Triangle(n)
  {
    TriangleMonotone(later + 1, n);
  }
}
