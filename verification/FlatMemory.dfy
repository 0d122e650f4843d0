/**
  The abstract memory of the guest: 2^32 bytes, addressed modulo 2^32, read and written in
  little-endian order. Everything above the memory wrapper is stated over this value.
 */
module FlatMemory {
  import opened Words

  const SIZE := 0x1_0000_0000

  type Mem = m: seq<byte> | |m| == SIZE witness seq(SIZE, i => 0)

  /** Distance from `a` up to `x`, going round the end of memory. */
  function Off(x: int, a: int): nat { (x - a) % SIZE }

  /** The byte `k` places above address `a`. */
  function ByteAt(m: Mem, a: nat, k: nat): byte { m[(a + k) % SIZE] }

  function Pow256(n: nat): (p: nat)
    ensures p > 0
  {
    if n == 0 then 1 else 0x100 * Pow256(n - 1)
  }

  /** Byte `k` of a value, least significant first. */
  function ByteOf(v: nat, k: nat): byte
  {
    if k == 0 then v % 0x100 else ByteOf(v / 0x100, k - 1)
  }

  function ReadN(m: Mem, a: nat, n: nat): nat
    decreases n
  {
    if n == 0 then 0 else m[a % SIZE] + 0x100 * ReadN(m, a + 1, n - 1)
  }

  function WriteN(m: Mem, a: nat, v: nat, n: nat): Mem
    decreases n
  {
    if n == 0 then m else WriteN(m[a % SIZE := v % 0x100], a + 1, v / 0x100, n - 1)
  }

  lemma {:induction false} ReadBound(m: Mem, a: nat, n: nat)
    ensures ReadN(m, a, n) < Pow256(n)
    decreases n
  {
    if n > 0 { ReadBound(m, a + 1, n - 1); }
  }

  lemma PowValues()
    ensures Pow256(1) == 0x100 && Pow256(2) == 0x1_0000 && Pow256(4) == TWO32 && Pow256(8) == TWO64
  {
    assert Pow256(3) == 0x100 * Pow256(2);
    assert Pow256(4) == 0x100 * Pow256(3);
    assert Pow256(5) == 0x100 * Pow256(4);
    assert Pow256(6) == 0x100 * Pow256(5);
    assert Pow256(7) == 0x100 * Pow256(6);
  }

  lemma OffStep(x: nat, a: nat)
    requires x < SIZE
    ensures Off(x, a) == 0 <==> x == a % SIZE
    ensures Off(x, a + 1) == if Off(x, a) == 0 then SIZE - 1 else Off(x, a) - 1
  {}

  /** What a write does to every byte of memory. */
  lemma {:induction false} WriteAt(m: Mem, a: nat, v: nat, n: nat, x: nat)
    requires n <= SIZE && x < SIZE
    ensures WriteN(m, a, v, n)[x] == if Off(x, a) < n then ByteOf(v, Off(x, a)) else m[x]
    decreases n
  {
    if n > 0 {
      OffStep(x, a);
      WriteAt(m[a % SIZE := v % 0x100], a + 1, v / 0x100, n - 1, x);
    }
  }

  /** A read consists of the bytes of memory. */
  lemma {:induction false} ReadAt(m: Mem, a: nat, n: nat, k: nat)
    requires k < n
    ensures ByteOf(ReadN(m, a, n), k) == ByteAt(m, a, k)
    decreases n
  {
    var rest := ReadN(m, a + 1, n - 1);
    assert ReadN(m, a, n) % 0x100 == m[a % SIZE] && ReadN(m, a, n) / 0x100 == rest;
    if k > 0 { ReadAt(m, a + 1, n - 1, k - 1); }
  }

  lemma {:induction false} ReadCongruent(m: Mem, m': Mem, a: nat, a': nat, n: nat)
    requires forall k :: 0 <= k < n ==> ByteAt(m, a, k) == ByteAt(m', a', k)
    ensures ReadN(m, a, n) == ReadN(m', a', n)
    decreases n
  {
    if n > 0 {
      assert ByteAt(m, a, 0) == ByteAt(m', a', 0);
      var b, b' := a + 1, a' + 1;
      forall k | 0 <= k < n - 1 ensures ByteAt(m, b, k) == ByteAt(m', b', k) {
        assert ByteAt(m, a, k + 1) == ByteAt(m', a', k + 1);
      }
      ReadCongruent(m, m', b, b', n - 1);
    }
  }

  /** A value below 256^n is determined by its first n bytes. */
  lemma {:induction false} ValueFromBytes(v: nat, m: Mem, a: nat, n: nat)
    requires forall k :: 0 <= k < n ==> ByteAt(m, a, k) == ByteOf(v, k)
    ensures ReadN(m, a, n) == v % Pow256(n)
    decreases n
  {
    if n > 0 {
      assert ByteAt(m, a, 0) == ByteOf(v, 0);
      forall k | 0 <= k < n - 1 ensures ByteAt(m, a + 1, k) == ByteOf(v / 0x100, k) {
        assert ByteAt(m, a, k + 1) == ByteOf(v, k + 1);
      }
      ValueFromBytes(v / 0x100, m, a + 1, n - 1);
      ModStep(v, Pow256(n - 1));
    }
  }

  lemma ModStep(v: nat, p: nat)
    requires p > 0
    ensures v % (0x100 * p) == v % 0x100 + 0x100 * ((v / 0x100) % p)
  {
    var q := v / 0x100;
    var d := q / p;
    assert q == d * p + q % p;
    assert v == d * (0x100 * p) + (v % 0x100 + 0x100 * (q % p));
    assert v % 0x100 + 0x100 * (q % p) < 0x100 * p;
    ModUnique(v, 0x100 * p, d, v % 0x100 + 0x100 * (q % p));
  }

  lemma OffBack(a: nat, k: nat)
    requires k < SIZE
    ensures Off((a + k) % SIZE, a) == k
  {}

  /** Reading back what was written, whatever the address and the width. */
  lemma ReadOwnWrite(m: Mem, a: nat, v: nat, n: nat)
    requires n <= 8
    ensures ReadN(WriteN(m, a, v, n), a, n) == v % Pow256(n)
  {
    forall k | 0 <= k < n ensures ByteAt(WriteN(m, a, v, n), a, k) == ByteOf(v, k) {
      OffBack(a, k);
      WriteAt(m, a, v, n, (a + k) % SIZE);
    }
    ValueFromBytes(v, WriteN(m, a, v, n), a, n);
  }

  /** The byte ranges [a, a+n) and [b, b+k) do not meet, counted modulo 2^32. */
  predicate Apart(a: nat, n: nat, b: nat, k: nat) {
    Off(b, a) >= n && Off(a, b) >= k
  }

  lemma OffApart(a: nat, n: nat, b: nat, k: nat, i: nat)
    requires Apart(a, n, b, k) && i < k <= SIZE
    ensures Off((b + i) % SIZE, a) >= n
  {}

  /** A write leaves every read of a range apart from it alone. */
  lemma ReadOtherWrite(m: Mem, a: nat, v: nat, n: nat, b: nat, k: nat)
    requires n <= 8 && k <= SIZE && Apart(a, n, b, k)
    ensures ReadN(WriteN(m, a, v, n), b, k) == ReadN(m, b, k)
  {
    forall i | 0 <= i < k ensures ByteAt(WriteN(m, a, v, n), b, i) == ByteAt(m, b, i) {
      WriteAt(m, a, v, n, (b + i) % SIZE);
      OffApart(a, n, b, k, i);
    }
    ReadCongruent(WriteN(m, a, v, n), m, b, b, k);
  }

  lemma Regroup(x: int, p: int, y: int)
    ensures 0x100 * (x + p * y) == 0x100 * x + (0x100 * p) * y
  {}

  lemma {:induction false} ReadSplit(m: Mem, a: nat, n: nat, k: nat)
    ensures ReadN(m, a, n + k) == ReadN(m, a, n) + Pow256(n) * ReadN(m, a + n, k)
    decreases n
  {
    if n > 0 {
      ReadSplit(m, a + 1, n - 1, k);
      Regroup(ReadN(m, a + 1, n - 1), Pow256(n - 1), ReadN(m, a + n, k));
    }
  }

  function Drop(v: nat, n: nat): nat
  {
    if n == 0 then v else Drop(v / 0x100, n - 1)
  }

  lemma {:induction false} DropIsShift(v: nat, n: nat)
    ensures Drop(v, n) == v / Pow256(n)
  {
    if n > 0 {
      DropIsShift(v / 0x100, n - 1);
      var p := Pow256(n - 1);
      var q := v / 0x100;
      assert q == (q / p) * p + q % p;
      assert v == (q / p) * (0x100 * p) + (v % 0x100 + 0x100 * (q % p));
      ModUnique(v, 0x100 * p, q / p, v % 0x100 + 0x100 * (q % p));
    }
  }

  lemma {:induction false} WriteSplit(m: Mem, a: nat, v: nat, n: nat, k: nat)
    ensures WriteN(m, a, v, n + k) == WriteN(WriteN(m, a, v, n), a + n, Drop(v, n), k)
    decreases n
  {
    if n > 0 {
      WriteSplit(m[a % SIZE := v % 0x100], a + 1, v / 0x100, n - 1, k);
    }
  }

  /** Only the first n bytes of the value matter. */
  lemma {:induction false} WriteTruncated(m: Mem, a: nat, v: nat, w: nat, n: nat)
    requires forall k :: 0 <= k < n ==> ByteOf(v, k) == ByteOf(w, k)
    ensures WriteN(m, a, v, n) == WriteN(m, a, w, n)
    decreases n
  {
    if n > 0 {
      assert ByteOf(v, 0) == ByteOf(w, 0);
      forall k | 0 <= k < n - 1 ensures ByteOf(v / 0x100, k) == ByteOf(w / 0x100, k) {
        assert ByteOf(v, k + 1) == ByteOf(w, k + 1);
      }
      WriteTruncated(m[a % SIZE := v % 0x100], a + 1, v / 0x100, w / 0x100, n - 1);
    }
  }

  /** Addresses equal modulo 2^32 name the same bytes. */
  lemma {:induction false} WriteAlias(m: Mem, a: nat, b: nat, v: nat, n: nat)
    requires a % SIZE == b % SIZE
    ensures WriteN(m, a, v, n) == WriteN(m, b, v, n)
    decreases n
  {
    if n > 0 { WriteAlias(m[a % SIZE := v % 0x100], a + 1, b + 1, v / 0x100, n - 1); }
  }

  lemma SameAddress(a: nat, b: nat, k: nat)
    requires a % SIZE == b % SIZE
    ensures (a + k) % SIZE == (b + k) % SIZE
  {
    var q := (b + k) / SIZE + (a / SIZE - b / SIZE);
    ModUnique(a + k, SIZE, q, (b + k) % SIZE);
  }

  lemma ReadAlias(m: Mem, a: nat, b: nat, n: nat)
    requires a % SIZE == b % SIZE
    ensures ReadN(m, a, n) == ReadN(m, b, n)
  {
    hide ReadN;
    forall k | 0 <= k < n ensures ByteAt(m, a, k) == ByteAt(m, b, k) { SameAddress(a, b, k); }
    ReadCongruent(m, m, a, b, n);
  }

  lemma {:induction false} ReadZeros(m: Mem, a: nat, n: nat)
    requires a + n <= SIZE && forall x :: a <= x < a + n ==> m[x] == 0
    ensures ReadN(m, a, n) == 0
    decreases n
  {
    if n > 0 { ReadZeros(m, a + 1, n - 1); }
  }

  function Read32(m: Mem, a: nat): (v: u32)
  {
    ReadBound(m, a, 4); PowValues();
    ReadN(m, a, 4)
  }

  function Read64(m: Mem, a: nat): (v: u64)
  {
    ReadBound(m, a, 8); PowValues();
    ReadN(m, a, 8)
  }
}
