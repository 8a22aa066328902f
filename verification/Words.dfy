/** The machine words and memory-layout constants of the kernel: 64-bit wrap-around
    arithmetic on addresses, and the constants of include/eza/amd64/page.h. */
module Words {
  const TWO32: nat := 0x1_0000_0000
  const TWO64: nat := 0x1_0000_0000_0000_0000

  const PAGE_SIZE: nat := 4096
  const KERNEL_BASE: nat := 0xffff_ffff_8000_0000
  const MAX_VIRT_ADDRESS: nat := 0xffff_ffff_ffff_ffff

  /** The start of the last gigabyte of the 64-bit address space. */
  const LAST_GB: nat := 0xffff_ffff_c000_0000

  type Word = w: nat | w < TWO64

  function Add64(a: int, b: int): Word {
    (a + b) % TWO64
  }

  function Sub64(a: int, b: int): Word {
    (a - b) % TWO64
  }

  lemma AddThenSub(a: Word, b: Word)
    ensures Sub64(Add64(a, b), b) == a
  {
  }

  /** `a & ~(size-1)` for a power of two `size`. */
  function AlignDown(a: nat, size: nat): nat
    requires size > 0
  {
    a - a % size
  }

  lemma Remainder(x: nat, m: nat, size: nat)
    requires m < size
    ensures (x * size + m) / size == x && (x * size + m) % size == m
  {
    var d := (x * size + m) / size;
    assert d < x ==> (d + 1) * size <= x * size;
    assert d > x ==> d * size >= (x + 1) * size;
  }

  lemma Product(m: nat, n: nat)
    requires m > 0 && n > 0
    ensures m * n > 0
  {
  }

  lemma ProductLess(j: nat, n: nat, m: nat, r: nat)
    requires j < n && r < m
    ensures j * m + r < m * n
  {
    assert (j + 1) * m <= n * m;
  }

  lemma Regroup(k: nat, n: nat, j: nat, m: nat)
    ensures (k * n + j) * m == k * (m * n) + j * m
  {
  }

  lemma Quotient(x: nat, m: nat)
    requires m > 0
    ensures x == x / m * m + x % m
  {
  }

  /** Dividing by m and then by n, and the digits of x in the mixed radix m, n. */
  lemma Digits(x: nat, m: nat, n: nat)
    requires m > 0 && n > 0
    ensures m * n > 0
    ensures x / (m * n) == x / m / n
    ensures x % (m * n) / m == x / m % n
    ensures x % (m * n) % m == x % m
  {
    Product(m, n);
    Quotient(x, m);
    Quotient(x / m, n);
    DigitsAre(x / m / n, x / m % n, x % m, m, n);
  }

  /** The number with digits k, j and r. */
  lemma DigitsAre(k: nat, j: nat, r: nat, m: nat, n: nat)
    requires j < n && r < m && m * n > 0
    ensures var x := (k * n + j) * m + r;
            x / (m * n) == k && x % (m * n) / m == j && x % (m * n) % m == r
  {
    ProductLess(j, n, m, r);
    Regroup(k, n, j, m);
    Remainder(k, j * m + r, m * n);
    Remainder(j, r, m);
  }

  datatype Option<+T> = None | Some(value: T)
}
