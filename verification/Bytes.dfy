/** Little-endian words in byte memory. */
module Bytes {

  type byte = b: nat | b < 256

  /** Sizes, in bytes, of the words the loader adds to. */
  type width = w: nat | w == 2 || w == 4 || w == 8 witness 2

  const WORD: nat := 0x1_0000
  const DWORD: nat := 0x1_0000_0000
  const QWORD: nat := 0x1_0000_0000_0000_0000

  function Pow256(w: nat): (p: nat)
    ensures p >= 1
  {
    if w == 0 then 1 else 256 * Pow256(w - 1)
  }

  /** v modulo the size of a w-byte word. */
  function Low(v: nat, w: width): (r: nat)
    ensures r <= v
  {
    if w == 2 then v % WORD else if w == 4 then v % DWORD else v % QWORD
  }

  /** The sum of two addresses or words, in w-byte arithmetic. */
  function Plus(x: nat, y: nat, w: width): nat {
    Low(x + y, w)
  }

  /** Addresses are taken modulo 2^64. */
  predicate SameAddress(x: nat, y: nat) {
    Low(x, 8) == Low(y, 8)
  }

  /** The w-byte word at address a. */
  function Read(mem: seq<byte>, a: nat, w: nat): (v: nat)
    requires a + w <= |mem|
    ensures v < Pow256(w)
    decreases w, mem
  {
    if w == 0 then 0 else mem[a] + 256 * Read(mem, a + 1, w - 1)
  }

  /** Memory after storing the w low-order bytes of v at address a. */
  function Write(mem: seq<byte>, a: nat, w: nat, v: nat): (m: seq<byte>)
    requires a + w <= |mem|
    ensures |m| == |mem|
    ensures forall j :: 0 <= j < |mem| && !(a <= j < a + w) ==> m[j] == mem[j]
    decreases w, v
  {
    if w == 0 then mem else Write(mem[a := v % 256], a + 1, w - 1, v / 256)
  }

  /** Memory after adding d to the w-byte word at a; the carry out of the word is lost. */
  function AddWord(mem: seq<byte>, a: nat, w: nat, d: nat): (m: seq<byte>)
    requires a + w <= |mem|
    ensures |m| == |mem|
    ensures forall j :: 0 <= j < |mem| && !(a <= j < a + w) ==> m[j] == mem[j]
  {
    Write(mem, a, w, Read(mem, a, w) + d)
  }

  /** A word depends on its own bytes only. */
  lemma {:induction false} ReadSame(m1: seq<byte>, m2: seq<byte>, a: nat, w: nat)
    requires a + w <= |m1| && a + w <= |m2|
    requires forall j :: a <= j < a + w ==> m1[j] == m2[j]
    ensures Read(m1, a, w) == Read(m2, a, w)
    decreases w
  {
    if w != 0 {
      ReadSame(m1, m2, a + 1, w - 1);
    }
  }

  /** Equal words have equal bytes. */
  lemma {:induction false} ReadInjective(m1: seq<byte>, m2: seq<byte>, a: nat, w: nat)
    requires a + w <= |m1| && a + w <= |m2|
    requires Read(m1, a, w) == Read(m2, a, w)
    ensures forall j :: a <= j < a + w ==> m1[j] == m2[j]
    decreases w
  {
    if w != 0 {
      assert m1[a] == Read(m1, a, w) % 256;
      assert m2[a] == Read(m2, a, w) % 256;
      ReadInjective(m1, m2, a + 1, w - 1);
    }
  }

  lemma ModSplit(v: nat, p: nat)
    requires p >= 1
    ensures v % (256 * p) == v % 256 + 256 * ((v / 256) % p)
  {
    var q, r := (v / 256) / p, (v / 256) % p;
    assert v / 256 == p * q + r;
    assert v == 256 * (v / 256) + v % 256;
    assert v == (256 * p) * q + (256 * r + v % 256) by {
      assert 256 * (p * q) == (256 * p) * q;
    }
    assert 256 * r + v % 256 < 256 * p;
    ModUnique(256 * p, q, 256 * r + v % 256);
  }

  /** Quotient and remainder are unique. */
  lemma ModUnique(n: nat, q: int, m: nat)
    requires m < n
    ensures (n * q + m) % n == m && (n * q + m) / n == q
  {
    var x := n * q + m;
    var d := x / n - q;
    assert x == n * (x / n) + x % n;
    assert n * d == m - x % n by {
      assert n * (x / n) - n * q == n * d;
    }
    NoMultipleWithin(n, d);
  }

  /** Only zero is a multiple of n strictly between -n and n. */
  lemma NoMultipleWithin(n: nat, d: int)
    requires -(n as int) < n * d < n
    ensures d == 0
  {
    if d >= 1 {
      Distribute(n, 1, d - 1);
    } else if d <= -1 {
      Distribute(n, -1, d + 1);
    }
  }

  lemma {:induction false} ReadWritten(mem: seq<byte>, a: nat, w: nat, v: nat)
    requires a + w <= |mem|
    ensures Read(Write(mem, a, w, v), a, w) == v % Pow256(w)
    decreases w
  {
    if w == 0 {
      assert v % 1 == 0;
    } else {
      ReadWritten(mem[a := v % 256], a + 1, w - 1, v / 256);
      ModSplit(v, Pow256(w - 1));
    }
  }

  lemma LowIsMod(v: nat, w: width)
    ensures Low(v, w) == v % Pow256(w)
  {
    Pow256Values();
  }

  /** What was written is read back. */
  lemma ReadWrite(mem: seq<byte>, a: nat, w: width, v: nat)
    requires a + w <= |mem|
    ensures Read(Write(mem, a, w, v), a, w) == Low(v, w)
  {
    ReadWritten(mem, a, w, v);
    LowIsMod(v, w);
  }

  lemma ReadIsLow(mem: seq<byte>, a: nat, w: width)
    requires a + w <= |mem|
    ensures Low(Read(mem, a, w), w) == Read(mem, a, w)
  {
    Pow256Values();
  }

  /** Writing back what was read changes nothing. */
  lemma WriteRead(mem: seq<byte>, a: nat, w: width)
    requires a + w <= |mem|
    ensures Write(mem, a, w, Read(mem, a, w)) == mem
  {
    var m := Write(mem, a, w, Read(mem, a, w));
    ReadWrite(mem, a, w, Read(mem, a, w));
    ReadIsLow(mem, a, w);
    ReadInjective(m, mem, a, w);
  }

  lemma AddWordReads(mem: seq<byte>, a: nat, w: width, d: nat)
    requires a + w <= |mem|
    ensures Read(AddWord(mem, a, w, d), a, w) == Plus(Read(mem, a, w), d, w)
  {
    ReadWrite(mem, a, w, Read(mem, a, w) + d);
  }

  lemma AddWordZero(mem: seq<byte>, a: nat, w: width)
    requires a + w <= |mem|
    ensures AddWord(mem, a, w, 0) == mem
  {
    WriteRead(mem, a, w);
  }

  // ---------- Word arithmetic ----------

  lemma Distribute(n: int, a: int, b: int)
    ensures n * (a + b) == n * a + n * b
  {
  }

  lemma Euclid(y: nat, n: nat)
    requires n > 0
    ensures y == n * (y / n) + y % n && 0 <= y % n < n
  {
  }

  lemma ModSame(n: nat, x: nat, y: nat, k: int)
    requires n > 0 && x == y + n * k
    ensures x % n == y % n
  {
    Euclid(y, n);
    Distribute(n, y / n, k);
    ModUnique(n, y / n + k, y % n);
  }

  lemma SameLow(x: nat, y: nat, w: width, k: int)
    requires w == 2 ==> x == y + WORD * k
    requires w == 4 ==> x == y + DWORD * k
    requires w == 8 ==> x == y + QWORD * k
    ensures Low(x, w) == Low(y, w)
  {
    if w == 2 {
      ModSame(WORD, x, y, k);
    } else if w == 4 {
      ModSame(DWORD, x, y, k);
    } else {
      ModSame(QWORD, x, y, k);
    }
  }

  /** A word plus equal addends modulo the word size. */
  lemma LowAdded(x: nat, a: nat, d: nat, w: width)
    requires Low(a, w) == Low(d, w)
    ensures Plus(Low(x, w), a, w) == Plus(x, d, w)
  {
    var n := if w == 2 then WORD else if w == 4 then DWORD else QWORD;
    SameLow(Low(x, w) + a, x + d, w, a / n - d / n - x / n);
  }

  /** Addresses that agree modulo 2^64 agree in every narrower word, whatever is added. */
  lemma LowDown(x: nat, y: nat, t: nat, w: width)
    requires SameAddress(x, y)
    ensures Plus(x, t, w) == Plus(y, t, w)
  {
    var q := x / QWORD - y / QWORD;
    SameLow(x + t, y + t, w, if w == 2 then 0x1_0000_0000_0000 * q else if w == 4 then DWORD * q else q);
  }

  lemma Pow256Values()
    ensures Pow256(2) == WORD && Pow256(4) == DWORD && Pow256(8) == QWORD
  {
    assert Pow256(1) == 256 * Pow256(0);
    assert Pow256(3) == 256 * Pow256(2);
    assert Pow256(5) == 256 * Pow256(4);
    assert Pow256(7) == 256 * Pow256(6);
  }

  /** A store of w bytes. */
  method StoreWord(mem: array<byte>, at: nat, w: nat, v: nat)
    requires at + w <= mem.Length
    modifies mem
    ensures mem[..] == Write(old(mem[..]), at, w, v)
  {
    ghost var goal := Write(mem[..], at, w, v);
    var rest, i := v, 0;
    while i < w
      invariant i <= w && Write(mem[..], at + i, w - i, rest) == goal
    {
      StoreByte(mem, at + i, rest % 256);
      rest := rest / 256;
      i := i + 1;
    }
  }

  method StoreByte(mem: array<byte>, at: nat, b: byte)
    requires at < mem.Length
    modifies mem
    ensures mem[..] == old(mem[..])[at := b]
  {
    mem[at] := b;
  }
}
