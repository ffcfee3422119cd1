/** The rows of the truth table: row `i` assigns to variable `j` bit `n - j - 1` of `i`, so the first
    variable is the most significant bit and the rows count from all-false up to all-true. */
module Rows {
  import opened Text

  function Pow2(n: nat): (r: nat)
    ensures r >= 1
  {
    if n == 0 then 1 else 2 * Pow2(n - 1)
  }

  /** Bit `k` of `i`. */
  function Bit(i: nat, k: nat): bool
  {
    if k == 0 then i % 2 == 1 else Bit(i / 2, k - 1)
  }

  /** `2 ** 32`: JavaScript's bitwise operators work on 32-bit integers. */
  const TwoTo32: nat := 0x1_0000_0000

  lemma Pow2Of32()
    ensures Pow2(32) == TwoTo32
  {
    assert Pow2(2) == 4;
    assert Pow2(4) == 16;
    assert Pow2(6) == 64;
    assert Pow2(8) == 256;
    assert Pow2(10) == 1024;
    assert Pow2(12) == 4096;
    assert Pow2(14) == 16384;
    assert Pow2(16) == 65536;
    assert Pow2(18) == 262144;
    assert Pow2(20) == 1048576;
    assert Pow2(22) == 4194304;
    assert Pow2(24) == 16777216;
    assert Pow2(26) == 67108864;
    assert Pow2(28) == 268435456;
    assert Pow2(30) == 1073741824;
  }

  /** `Boolean(i & (1 << k))` for a non-negative `i`: the shift count is taken modulo 32 and `i` is
      truncated to its low 32 bits. */
  function JsBit(i: nat, k: nat): bool
  {
    Bit(i % TwoTo32, k % 32)
  }

  /** Row `i` of a table over `n` variables, as the inner loop builds it. */
  function Row(i: nat, n: nat): (r: seq<bool>)
    ensures |r| == n
  {
    seq(n, j requires 0 <= j < n => JsBit(i, n - j - 1))
  }

  /** A JavaScript array holds at most `2^32 - 1` elements; `push` beyond that throws a RangeError. */
  const MaxArrayLength: nat := TwoTo32 - 1

  /** The table over `n` variables fits in one array. */
  predicate TableFits(n: nat)
  {
    Pow2(n) <= MaxArrayLength
  }

  /** The table fits exactly when there are fewer than 32 variables. */
  lemma TableFitsBelow32(n: nat)
    ensures TableFits(n) <==> n < 32
  {
    Pow2Of32();
    if n < 32 {
      Pow2Monotone(n, 31);
      assert Pow2(32) == 2 * Pow2(31);
    } else {
      Pow2Monotone(32, n);
    }
  }

  /** The nested loops that fill the table: `2 ** n` rows, row `i` pushing one value per variable;
      `None` when `truthTable.push` throws because the table would outgrow an array. */
  method BuildRows(n: nat) returns (table: Option<seq<seq<bool>>>)
    ensures table.Some? <==> TableFits(n)
    ensures table.Some? ==> |table.value| == Pow2(n)
    ensures table.Some? ==> forall i :: 0 <= i < |table.value| ==> table.value[i] == Row(i, n)
  {
    var numRows := Pow2(n);
    var rows: seq<seq<bool>> := [];
    var i := 0;
    while i < numRows
      invariant 0 <= i <= numRows
      invariant i <= MaxArrayLength
      invariant |rows| == i
      invariant forall r :: 0 <= r < i ==> rows[r] == Row(r, n)
    {
      var row: seq<bool> := [];
      var j := 0;
      while j < n
        invariant 0 <= j <= n
        invariant |row| == j
        invariant forall c :: 0 <= c < j ==> row[c] == JsBit(i, n - c - 1)
      {
        row := row + [JsBit(i, n - j - 1)];
        j := j + 1;
      }
      if |rows| == MaxArrayLength {
        return None;
      }
      rows := rows + [row];
      i := i + 1;
    }
    table := Some(rows);
  }

  /** The number whose binary digits, most significant first, are `bits`. */
  function FromBits(bits: seq<bool>): nat
  {
    if bits == [] then 0 else 2 * FromBits(bits[..|bits| - 1]) + (if bits[|bits| - 1] then 1 else 0)
  }

  /** The `n` low bits of `i`, most significant first. */
  function Bits(i: nat, n: nat): (r: seq<bool>)
    ensures |r| == n
  {
    seq(n, j requires 0 <= j < n => Bit(i, n - j - 1))
  }

  /** Up to 32 variables, the 32-bit operators give the true bits of the row number. */
  lemma RowIsBits(i: nat, n: nat)
    requires i < Pow2(n) && n <= 32
    ensures Row(i, n) == Bits(i, n)
  {
    Pow2Monotone(n, 32);
    Pow2Of32();
    assert i % TwoTo32 == i;
    forall j | 0 <= j < n ensures Row(i, n)[j] == Bits(i, n)[j] {
      assert Row(i, n)[j] == JsBit(i, n - j - 1);
      assert (n - j - 1) % 32 == n - j - 1;
    }
  }

  lemma {:induction false} Pow2Monotone(m: nat, n: nat)
    requires m <= n
    ensures Pow2(m) <= Pow2(n)
    decreases n
  {
    if m < n {
      Pow2Monotone(m, n - 1);
    }
  }

  /** Dropping the last bit of `Bits(i, n + 1)` leaves the bits of `i / 2`. */
  lemma BitsShift(i: nat, n: nat)
    ensures Bits(i, n + 1) == Bits(i / 2, n) + [i % 2 == 1]
  {
    var a, b := Bits(i, n + 1), Bits(i / 2, n) + [i % 2 == 1];
    forall j | 0 <= j < n + 1 ensures a[j] == b[j] {
      if j < n {
        assert Bit(i, n - j) == Bit(i / 2, n - j - 1);
      }
    }
  }

  /** The row of `i` read back as a binary number is `i`. */
  lemma {:induction false} FromBitsOfBits(i: nat, n: nat)
    requires i < Pow2(n)
    ensures FromBits(Bits(i, n)) == i
    decreases n
  {
    if n == 0 {
      assert Bits(i, 0) == [];
    } else {
      BitsShift(i, n - 1);
      var b := Bits(i, n);
      assert b[..|b| - 1] == Bits(i / 2, n - 1);
      FromBitsOfBits(i / 2, n - 1);
    }
  }

  /** Every assignment of `n` values is the row of the number it spells. */
  lemma {:induction false} BitsOfFromBits(bits: seq<bool>)
    ensures FromBits(bits) < Pow2(|bits|)
    ensures Bits(FromBits(bits), |bits|) == bits
    decreases |bits|
  {
    if bits != [] {
      var n := |bits| - 1;
      var init := bits[..n];
      BitsOfFromBits(init);
      var i := FromBits(bits);
      assert i / 2 == FromBits(init) && i % 2 == (if bits[n] then 1 else 0);
      BitsShift(i, n);
      assert bits == init + [bits[n]];
    }
  }

  /** The table lists every assignment of up to 32 variables exactly once: row `i` spells `i` in
      binary, so distinct rows differ and each assignment is the row of the number it spells. */
  lemma RowsEnumerate(n: nat)
    requires n <= 32
    ensures forall i :: 0 <= i < Pow2(n) ==> FromBits(Row(i, n)) == i
    ensures forall i, i' :: 0 <= i < i' < Pow2(n) ==> Row(i, n) != Row(i', n)
    ensures forall bits: seq<bool> :: |bits| == n ==> FromBits(bits) < Pow2(n) && Row(FromBits(bits), n) == bits
  {
    forall i | 0 <= i < Pow2(n) ensures FromBits(Row(i, n)) == i {
      RowIsBits(i, n);
      FromBitsOfBits(i, n);
    }
    forall bits: seq<bool> | |bits| == n ensures FromBits(bits) < Pow2(n) && Row(FromBits(bits), n) == bits {
      BitsOfFromBits(bits);
      RowIsBits(FromBits(bits), n);
    }
  }

  /** Up to 32 variables, cell `j` of row `i` is bit `n - j - 1` of `i`. */
  lemma RowCell(i: nat, n: nat, j: nat)
    requires i < Pow2(n) && n <= 32 && j < n
    ensures Row(i, n)[j] == Bit(i, n - j - 1)
  {
    RowIsBits(i, n);
  }

  /** The first row is all false. */
  lemma FirstRow(n: nat)
    ensures true !in Row(0, n)
  {
    forall j | 0 <= j < n ensures !Row(0, n)[j] {
      assert Row(0, n)[j] == JsBit(0, n - j - 1);
      assert 0 % TwoTo32 == 0;
      BitOfZero((n - j - 1) % 32);
    }
  }

  lemma {:induction false} BitOfZero(k: nat)
    ensures !Bit(0, k)
  {
    if k > 0 {
      BitOfZero(k - 1);
    }
  }

  /** The last row is all true, for any number of variables: the low 32 bits of `2^n - 1` are all
      set, so the wrap-around of `1 << k` does not matter here. */
  lemma LastRow(n: nat)
    ensures false !in Row(Pow2(n) - 1, n)
  {
    var last := Row(Pow2(n) - 1, n);
    forall j | 0 <= j < n ensures last[j] {
      AllOnesBit(n, n - j - 1);
    }
  }

  /** Bit `k < n` of `2^n - 1`, read through the 32-bit shift, is set. */
  lemma AllOnesBit(n: nat, k: nat)
    requires k < n
    ensures JsBit(Pow2(n) - 1, k)
  {
    if n <= 32 {
      AllOnesBitNarrow(n, k);
    } else {
      AllOnesBitWide(n, k);
    }
  }

  /** Up to 32 variables `2^n - 1` fits in 32 bits and the shift is exact. */
  lemma AllOnesBitNarrow(n: nat, k: nat)
    requires k < n <= 32
    ensures JsBit(Pow2(n) - 1, k)
  {
    Pow2Monotone(n, 32);
    Pow2Of32();
    ModBelow(Pow2(n) - 1, TwoTo32);
    ModBelow(k, 32);
    BitOfAllOnes(n, k);
  }

  /** Beyond 32 variables the low 32 bits of `2^n - 1` are all set. */
  lemma AllOnesBitWide(n: nat, k: nat)
    requires 32 < n && k < n
    ensures JsBit(Pow2(n) - 1, k)
  {
    LowBitsOfAllOnes(n);
    Pow2Of32();
    BitOfAllOnes(32, k % 32);
  }

  /** A remainder below the modulus is the number itself. */
  lemma ModBelow(x: nat, m: nat)
    requires x < m
    ensures x % m == x
  {
  }

  /** `2^n = 2^32 * 2^(n - 32)`. */
  lemma {:induction false} Pow2Split(n: nat)
    requires n >= 32
    ensures Pow2(n) == TwoTo32 * Pow2(n - 32)
    decreases n
  {
    if n == 32 {
      Pow2Of32();
    } else {
      Pow2Split(n - 1);
      assert Pow2(n - 32) == 2 * Pow2(n - 33);
    }
  }

  /** From 32 variables on, the low 32 bits of `2^n - 1` are all set. */
  lemma LowBitsOfAllOnes(n: nat)
    requires n >= 32
    ensures (Pow2(n) - 1) % TwoTo32 == TwoTo32 - 1
  {
    Pow2Split(n);
    var q := Pow2(n - 32) - 1;
    assert Pow2(n) - 1 == TwoTo32 * q + (TwoTo32 - 1);
  }

  lemma {:induction false} BitOfAllOnes(n: nat, k: nat)
    requires k < n
    ensures Bit(Pow2(n) - 1, k)
  {
    if k > 0 {
      assert (Pow2(n) - 1) / 2 == Pow2(n - 1) - 1;
      BitOfAllOnes(n - 1, k - 1);
    }
  }
}
