/** The cipher with the tables of the data encryption standard. */
module StandardCipher {
  import Arithmetic
  import opened CipherTables
  import opened CipherSpec

  /** A table of n rows of w positions from lo to hi. */
  predicate Shape(t: Table, n: nat, w: nat, lo: int, hi: int) {
    |t| == n && forall i :: 0 <= i < n ==> |t[i]| == w && forall k :: 0 <= k < w ==> lo <= t[i][k] <= hi
  }

  lemma {:induction false} ShapeIP()
    ensures Shape(IP, 8, 8, 1, 64)
  {
  }

  lemma {:induction false} ShapeFP()
    ensures Shape(FP, 8, 8, 1, 64)
  {
  }

  lemma {:induction false} ShapeP()
    ensures Shape(P, 8, 4, 1, 32)
  {
  }

  lemma {:induction false} ShapeE()
    ensures Shape(EXPANSION, 8, 6, 1, 32)
  {
  }

  lemma {:induction false} ShapePC1()
    ensures Shape(PC1_C, 4, 7, 1, 64) && Shape(PC1_D, 4, 7, 1, 64)
  {
  }

  lemma {:induction false} ShapePC2()
    ensures Shape(PC2_C, 4, 6, 1, 28) && Shape(PC2_D, 4, 6, 29, 56)
  {
  }

  predicate Square(t: Table, n: nat, w: nat) {
    |t| == n && forall i :: 0 <= i < n ==> |t[i]| == w
  }

  lemma {:induction false} ShapeS()
    ensures |S| == 8 && forall j :: 0 <= j < 8 ==> Square(S[j], 4, 16)
  {
  }

  /** Entry j of a table, counted from 0. */
  function Cell(t: Table, n: nat, w: nat, lo: nat, hi: nat, j: nat): (k: nat)
    requires Shape(t, n, w, lo, hi) && w > 0 && j < n * w
    ensures k <= hi - lo
  {
    InRow(j, w, n);
    t[j / w][j % w] - lo
  }

  function Flat(t: Table, n: nat, w: nat, lo: nat, hi: nat): (r: seq<nat>)
    requires Shape(t, n, w, lo, hi) && w > 0
    ensures |r| == n * w && forall j :: 0 <= j < |r| ==> r[j] == Cell(t, n, w, lo, hi, j)
  {
    seq(n * w, j requires 0 <= j < n * w => Cell(t, n, w, lo, hi, j))
  }

  lemma {:induction false} FlatPositions(t: Table, n: nat, w: nat, lo: nat, hi: nat)
    requires Shape(t, n, w, lo, hi) && w > 0 && lo <= hi
    ensures Positions(Flat(t, n, w, lo, hi), n * w, hi - lo + 1)
  {
  }

  /** A selection function in one row. */
  function Joined(t: Table): (r: seq<int>)
    requires Square(t, 4, 16)
    ensures |r| == 64
  {
    t[0] + t[1] + t[2] + t[3]
  }

  lemma {:induction false} InRow(j: int, w: int, n: int)
    requires w > 0 && 0 <= j < n * w
    ensures 0 <= j / w < n && 0 <= j % w < w
  {
    if j / w >= n {
      Arithmetic.MulLe(n, j / w, w);
      assert false;
    }
  }

  function Standard(): Tables {
    ShapeIP(); ShapeFP(); ShapeP(); ShapeE(); ShapePC1(); ShapePC2(); ShapeS();
    Tables(Flat(IP, 8, 8, 1, 64), Flat(FP, 8, 8, 1, 64), Flat(P, 8, 4, 1, 32),
           seq(8, j requires 0 <= j < 8 => Joined(S[j])), Flat(EXPANSION, 8, 6, 1, 32),
           Flat(PC1_C, 4, 7, 1, 64), Flat(PC1_D, 4, 7, 1, 64), Flat(PC2_C, 4, 6, 1, 28), Flat(PC2_D, 4, 6, 29, 56),
           SHIFTS)
  }

  lemma {:induction false} Octal(j: int)
    requires 0 <= j < 64
    ensures var q := j / 8; q == 0 || q == 1 || q == 2 || q == 3 || q == 4 || q == 5 || q == 6 || q == 7
    ensures var r := j % 8; r == 0 || r == 1 || r == 2 || r == 3 || r == 4 || r == 5 || r == 6 || r == 7
  {
  }

  /** Entry j of table a leads to the entry of table b that names j. */
  predicate Undone(a: Table, b: Table, j: nat)
    requires Shape(a, 8, 8, 1, 64) && Shape(b, 8, 8, 1, 64) && j < 64
  {
    var k := a[j / 8][j % 8] - 1;
    b[k / 8][k % 8] == j + 1
  }

  lemma {:induction false} FinalUndoesInitial(j: int)
    requires 0 <= j < 64
    ensures var k := IP[j / 8][j % 8] - 1; 0 <= k < 64 && FP[k / 8][k % 8] == j + 1
  {
    Octal(j);
  }

  lemma {:induction false} InitialUndoesFinal(j: int)
    requires 0 <= j < 64
    ensures var k := FP[j / 8][j % 8] - 1; 0 <= k < 64 && IP[k / 8][k % 8] == j + 1
  {
    Octal(j);
  }

  lemma {:induction false} FlatInverse(a: Table, b: Table)
    requires Shape(a, 8, 8, 1, 64) && Shape(b, 8, 8, 1, 64) && forall j :: 0 <= j < 64 ==> Undone(a, b, j)
    ensures var p, q := Flat(a, 8, 8, 1, 64), Flat(b, 8, 8, 1, 64);
            Positions(p, 64, 64) && Positions(q, 64, 64) && Inverse(q, p)
  {
    var p, q := Flat(a, 8, 8, 1, 64), Flat(b, 8, 8, 1, 64);
    FlatPositions(a, 8, 8, 1, 64);
    FlatPositions(b, 8, 8, 1, 64);
    forall j | 0 <= j < 64 ensures q[p[j]] == j {
      assert Undone(a, b, j);
    }
  }

  lemma {:induction false} ShiftsTurn()
    ensures |SHIFTS| == 16 && Turn(SHIFTS, 16) == 28
  {
    assert Turn(SHIFTS, 4) == 6;
    assert Turn(SHIFTS, 8) == 14;
    assert Turn(SHIFTS, 12) == 21;
  }

  lemma {:induction false} PermutationsInverse()
    ensures Shape(IP, 8, 8, 1, 64) && Shape(FP, 8, 8, 1, 64)
    ensures var p, q := Flat(IP, 8, 8, 1, 64), Flat(FP, 8, 8, 1, 64);
            Positions(p, 64, 64) && Positions(q, 64, 64) && Inverse(p, q) && Inverse(q, p)
  {
    ShapeIP();
    ShapeFP();
    forall j | 0 <= j < 64 ensures Undone(IP, FP, j) && Undone(FP, IP, j) {
      FinalUndoesInitial(j);
      InitialUndoesFinal(j);
    }
    FlatInverse(IP, FP);
    FlatInverse(FP, IP);
  }

  /** The standard tables are fit for the cipher: the final permutation takes back the
      initial one, and the key registers make one full turn. */
  lemma {:induction false} StandardGood()
    ensures Good(Standard())
  {
    ShapeP(); ShapeE(); ShapePC1(); ShapePC2(); ShapeS();
    PermutationsInverse();
    ShiftsTurn();
    FlatPositions(P, 8, 4, 1, 32);
    FlatPositions(EXPANSION, 8, 6, 1, 32);
    FlatPositions(PC1_C, 4, 7, 1, 64);
    FlatPositions(PC1_D, 4, 7, 1, 64);
    FlatPositions(PC2_C, 4, 6, 1, 28);
    FlatPositions(PC2_D, 4, 6, 29, 56);
  }
}
