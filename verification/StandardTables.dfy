/** What the tables of the data encryption standard are. */
module StandardTables {
  import opened CipherTables
  import opened CipherRound
  import opened StandardCipher

  // ---------- the selection functions ----------

  /** The row holds numbers below sixteen, and number v is at back[v], for each of them. */
  predicate At(row: seq<int>, back: seq<int>, v: int)
    requires |row| == 16 && |back| == 16 && 0 <= v < 16
  {
    0 <= row[v] < 16 && 0 <= back[v] < 16 && row[back[v]] == v
  }

  predicate Permutation(row: seq<int>, back: seq<int>) {
    |row| == 16 && |back| == 16 && forall v :: 0 <= v < 16 ==> At(row, back, v)
  }

  predicate RowsPermuted(t: Table, back: Table) {
    && |t| == 4 && |back| == 4 && Permutation(t[0], back[0]) && Permutation(t[1], back[1])
    && Permutation(t[2], back[2]) && Permutation(t[3], back[3])
  }

  lemma {:induction false} Sixteen(v: int)
    requires 0 <= v < 16
    ensures v == 0 || v == 1 || v == 2 || v == 3 || v == 4 || v == 5 || v == 6 || v == 7
            || v == 8 || v == 9 || v == 10 || v == 11 || v == 12 || v == 13 || v == 14 || v == 15
  {
  }

  /** Where the numbers are in selection function 1. */
  const B1: Table := [
    [14, 3, 4, 8, 1, 12, 10, 15, 7, 13, 9, 6, 11, 2, 0, 5],
    [0, 7, 5, 14, 3, 13, 9, 2, 15, 12, 8, 11, 10, 6, 4, 1],
    [15, 1, 6, 12, 0, 14, 5, 11, 3, 10, 13, 7, 9, 4, 2, 8],
    [13, 6, 3, 10, 4, 8, 14, 7, 2, 5, 12, 9, 1, 15, 11, 0]
  ]

  lemma {:induction false} UpperS1()
    ensures |S1| == 4 && |B1| == 4 && Permutation(S1[0], B1[0]) && Permutation(S1[1], B1[1])
  {
    forall v | 0 <= v < 16 ensures At(S1[0], B1[0], v) && At(S1[1], B1[1], v) {
      Sixteen(v);
    }
  }

  lemma {:induction false} LowerS1()
    ensures |S1| == 4 && |B1| == 4 && Permutation(S1[2], B1[2]) && Permutation(S1[3], B1[3])
  {
    forall v | 0 <= v < 16 ensures At(S1[2], B1[2], v) && At(S1[3], B1[3], v) {
      Sixteen(v);
    }
  }

  /** Where the numbers are in selection function 2. */
  const B2: Table := [
    [13, 1, 10, 6, 7, 14, 4, 9, 2, 8, 15, 5, 12, 11, 3, 0],
    [9, 10, 5, 0, 2, 15, 12, 3, 6, 13, 11, 14, 8, 1, 7, 4],
    [0, 7, 14, 13, 5, 8, 11, 2, 9, 12, 4, 3, 10, 6, 1, 15],
    [12, 3, 7, 4, 6, 13, 9, 10, 1, 15, 2, 8, 11, 0, 14, 5]
  ]

  lemma {:induction false} UpperS2()
    ensures |S2| == 4 && |B2| == 4 && Permutation(S2[0], B2[0]) && Permutation(S2[1], B2[1])
  {
    forall v | 0 <= v < 16 ensures At(S2[0], B2[0], v) && At(S2[1], B2[1], v) {
      Sixteen(v);
    }
  }

  lemma {:induction false} LowerS2()
    ensures |S2| == 4 && |B2| == 4 && Permutation(S2[2], B2[2]) && Permutation(S2[3], B2[3])
  {
    forall v | 0 <= v < 16 ensures At(S2[2], B2[2], v) && At(S2[3], B2[3], v) {
      Sixteen(v);
    }
  }

  /** Where the numbers are in selection function 3. */
  const B3: Table := [
    [1, 8, 14, 5, 13, 7, 4, 11, 15, 2, 0, 12, 10, 9, 3, 6],
    [2, 15, 8, 4, 5, 10, 6, 1, 9, 3, 7, 13, 12, 0, 11, 14],
    [7, 9, 10, 6, 2, 12, 1, 15, 4, 3, 13, 8, 11, 0, 14, 5],
    [3, 0, 14, 11, 8, 13, 4, 7, 6, 5, 1, 12, 15, 2, 10, 9]
  ]

  lemma {:induction false} UpperS3()
    ensures |S3| == 4 && |B3| == 4 && Permutation(S3[0], B3[0]) && Permutation(S3[1], B3[1])
  {
    forall v | 0 <= v < 16 ensures At(S3[0], B3[0], v) && At(S3[1], B3[1], v) {
      Sixteen(v);
    }
  }

  lemma {:induction false} LowerS3()
    ensures |S3| == 4 && |B3| == 4 && Permutation(S3[2], B3[2]) && Permutation(S3[3], B3[3])
  {
    forall v | 0 <= v < 16 ensures At(S3[2], B3[2], v) && At(S3[3], B3[3], v) {
      Sixteen(v);
    }
  }

  /** Where the numbers are in selection function 4. */
  const B4: Table := [
    [4, 8, 9, 3, 14, 11, 5, 0, 10, 6, 7, 12, 13, 1, 2, 15],
    [6, 12, 10, 7, 8, 3, 4, 9, 1, 15, 13, 2, 11, 0, 14, 5],
    [3, 9, 13, 10, 15, 12, 1, 6, 14, 2, 0, 5, 4, 7, 11, 8],
    [2, 5, 14, 0, 9, 10, 3, 13, 7, 8, 4, 11, 12, 6, 15, 1]
  ]

  lemma {:induction false} UpperS4()
    ensures |S4| == 4 && |B4| == 4 && Permutation(S4[0], B4[0]) && Permutation(S4[1], B4[1])
  {
    forall v | 0 <= v < 16 ensures At(S4[0], B4[0], v) && At(S4[1], B4[1], v) {
      Sixteen(v);
    }
  }

  lemma {:induction false} LowerS4()
    ensures |S4| == 4 && |B4| == 4 && Permutation(S4[2], B4[2]) && Permutation(S4[3], B4[3])
  {
    forall v | 0 <= v < 16 ensures At(S4[2], B4[2], v) && At(S4[3], B4[3], v) {
      Sixteen(v);
    }
  }

  /** Where the numbers are in selection function 5. */
  const B5: Table := [
    [13, 3, 0, 10, 2, 9, 7, 4, 8, 15, 5, 6, 1, 12, 14, 11],
    [9, 7, 2, 12, 4, 8, 15, 5, 14, 13, 11, 1, 3, 6, 0, 10],
    [14, 2, 1, 13, 0, 11, 12, 6, 7, 9, 4, 3, 10, 5, 15, 8],
    [10, 4, 6, 15, 13, 14, 8, 3, 1, 11, 12, 0, 2, 7, 5, 9]
  ]

  lemma {:induction false} UpperS5()
    ensures |S5| == 4 && |B5| == 4 && Permutation(S5[0], B5[0]) && Permutation(S5[1], B5[1])
  {
    forall v | 0 <= v < 16 ensures At(S5[0], B5[0], v) && At(S5[1], B5[1], v) {
      Sixteen(v);
    }
  }

  lemma {:induction false} LowerS5()
    ensures |S5| == 4 && |B5| == 4 && Permutation(S5[2], B5[2]) && Permutation(S5[3], B5[3])
  {
    forall v | 0 <= v < 16 ensures At(S5[2], B5[2], v) && At(S5[3], B5[3], v) {
      Sixteen(v);
    }
  }

  /** Where the numbers are in selection function 6. */
  const B6: Table := [
    [8, 1, 5, 10, 11, 14, 6, 13, 7, 4, 2, 15, 0, 9, 12, 3],
    [12, 9, 3, 14, 2, 7, 8, 4, 15, 6, 0, 13, 5, 10, 11, 1],
    [9, 12, 4, 7, 10, 3, 15, 8, 5, 0, 11, 14, 6, 13, 1, 2],
    [13, 10, 2, 1, 0, 5, 12, 11, 14, 4, 7, 8, 3, 15, 9, 6]
  ]

  lemma {:induction false} UpperS6()
    ensures |S6| == 4 && |B6| == 4 && Permutation(S6[0], B6[0]) && Permutation(S6[1], B6[1])
  {
    forall v | 0 <= v < 16 ensures At(S6[0], B6[0], v) && At(S6[1], B6[1], v) {
      Sixteen(v);
    }
  }

  lemma {:induction false} LowerS6()
    ensures |S6| == 4 && |B6| == 4 && Permutation(S6[2], B6[2]) && Permutation(S6[3], B6[3])
  {
    forall v | 0 <= v < 16 ensures At(S6[2], B6[2], v) && At(S6[3], B6[3], v) {
      Sixteen(v);
    }
  }

  /** Where the numbers are in selection function 7. */
  const B7: Table := [
    [5, 15, 2, 8, 0, 12, 14, 11, 6, 10, 13, 1, 9, 7, 3, 4],
    [1, 6, 12, 9, 4, 10, 15, 3, 14, 5, 7, 2, 11, 0, 8, 13],
    [12, 0, 15, 5, 1, 13, 10, 6, 11, 14, 8, 2, 4, 3, 7, 9],
    [10, 4, 13, 14, 5, 9, 0, 7, 3, 8, 6, 1, 15, 2, 12, 11]
  ]

  lemma {:induction false} UpperS7()
    ensures |S7| == 4 && |B7| == 4 && Permutation(S7[0], B7[0]) && Permutation(S7[1], B7[1])
  {
    forall v | 0 <= v < 16 ensures At(S7[0], B7[0], v) && At(S7[1], B7[1], v) {
      Sixteen(v);
    }
  }

  lemma {:induction false} LowerS7()
    ensures |S7| == 4 && |B7| == 4 && Permutation(S7[2], B7[2]) && Permutation(S7[3], B7[3])
  {
    forall v | 0 <= v < 16 ensures At(S7[2], B7[2], v) && At(S7[3], B7[3], v) {
      Sixteen(v);
    }
  }

  /** Where the numbers are in selection function 8. */
  const B8: Table := [
    [13, 7, 1, 10, 3, 12, 4, 15, 2, 9, 8, 6, 14, 0, 11, 5],
    [12, 0, 15, 5, 7, 9, 10, 6, 3, 14, 4, 11, 8, 2, 13, 1],
    [8, 3, 7, 13, 2, 14, 9, 0, 15, 4, 10, 1, 5, 11, 6, 12],
    [11, 1, 0, 12, 4, 13, 14, 3, 6, 10, 5, 15, 9, 7, 2, 8]
  ]

  lemma {:induction false} UpperS8()
    ensures |S8| == 4 && |B8| == 4 && Permutation(S8[0], B8[0]) && Permutation(S8[1], B8[1])
  {
    forall v | 0 <= v < 16 ensures At(S8[0], B8[0], v) && At(S8[1], B8[1], v) {
      Sixteen(v);
    }
  }

  lemma {:induction false} LowerS8()
    ensures |S8| == 4 && |B8| == 4 && Permutation(S8[2], B8[2]) && Permutation(S8[3], B8[3])
  {
    forall v | 0 <= v < 16 ensures At(S8[2], B8[2], v) && At(S8[3], B8[3], v) {
      Sixteen(v);
    }
  }

  /** Each row of each selection function is a permutation of the numbers from 0 to 15. */
  lemma {:induction false} SelectionsPermuted(j: nat) returns (back: Table)
    requires j < 8
    ensures |S| == 8 && RowsPermuted(S[j], back)
  {
    UpperS1(); UpperS2(); UpperS3(); UpperS4(); UpperS5(); UpperS6(); UpperS7(); UpperS8();
    LowerS1(); LowerS2(); LowerS3(); LowerS4(); LowerS5(); LowerS6(); LowerS7(); LowerS8();
    assert j == 0 || j == 1 || j == 2 || j == 3 || j == 4 || j == 5 || j == 6 || j == 7;
    back := [B1, B2, B3, B4, B5, B6, B7, B8][j];
  }

  lemma {:induction false} JoinedSmall(t: Table, back: Table, k: nat)
    requires RowsPermuted(t, back) && k < 64
    ensures Square(t, 4, 16) && 0 <= Joined(t)[k] < 16
    ensures Joined(t)[k] == t[k / 16][k % 16]
  {
    var r, c := k / 16, k % 16;
    assert r == 0 || r == 1 || r == 2 || r == 3;
    assert Joined(t)[k] == t[r][c];
    assert At(t[r], back[r], c);
  }

  lemma {:induction false} StandardSmall()
    ensures Small(Standard().s)
  {
    var s := Standard().s;
    forall j, k | 0 <= j < |s| && 0 <= k < |s[j]| ensures 0 <= s[j][k] < 16 {
      var back := SelectionsPermuted(j);
      JoinedSmall(S[j], back, k);
    }
  }

  // ---------- the permutation of the selected bits ----------

  /** Where the permutation puts each bit. */
  const PLACES: Table := [
    [8, 16, 22, 30],
    [12, 27, 1, 17],
    [23, 15, 29, 5],
    [25, 19, 9, 0],
    [7, 13, 24, 2],
    [3, 28, 10, 18],
    [31, 11, 21, 6],
    [4, 26, 14, 20]
  ]

  lemma {:induction false} PlaceOf(n: int)
    requires 0 <= n < 32
    ensures 0 <= n / 4 < |PLACES| && n % 4 < |PLACES[n / 4]|
    ensures var q := PLACES[n / 4][n % 4]; 0 <= q < 32 && q / 4 < |P| && q % 4 < |P[q / 4]| && P[q / 4][q % 4] == n + 1
  {
    var i, k := n / 4, n % 4;
    assert i == 0 || i == 1 || i == 2 || i == 3 || i == 4 || i == 5 || i == 6 || i == 7;
    assert k == 0 || k == 1 || k == 2 || k == 3;
  }

  /** Every bit of the selections is put somewhere, so the permutation loses none. */
  lemma {:induction false} PermutesAll(n: nat) returns (x: nat)
    requires n < 32
    ensures |Standard().p| == 32 && x < 32 && Standard().p[x] == n
  {
    ShapeP();
    PlaceOf(n);
    x := PLACES[n / 4][n % 4];
  }

  // ---------- the other tables ----------

  /** The selection takes each group of four bits with its neighbours on both sides. */
  lemma {:induction false} ExpansionExact(i: int, k: int)
    requires 0 <= i < 8 && 0 <= k < 6
    ensures |EXPANSION| == 8 && |EXPANSION[i]| == 6 && EXPANSION[i][k] == (4 * i + k - 1) % 32 + 1
  {
    assert i == 0 || i == 1 || i == 2 || i == 3 || i == 4 || i == 5 || i == 6 || i == 7;
    assert k == 0 || k == 1 || k == 2 || k == 3 || k == 4 || k == 5;
  }

  /** The initial permutation: the even bits of the bytes and then the odd ones, the last
      byte first. */
  lemma {:induction false} InitialExact(i: int, k: int)
    requires 0 <= i < 8 && 0 <= k < 8
    ensures |IP| == 8 && |IP[i]| == 8 && IP[i][k] == (if i < 4 then 58 + 2 * i else 49 + 2 * i) - 8 * k
  {
    assert i == 0 || i == 1 || i == 2 || i == 3 || i == 4 || i == 5 || i == 6 || i == 7;
    assert k == 0 || k == 1 || k == 2 || k == 3 || k == 4 || k == 5 || k == 6 || k == 7;
  }

  /** The key registers are loaded column by column, and never with a parity bit. */
  lemma {:induction false} LoadExact(j: int)
    requires 0 <= j < 28
    ensures |PC1_C| == 4 && |PC1_D| == 4 && |PC1_C[j / 7]| == 7 && |PC1_D[j / 7]| == 7
    ensures PC1_C[j / 7][j % 7] == 57 - 8 * (j % 8) + j / 8
    ensures PC1_D[j / 7][j % 7] == if j < 24 then 63 - 8 * (j % 8) - j / 8 else 28 - 8 * (j - 24)
    ensures PC1_C[j / 7][j % 7] % 8 != 0 && PC1_D[j / 7][j % 7] % 8 != 0
  {
    var i, k := j / 7, j % 7;
    assert i == 0 || i == 1 || i == 2 || i == 3;
    assert k == 0 || k == 1 || k == 2 || k == 3 || k == 4 || k == 5 || k == 6;
  }

  /** The registers turn by one place before rounds 1, 2, 9 and 16 and by two before the others. */
  lemma {:induction false} ShiftsExact(i: nat)
    requires i < 16
    ensures |SHIFTS| == 16 && SHIFTS[i] == if i == 0 || i == 1 || i == 8 || i == 15 then 1 else 2
  {
  }
}
