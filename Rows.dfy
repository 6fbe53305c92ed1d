/** One row of the board and the left-swipe primitives on it: compaction
    (`swipeLeft`), the single left-to-right merge pass (`mergeLeft`), and the
    textbook 2048 rule that swipe, merge, swipe together implement. */
module Rows {
  import opened JavaInt

  /** A row of the board: 4 cells, the width `swipeLeft` and `flipRows` hard-code. */
  type Row = s: seq<Int32> | |s| == 4 witness [0, 0, 0, 0]

  /** `n` empty cells. */
  function Zeros(n: nat): (z: seq<Int32>)
    ensures |z| == n && forall i :: 0 <= i < n ==> z[i] == 0
  {
    seq(n, _ => 0)
  }

  /** The tiles (nonzero cells) of `s`, in their left-to-right order. */
  function NonZeros(s: seq<Int32>): (t: seq<Int32>)
    ensures |t| <= |s|
  {
    if s == [] then []
    else NonZeros(s[..|s| - 1]) + (if s[|s| - 1] != 0 then [s[|s| - 1]] else [])
  }

  /** `s` followed by empty cells up to width `n`. */
  function Pad(s: seq<Int32>, n: nat): (p: seq<Int32>)
    requires |s| <= n
    ensures |p| == n
  {
    s + Zeros(n - |s|)
  }

  /** No empty cell lies to the left of a tile. */
  predicate IsCompact(s: seq<Int32>) {
    forall i, j :: 0 <= i < j < |s| && s[i] == 0 ==> s[j] == 0
  }

  /** The sum of the cells of `s`, as a mathematical integer. */
  function RowSum(s: seq<Int32>): int {
    if s == [] then 0 else RowSum(s[..|s| - 1]) + s[|s| - 1]
  }

  /** The cells of `s` from right to left. */
  function Reverse(s: seq<Int32>): (t: seq<Int32>)
    ensures |t| == |s|
  {
    seq(|s|, i requires 0 <= i < |s| => s[|s| - 1 - i])
  }

  // ---------------------------------------------------------------------------
  // Facts about NonZeros and RowSum
  // ---------------------------------------------------------------------------

  lemma {:induction false} NonZerosAppend(a: seq<Int32>, b: seq<Int32>)
    ensures NonZeros(a + b) == NonZeros(a) + NonZeros(b)
    decreases |b|
  {
    if b == [] {
      assert a + b == a;
    } else {
      var b' := b[..|b| - 1];
      assert (a + b)[..|a + b| - 1] == a + b';
      NonZerosAppend(a, b');
    }
  }

  /** Extending a prefix by one cell adds that cell's tile, if any. */
  lemma NonZerosSnoc(s: seq<Int32>, i: nat)
    requires i < |s|
    ensures NonZeros(s[..i + 1]) == NonZeros(s[..i]) + (if s[i] != 0 then [s[i]] else [])
  {
    assert s[..i + 1][..i] == s[..i];
  }

  lemma NonZerosCons(x: Int32, s: seq<Int32>)
    ensures NonZeros([x] + s) == (if x != 0 then [x] else []) + NonZeros(s)
  {
    assert NonZeros([x]) == (if x != 0 then [x] else []) by {
      assert [x][..0] == [];
    }
    NonZerosAppend([x], s);
  }

  lemma {:induction false} NonZerosAllZero(s: seq<Int32>)
    requires forall i :: 0 <= i < |s| ==> s[i] == 0
    ensures NonZeros(s) == []
  {
    if s != [] {
      NonZerosAllZero(s[..|s| - 1]);
    }
  }

  lemma {:induction false} NonZerosOfTiles(s: seq<Int32>)
    requires forall i :: 0 <= i < |s| ==> s[i] != 0
    ensures NonZeros(s) == s
  {
    if s != [] {
      NonZerosOfTiles(s[..|s| - 1]);
    }
  }

  /** Every element of `NonZeros(s)` is a tile. */
  lemma {:induction false} NonZerosAreTiles(s: seq<Int32>)
    ensures forall i :: 0 <= i < |NonZeros(s)| ==> NonZeros(s)[i] != 0
  {
    if s != [] {
      NonZerosAreTiles(s[..|s| - 1]);
    }
  }

  lemma NonZerosIdempotent(s: seq<Int32>)
    ensures NonZeros(NonZeros(s)) == NonZeros(s)
  {
    NonZerosAreTiles(s);
    NonZerosOfTiles(NonZeros(s));
  }

  /** A compact sequence is its tiles followed by empty cells. */
  lemma {:induction false} CompactIsPadded(s: seq<Int32>)
    requires IsCompact(s)
    ensures |NonZeros(s)| <= |s| && s == Pad(NonZeros(s), |s|)
  {
    if s != [] {
      var n := |s| - 1;
      var init := s[..n];
      assert IsCompact(init) by {
        forall i, j | 0 <= i < j < n && init[i] == 0 ensures init[j] == 0 {
          assert init[i] == s[i] && init[j] == s[j];
        }
      }
      CompactIsPadded(init);
      var tiles := NonZeros(init);
      assert s == init + [s[n]];
      if s[n] == 0 {
        assert NonZeros(s) == tiles;
        assert Zeros(|s| - |tiles|) == Zeros(n - |tiles|) + [0];
      } else {
        assert forall i :: 0 <= i < n ==> init[i] != 0 by {
          forall i | 0 <= i < n ensures init[i] != 0 {
            assert init[i] == s[i];
          }
        }
        NonZerosOfTiles(init);
        assert NonZeros(s) == s;
      }
    }
  }

  lemma {:induction false} RowSumAppend(a: seq<Int32>, b: seq<Int32>)
    ensures RowSum(a + b) == RowSum(a) + RowSum(b)
    decreases |b|
  {
    if b == [] {
      assert a + b == a;
    } else {
      var b' := b[..|b| - 1];
      assert (a + b)[..|a + b| - 1] == a + b';
      RowSumAppend(a, b');
    }
  }

  /** Extending a prefix by one cell adds that cell to the sum. */
  lemma RowSumSnoc(s: seq<Int32>, i: nat)
    requires i < |s|
    ensures RowSum(s[..i + 1]) == RowSum(s[..i]) + s[i]
  {
    assert s[..i + 1][..i] == s[..i];
  }

  lemma {:induction false} RowSumAllZero(s: seq<Int32>)
    requires forall i :: 0 <= i < |s| ==> s[i] == 0
    ensures RowSum(s) == 0
  {
    if s != [] {
      RowSumAllZero(s[..|s| - 1]);
    }
  }

  /** Empty cells contribute nothing to the sum. */
  lemma {:induction false} RowSumNonZeros(s: seq<Int32>)
    ensures RowSum(NonZeros(s)) == RowSum(s)
  {
    if s != [] {
      var init := s[..|s| - 1];
      RowSumNonZeros(init);
      RowSumAppend(NonZeros(init), if s[|s| - 1] != 0 then [s[|s| - 1]] else []);
      assert [s[|s| - 1]][..0] == [];
    }
  }

  /** Overwriting one cell changes the sum by the difference. */
  lemma {:induction false} RowSumUpdate(s: seq<Int32>, i: nat, v: Int32)
    requires i < |s|
    ensures RowSum(s[i := v]) == RowSum(s) - s[i] + v
  {
    var n := |s| - 1;
    if i < n {
      assert s[i := v][..n] == s[..n][i := v];
      RowSumUpdate(s[..n], i, v);
    } else {
      assert s[i := v][..n] == s[..n];
    }
  }

  lemma RowSum4(s: seq<Int32>)
    requires |s| == 4
    ensures RowSum(s) == s[0] as int + s[1] + s[2] + s[3]
  {
    assert s[..3][..2] == s[..2];
    assert s[..2][..1] == s[..1];
    assert s[..1][..0] == [];
    assert RowSum(s[..1]) == s[0];
    assert RowSum(s[..2]) == s[0] as int + s[1];
    assert RowSum(s[..3]) == s[0] as int + s[1] + s[2];
    assert s[..4] == s;
  }

  // ---------------------------------------------------------------------------
  // swipeLeft on one row
  // ---------------------------------------------------------------------------

  /** Tiles followed by empty cells form a compact sequence. */
  lemma PadTilesCompact(tiles: seq<Int32>, n: nat)
    requires |tiles| <= n
    requires forall i :: 0 <= i < |tiles| ==> tiles[i] != 0
    ensures IsCompact(Pad(tiles, n))
  {
    var p := Pad(tiles, n);
    assert forall i :: 0 <= i < |tiles| ==> p[i] == tiles[i];
    assert forall j :: |tiles| <= j < n ==> p[j] == Zeros(n - |tiles|)[j - |tiles|];
  }

  /** Padding adds no tiles and nothing to the sum. */
  lemma PadFacts(tiles: seq<Int32>, n: nat)
    requires |tiles| <= n
    ensures NonZeros(Pad(tiles, n)) == NonZeros(tiles)
    ensures RowSum(Pad(tiles, n)) == RowSum(tiles)
  {
    var z := Zeros(n - |tiles|);
    NonZerosAppend(tiles, z);
    NonZerosAllZero(z);
    RowSumAppend(tiles, z);
    RowSumAllZero(z);
  }

  /** The row after `swipeLeft`: its tiles packed to the left, empty cells after them. */
  function SwipeRow(s: seq<Int32>): (t: seq<Int32>)
    ensures |t| == |s|
  {
    Pad(NonZeros(s), |s|)
  }

  /** `swipeLeft` keeps the tiles of the row and their order, leaves no
      empty cell before a tile, and keeps the row's sum. */
  lemma SwipeRowFacts(s: seq<Int32>)
    ensures NonZeros(SwipeRow(s)) == NonZeros(s)
    ensures IsCompact(SwipeRow(s))
    ensures RowSum(SwipeRow(s)) == RowSum(s)
  {
    var tiles := NonZeros(s);
    PadFacts(tiles, |s|);
    NonZerosIdempotent(s);
    NonZerosAreTiles(s);
    PadTilesCompact(tiles, |s|);
    RowSumNonZeros(s);
  }

  /** Swiping a swiped row changes nothing. */
  lemma SwipeRowIdempotent(s: seq<Int32>)
    ensures SwipeRow(SwipeRow(s)) == SwipeRow(s)
  {
    SwipeRowFacts(s);
    CompactIsPadded(SwipeRow(s));
  }

  /** The example of the `swipeLeft` documentation: `0 4 0 4` becomes `4 4 0 0`. */
  lemma SwipeRowExample()
    ensures SwipeRow([0, 4, 0, 4]) == [4, 4, 0, 0]
  {
    var s: seq<Int32> := [0, 4, 0, 4];
    assert s[..0] == [] && s[..4] == s;
    NonZerosSnoc(s, 0);
    NonZerosSnoc(s, 1);
    NonZerosSnoc(s, 2);
    NonZerosSnoc(s, 3);
    assert NonZeros(s) == [4, 4];
  }

  // ---------------------------------------------------------------------------
  // mergeLeft on one row: one in-place left-to-right pass
  // ---------------------------------------------------------------------------

  /** One step of the pass at column `col`: when the cell equals its right
      neighbour, it becomes their (Java `int`) sum and the neighbour becomes 0. */
  function MergeAt(s: seq<Int32>, col: nat): (t: seq<Int32>)
    requires col + 1 < |s|
    ensures |t| == |s|
    ensures forall k :: 0 <= k < |s| && k != col && k != col + 1 ==> t[k] == s[k]
    ensures s[col] == s[col + 1] ==> t[col] == Add(s[col], s[col + 1]) && t[col + 1] == 0
    ensures s[col] != s[col + 1] ==> t == s
  {
    if s[col] == s[col + 1] then s[col := Add(s[col], s[col + 1])][col + 1 := 0] else s
  }

  /** The rest of the pass, from column `col` to the second-to-last column. */
  function MergeFrom(s: seq<Int32>, col: nat): (t: seq<Int32>)
    requires col <= |s|
    ensures |t| == |s|
    ensures t[..col] == s[..col]
    decreases |s| - col
  {
    if col + 1 >= |s| then s else MergeFrom(MergeAt(s, col), col + 1)
  }

  /** The row after `mergeLeft`. */
  function MergeRow(s: seq<Int32>): (t: seq<Int32>)
    ensures |t| == |s|
  {
    MergeFrom(s, 0)
  }

  /** One step of the pass keeps the row's sum, as Java's `int` sees it. */
  lemma MergeAtSum(s: seq<Int32>, col: nat)
    requires col + 1 < |s|
    ensures Congruent(RowSum(MergeAt(s, col)), RowSum(s))
  {
    if s[col] == s[col + 1] {
      var a, b := s[col], s[col + 1];
      var w := Add(a, b);
      var s1 := s[col := w];
      RowSumUpdate(s, col, w);
      RowSumUpdate(s1, col + 1, 0);
      assert RowSum(MergeAt(s, col)) == RowSum(s) - (a as int + b) + w;
      AddCongruent(a, b);
      CongruentReplace(RowSum(s), a as int + b, w);
    }
  }

  lemma {:induction false} MergeFromSum(s: seq<Int32>, col: nat)
    requires col <= |s|
    ensures Congruent(RowSum(MergeFrom(s, col)), RowSum(s))
    decreases |s| - col
  {
    if col + 1 < |s| {
      var t := MergeAt(s, col);
      MergeAtSum(s, col);
      MergeFromSum(t, col + 1);
      CongruentTransitive(RowSum(MergeFrom(t, col + 1)), RowSum(t), RowSum(s));
    }
  }

  /** `mergeLeft` keeps the row's sum, as Java's `int` arithmetic sees it. */
  lemma MergeRowSum(s: seq<Int32>)
    ensures Congruent(RowSum(MergeRow(s)), RowSum(s))
  {
    MergeFromSum(s, 0);
  }

  /** The pass does not cascade: four equal tiles merge pairwise. */
  lemma MergeRowFourEqual(v: Int32)
    ensures MergeRow([v, v, v, v]) == [Add(v, v), 0, Add(v, v), 0]
  {
    var s0: seq<Int32> := [v, v, v, v];
    var s1 := MergeAt(s0, 0);
    assert s1 == [Add(v, v), 0, v, v];
    var s2 := MergeAt(s1, 1);
    assert s2 == [Add(v, v), 0, v, v] by {
      if v == 0 {
        assert s1[1] == s1[2];
      }
    }
    var s3 := MergeAt(s2, 2);
    assert s3 == [Add(v, v), 0, Add(v, v), 0];
    assert MergeFrom(s0, 0) == MergeFrom(s1, 1) == MergeFrom(s2, 2) == MergeFrom(s3, 3) == s3;
  }

  // ---------------------------------------------------------------------------
  // The textbook 2048 rule
  // ---------------------------------------------------------------------------

  /** A list of tiles with each pair of equal neighbours, taken from the left,
      replaced by their sum: the rule players know for one swipe. */
  function PairUp(tiles: seq<Int32>): (r: seq<Int32>)
    ensures |r| <= |tiles|
  {
    if |tiles| < 2 then tiles
    else if tiles[0] == tiles[1] then [Add(tiles[0], tiles[1])] + PairUp(tiles[2..])
    else [tiles[0]] + PairUp(tiles[1..])
  }

  lemma {:induction false} MergeFromOnZeros(s: seq<Int32>, col: nat)
    requires col <= |s|
    requires forall k :: col <= k < |s| ==> s[k] == 0
    ensures MergeFrom(s, col) == s
    decreases |s| - col
  {
    if col + 1 < |s| {
      assert MergeAt(s, col) == s;
      MergeFromOnZeros(s, col + 1);
    }
  }

  /** A compact sequence that starts with an empty cell has no tiles. */
  lemma CompactFromZero(s: seq<Int32>)
    requires IsCompact(s) && s != [] && s[0] == 0
    ensures forall k :: 0 <= k < |s| ==> s[k] == 0
    ensures NonZeros(s) == []
  {
    assert forall k :: 0 <= k < |s| ==> s[k] == 0;
    NonZerosAllZero(s);
  }

  /** The pairing rule when the first tile does not merge with the next one. */
  lemma PairUpKeep(x: Int32, tail: seq<Int32>)
    requires x != 0 && IsCompact(tail)
    requires tail != [] ==> tail[0] != x
    ensures NonZeros(PairUp(NonZeros([x] + tail))) == [x] + NonZeros(PairUp(NonZeros(tail)))
  {
    NonZerosCons(x, tail);
    if tail == [] || tail[0] == 0 {
      if tail != [] {
        CompactFromZero(tail);
      }
      NonZerosCons(x, []);
    } else {
      assert tail == [tail[0]] + tail[1..];
      NonZerosCons(tail[0], tail[1..]);
      NonZerosCons(x, PairUp(NonZeros(tail)));
    }
  }

  /** The pairing rule when the first two tiles are equal. */
  lemma PairUpMerge(x: Int32, rest: seq<Int32>)
    requires x != 0
    ensures NonZeros(PairUp(NonZeros([x, x] + rest)))
         == NonZeros([Add(x, x)]) + NonZeros(PairUp(NonZeros(rest)))
  {
    var tiles := NonZeros(rest);
    var u := [x] + ([x] + tiles);
    calc {
      NonZeros([x, x] + rest);
      { assert [x, x] + rest == [x] + ([x] + rest); }
      NonZeros([x] + ([x] + rest));
      { NonZerosCons(x, [x] + rest); }
      [x] + NonZeros([x] + rest);
      { NonZerosCons(x, rest); }
      u;
    }
    assert u[0] == x && u[1] == x && u[2..] == tiles;
    NonZerosAppend([Add(x, x)], PairUp(tiles));
  }

  lemma NonZerosTrailingZero(w: Int32)
    ensures NonZeros([w, 0]) == NonZeros([w])
  {
    assert [w, 0][..1] == [w];
  }

  /** Once the pass has merged a pair at `col`, the step at `col + 1` starts
      from an empty cell and so changes nothing (two empty cells merge into
      an empty cell). */
  lemma MergeAfterPair(s: seq<Int32>, col: nat)
    requires col + 2 <= |s| && s[col] == s[col + 1] != 0
    ensures MergeFrom(MergeAt(s, col), col + 1) == MergeFrom(MergeAt(s, col), col + 2)
  {
    var s1 := MergeAt(s, col);
    if col + 2 < |s| {
      assert MergeAt(s1, col + 1) == s1 by {
        if s1[col + 2] == 0 {
          assert s1[col + 1] == 0;
        }
      }
    }
  }

  lemma CompactDrop(s: seq<Int32>, col: nat, k: nat)
    requires col <= k <= |s| && IsCompact(s[col..])
    ensures IsCompact(s[k..])
  {
    forall i, j | 0 <= i < j < |s[k..]| && s[k..][i] == 0 ensures s[k..][j] == 0 {
      assert s[k..][i] == s[col..][i + k - col];
      assert s[k..][j] == s[col..][j + k - col];
    }
  }

  /** On a row whose unvisited part is compact, the rest of the pass pairs up
      the tiles of that part as `PairUp` does. */
  lemma {:induction false} MergeFromCompact(s: seq<Int32>, col: nat)
    requires col <= |s| && IsCompact(s[col..])
    ensures NonZeros(MergeFrom(s, col)) == NonZeros(s[..col]) + NonZeros(PairUp(NonZeros(s[col..])))
    decreases |s| - col
  {
    var rest := s[col..];
    assert s == s[..col] + rest;
    if col + 1 >= |s| {
      NonZerosAppend(s[..col], rest);
      NonZerosIdempotent(rest);
    } else if s[col] == 0 {
      CompactRestFromZero(s, col);
      NoTilesAfter(s, col);
    } else if s[col] != s[col + 1] {
      CompactDrop(s, col, col + 1);
      MergeFromCompact(s, col + 1);
      KeepTiles(s, col);
      MergeFromCompactKeep(s, col);
    } else {
      CompactDrop(s, col, col + 2);
      assert MergeAt(s, col)[col + 2..] == s[col + 2..];
      MergeFromCompact(MergeAt(s, col), col + 2);
      MergeFromCompactPair(s, col);
    }
  }

  /** A compact unvisited part that starts with an empty cell holds no tile,
      so the rest of the pass leaves the row as it is. */
  lemma CompactRestFromZero(s: seq<Int32>, col: nat)
    requires col < |s| && IsCompact(s[col..]) && s[col] == 0
    ensures MergeFrom(s, col) == s
    ensures NonZeros(s[col..]) == []
  {
    var rest := s[col..];
    CompactFromZero(rest);
    forall k | col <= k < |s| ensures s[k] == 0 {
      assert s[k] == rest[k - col];
    }
    MergeFromOnZeros(s, col);
  }

  /** The split of the tiles at `col` when the part from `col` on holds none. */
  lemma NoTilesAfter(s: seq<Int32>, col: nat)
    requires col < |s| && NonZeros(s[col..]) == []
    ensures NonZeros(s) == NonZeros(s[..col]) + NonZeros(PairUp(NonZeros(s[col..])))
  {
    var pre, rest := s[..col], s[col..];
    assert NonZeros(s) == NonZeros(pre) + NonZeros(rest) by {
      assert s == pre + rest;
      NonZerosAppend(pre, rest);
    }
    assert NonZeros(PairUp(NonZeros(rest))) == [] by {
      assert PairUp([]) == [];
    }
  }

  /** A tile that differs from its right neighbour is kept as it is. */
  lemma KeepTiles(s: seq<Int32>, col: nat)
    requires col + 1 < |s| && s[col] != 0 && s[col] != s[col + 1]
    requires IsCompact(s[col + 1..])
    ensures NonZeros(PairUp(NonZeros(s[col..]))) == [s[col]] + NonZeros(PairUp(NonZeros(s[col + 1..])))
  {
    assert s[col..] == [s[col]] + s[col + 1..];
    PairUpKeep(s[col], s[col + 1..]);
  }

  /** The step of `MergeFromCompact` at a tile that differs from its right
      neighbour, given the claim for the pass from the next cell on. */
  lemma MergeFromCompactKeep(s: seq<Int32>, col: nat)
    requires col + 1 < |s| && s[col] != 0 && s[col] != s[col + 1]
    requires NonZeros(PairUp(NonZeros(s[col..]))) == [s[col]] + NonZeros(PairUp(NonZeros(s[col + 1..])))
    requires NonZeros(MergeFrom(s, col + 1)) == NonZeros(s[..col + 1]) + NonZeros(PairUp(NonZeros(s[col + 1..])))
    ensures NonZeros(MergeFrom(s, col)) == NonZeros(s[..col]) + NonZeros(PairUp(NonZeros(s[col..])))
  {
    var x := s[col];
    var tail := NonZeros(PairUp(NonZeros(s[col + 1..])));
    var done := NonZeros(s[..col]);
    assert MergeFrom(s, col) == MergeFrom(s, col + 1) by {
      assert MergeAt(s, col) == s;
    }
    assert NonZeros(s[..col + 1]) == done + [x] by {
      NonZerosSnoc(s, col);
    }
    ConcatAssoc(done, [x], tail);
  }

  /** The part of `s` from `i` on, with its first two cells split off. */
  lemma SlicePair(s: seq<Int32>, i: nat)
    requires i + 1 < |s|
    ensures s[i..] == [s[i], s[i + 1]] + s[i + 2..]
  {
  }

  lemma ConcatAssoc<T>(a: seq<T>, b: seq<T>, c: seq<T>)
    ensures (a + b) + c == a + (b + c)
  {
  }

  /** The tiles of the visited part once a pair has merged at `col`. */
  lemma MergeAtPairPrefix(s: seq<Int32>, col: nat)
    requires col + 1 < |s| && s[col] == s[col + 1]
    ensures NonZeros(MergeAt(s, col)[..col + 2]) == NonZeros(s[..col]) + NonZeros([Add(s[col], s[col])])
  {
    var w := Add(s[col], s[col]);
    assert MergeAt(s, col)[..col + 2] == s[..col] + [w, 0];
    NonZerosAppend(s[..col], [w, 0]);
    NonZerosTrailingZero(w);
  }

  /** The step of `MergeFromCompact` at two equal tiles, given the claim for
      the pass from the cell after the pair on. */
  lemma MergeFromCompactPair(s: seq<Int32>, col: nat)
    requires col + 1 < |s| && s[col] != 0 && s[col] == s[col + 1]
    requires NonZeros(MergeFrom(MergeAt(s, col), col + 2))
      == NonZeros(MergeAt(s, col)[..col + 2]) + NonZeros(PairUp(NonZeros(s[col + 2..])))
    ensures NonZeros(MergeFrom(s, col)) == NonZeros(s[..col]) + NonZeros(PairUp(NonZeros(s[col..])))
  {
    var x := s[col];
    var w := Add(x, x);
    var s1 := MergeAt(s, col);
    var ahead := NonZeros(PairUp(NonZeros(s[col + 2..])));
    var done := NonZeros(s[..col]);
    assert MergeFrom(s, col) == MergeFrom(s1, col + 2) by {
      MergeAfterPair(s, col);
    }
    assert NonZeros(s1[..col + 2]) == done + NonZeros([w]) by {
      MergeAtPairPrefix(s, col);
    }
    assert NonZeros([w]) + ahead == NonZeros(PairUp(NonZeros(s[col..]))) by {
      SlicePair(s, col);
      PairUpMerge(x, s[col + 2..]);
    }
    ConcatAssoc(done, NonZeros([w]), ahead);
  }

  /** The row after one move to the left: swipe, merge, swipe. */
  function SlideRow(s: seq<Int32>): (t: seq<Int32>)
    ensures |t| == |s|
  {
    SwipeRow(MergeRow(SwipeRow(s)))
  }

  /** Swipe, merge, swipe is exactly the textbook rule: pair up equal
      neighbouring tiles from the left, then pack the result to the left. */
  lemma SlideRowIsPairUp(s: seq<Int32>)
    ensures SlideRow(s) == Pad(NonZeros(PairUp(NonZeros(s))), |s|)
  {
    var t := SwipeRow(s);
    var m := MergeRow(t);
    calc {
      NonZeros(m);
      { SwipeRowFacts(s);
        assert t[0..] == t && t[..0] == [];
        MergeFromCompact(t, 0); }
      NonZeros(t[..0]) + NonZeros(PairUp(NonZeros(t[0..])));
      { assert t[0..] == t && t[..0] == [];
        SwipeRowFacts(s); }
      NonZeros(PairUp(NonZeros(s)));
    }
    assert SlideRow(s) == Pad(NonZeros(m), |m|);
  }

  /** A move keeps the row's sum (as Java's `int` sees it) and leaves it compact. */
  lemma SlideRowSumAndCompact(s: seq<Int32>)
    ensures Congruent(RowSum(SlideRow(s)), RowSum(s))
    ensures IsCompact(SlideRow(s))
  {
    var m := MergeRow(SwipeRow(s));
    MergeRowSum(SwipeRow(s));
    SwipeRowFacts(s);
    SwipeRowFacts(m);
  }

  // ---------------------------------------------------------------------------
  // Moves that merge nothing
  // ---------------------------------------------------------------------------

  /** No two neighbouring entries are equal, so a pass pairs nothing up. */
  predicate NoEqualNeighbours(t: seq<Int32>) {
    forall i :: 0 <= i < |t| - 1 ==> t[i] != t[i + 1]
  }

  /** Tiles with no equal neighbours pair up into themselves. */
  lemma {:induction false} PairUpNoMerge(t: seq<Int32>)
    requires NoEqualNeighbours(t)
    ensures PairUp(t) == t
  {
    if |t| >= 2 {
      assert NoEqualNeighbours(t[1..]) by {
        forall i | 0 <= i < |t[1..]| - 1 ensures t[1..][i] != t[1..][i + 1] {
          assert t[1..][i] == t[i + 1] && t[1..][i + 1] == t[i + 2];
        }
      }
      PairUpNoMerge(t[1..]);
      assert t == [t[0]] + t[1..];
    }
  }

  /** A move left over a row whose tiles have no equal neighbours only swipes. */
  lemma SlideRowNoMerge(s: seq<Int32>)
    requires NoEqualNeighbours(NonZeros(s))
    ensures SlideRow(s) == SwipeRow(s)
  {
    SlideRowIsPairUp(s);
    PairUpNoMerge(NonZeros(s));
    NonZerosIdempotent(s);
  }

  lemma ReverseAppend(a: seq<Int32>, b: seq<Int32>)
    ensures Reverse(a + b) == Reverse(b) + Reverse(a)
  {
  }

  lemma ReverseTwice(s: seq<Int32>)
    ensures Reverse(Reverse(s)) == s
  {
  }

  /** The tiles of the reversed row are the row's tiles in reverse order. */
  lemma {:induction false} NonZerosReverse(s: seq<Int32>)
    ensures NonZeros(Reverse(s)) == Reverse(NonZeros(s))
  {
    if s != [] {
      var init, x := s[..|s| - 1], s[|s| - 1];
      var last: seq<Int32> := if x != 0 then [x] else [];
      assert Reverse(s) == [x] + Reverse(init) by {
        assert s == init + [x];
        ReverseAppend(init, [x]);
      }
      calc {
        NonZeros(Reverse(s));
        { NonZerosCons(x, Reverse(init)); }
        last + NonZeros(Reverse(init));
        { NonZerosReverse(init); }
        last + Reverse(NonZeros(init));
        { ReverseAppend(NonZeros(init), last); }
        Reverse(NonZeros(init) + last);
      }
    }
  }

  /** Reversing keeps the absence of equal neighbours. */
  lemma NoEqualNeighboursReverse(t: seq<Int32>)
    requires NoEqualNeighbours(t)
    ensures NoEqualNeighbours(Reverse(t))
  {
    forall i | 0 <= i < |t| - 1 ensures Reverse(t)[i] != Reverse(t)[i + 1] {
      assert Reverse(t)[i] == t[|t| - 1 - i] && Reverse(t)[i + 1] == t[|t| - 2 - i];
    }
  }

  // ---------------------------------------------------------------------------
  // Worked examples of a move to the left
  // ---------------------------------------------------------------------------

  /** `2 2 2 2` moves left to `4 4 0 0`: the pairs merge once each. */
  lemma SlideRowExampleFourTwos(s: seq<Int32>)
    requires s == [2, 2, 2, 2]
    ensures SlideRow(s) == [4, 4, 0, 0]
  {
    SlideRowIsPairUp(s);
    NonZerosOfTiles(s);
    assert PairUp(s) == [4, 4] by {
      assert s[2..] == [2, 2] && s[2..][2..] == [];
    }
    NonZerosOfTiles([4, 4]);
  }

  /** `0 4 0 4` moves left to `8 0 0 0`: the tiles close up, then merge. */
  lemma SlideRowExampleGap(s: seq<Int32>)
    requires s == [0, 4, 0, 4]
    ensures SlideRow(s) == [8, 0, 0, 0]
  {
    SlideRowIsPairUp(s);
    assert s[..0] == [] && s[..4] == s;
    NonZerosSnoc(s, 0);
    NonZerosSnoc(s, 1);
    NonZerosSnoc(s, 2);
    NonZerosSnoc(s, 3);
    assert PairUp([4, 4]) == [8] by {
      assert [4, 4][2..] == [];
    }
    NonZerosOfTiles([8]);
  }

  /** A lone tile at the far end moves all the way: `0 0 0 2` becomes `2 0 0 0`. */
  lemma SlideRowExampleLoneTile(s: seq<Int32>)
    requires s == [0, 0, 0, 2]
    ensures SlideRow(s) == [2, 0, 0, 0]
  {
    SlideRowIsPairUp(s);
    assert s[..0] == [] && s[..4] == s;
    NonZerosSnoc(s, 0);
    NonZerosSnoc(s, 1);
    NonZerosSnoc(s, 2);
    NonZerosSnoc(s, 3);
    NonZerosOfTiles([2]);
  }

  /** An empty row stays empty. */
  lemma SlideRowExampleEmpty(s: seq<Int32>)
    requires s == [0, 0, 0, 0]
    ensures SlideRow(s) == [0, 0, 0, 0]
  {
    SlideRowIsPairUp(s);
    NonZerosAllZero(s);
    assert PairUp([]) == [];
  }
}
