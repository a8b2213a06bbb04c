/**
 The one-line pipeline of a 2048 move: drop the empty cells, sweep once from
 the front merging equal neighbours, and pad with empty cells back to the
 board width. A cell holds 0 when it is empty and a tile value otherwise.
 */
module Line {

  /** Width (and height) of the board. */
  const GRID_SIZE: nat := 4

  /** What a total over a line counts: tile values, occupied cells or empty cells. */
  datatype Measure = Value | Tiles | Blanks

  function Weight(m: Measure, v: nat): nat
  {
    match m
    case Value => v
    case Tiles => if v == 0 then 0 else 1
    case Blanks => if v == 0 then 1 else 0
  }

  function Total(s: seq<nat>, m: Measure): nat
  {
    if |s| == 0 then 0 else Weight(m, s[0]) + Total(s[1..], m)
  }

  /** A positive power of two. */
  predicate IsPowerOfTwo(n: nat)
    decreases n
  {
    n == 1 || (n >= 2 && n % 2 == 0 && IsPowerOfTwo(n / 2))
  }

  /** What a cell may hold: empty, or a power of two. */
  predicate ValidTile(v: nat)
  {
    v == 0 || IsPowerOfTwo(v)
  }

  predicate ValidLine(s: seq<nat>)
  {
    forall i :: 0 <= i < |s| ==> ValidTile(s[i])
  }

  predicate NoZero(s: seq<nat>)
  {
    forall i :: 0 <= i < |s| ==> s[i] != 0
  }

  predicate NoEqualNeighbours(s: seq<nat>)
  {
    forall i :: 0 <= i < |s| - 1 ==> s[i] != s[i + 1]
  }

  /** Every empty cell comes after every tile. */
  predicate Packed(s: seq<nat>)
  {
    forall i, j :: 0 <= i < j < |s| && s[i] == 0 ==> s[j] == 0
  }

  /** A line a move leaves as it is: packed, and no two neighbouring tiles equal. */
  predicate Settled(s: seq<nat>)
  {
    && Packed(s)
    && forall i :: 0 <= i < |s| - 1 && s[i] != 0 ==> s[i] != s[i + 1]
  }

  function Zeros(n: nat): (r: seq<nat>)
    ensures |r| == n
    ensures forall i :: 0 <= i < n ==> r[i] == 0
  {
    seq(n, _ => 0)
  }

  // ---------------------------------------------------------------------------
  // Totals

  lemma {:induction false} TotalConcat(a: seq<nat>, b: seq<nat>, m: Measure)
    ensures Total(a + b, m) == Total(a, m) + Total(b, m)
    decreases |a|
  {
    if |a| == 0 {
      assert a + b == b;
    } else {
      assert (a + b)[1..] == a[1..] + b;
      TotalConcat(a[1..], b, m);
    }
  }

  /** Replacing one cell changes a total by the difference of the two weights. */
  lemma {:induction false} TotalUpdate(s: seq<nat>, j: nat, v: nat, m: Measure)
    requires j < |s|
    ensures Total(s[j := v], m) + Weight(m, s[j]) == Total(s, m) + Weight(m, v)
    decreases |s|
  {
    if j == 0 {
      assert s[j := v][1..] == s[1..];
    } else {
      assert s[j := v][1..] == s[1..][j - 1 := v];
      TotalUpdate(s[1..], j - 1, v, m);
    }
  }

  lemma {:induction false} TotalZeros(n: nat, m: Measure)
    ensures Total(Zeros(n), m) == (if m == Blanks then n else 0)
    decreases n
  {
    if n > 0 {
      assert Zeros(n)[1..] == Zeros(n - 1);
      TotalZeros(n - 1, m);
    }
  }

  /** A line has an empty cell exactly when its count of empty cells is positive. */
  lemma {:induction false} BlanksPositive(s: seq<nat>)
    ensures Total(s, Blanks) > 0 <==> exists i :: 0 <= i < |s| && s[i] == 0
    decreases |s|
  {
    if |s| > 0 {
      BlanksPositive(s[1..]);
      if Total(s[1..], Blanks) > 0 {
        var i :| 0 <= i < |s[1..]| && s[1..][i] == 0;
        assert s[i + 1] == 0;
      }
      if exists i :: 0 <= i < |s| && s[i] == 0 {
        var i :| 0 <= i < |s| && s[i] == 0;
        if i > 0 {
          assert s[1..][i - 1] == 0;
        }
      }
    }
  }

  /** A line without empty cells has as many tiles as cells. */
  lemma {:induction false} TilesOfNoZero(s: seq<nat>)
    requires NoZero(s)
    ensures Total(s, Tiles) == |s|
    decreases |s|
  {
    if |s| > 0 {
      TilesOfNoZero(s[1..]);
    }
  }

  lemma {:induction false} TilesAtMostLength(s: seq<nat>)
    ensures Total(s, Tiles) <= |s|
    decreases |s|
  {
    if |s| > 0 {
      TilesAtMostLength(s[1..]);
    }
  }

  // ---------------------------------------------------------------------------
  // Reversal (the source's row[::-1])

  function Reverse(s: seq<nat>): (r: seq<nat>)
    ensures |r| == |s|
    ensures forall i :: 0 <= i < |s| ==> r[i] == s[|s| - 1 - i]
  {
    if |s| == 0 then [] else Reverse(s[1..]) + [s[0]]
  }

  lemma ReverseReverse(s: seq<nat>)
    ensures Reverse(Reverse(s)) == s
  {
  }

  lemma {:induction false} TotalReverse(s: seq<nat>, m: Measure)
    ensures Total(Reverse(s), m) == Total(s, m)
    decreases |s|
  {
    if |s| > 0 {
      TotalReverse(s[1..], m);
      TotalConcat(Reverse(s[1..]), [s[0]], m);
    }
  }

  lemma ReverseNoEqualNeighbours(s: seq<nat>)
    ensures NoEqualNeighbours(Reverse(s)) <==> NoEqualNeighbours(s)
  {
    var r := Reverse(s);
    if NoEqualNeighbours(s) {
      forall i | 0 <= i < |r| - 1
        ensures r[i] != r[i + 1]
      {
        assert s[|s| - 1 - (i + 1)] != s[|s| - 1 - (i + 1) + 1];
      }
    }
    if NoEqualNeighbours(r) {
      forall i | 0 <= i < |s| - 1
        ensures s[i] != s[i + 1]
      {
        assert r[|s| - 1 - (i + 1)] != r[|s| - 1 - (i + 1) + 1];
      }
    }
  }

  // ---------------------------------------------------------------------------
  // Compaction: [x for x in row if x != 0]

  function Compact(s: seq<nat>): (r: seq<nat>)
    ensures NoZero(r)
    ensures |r| == Total(s, Tiles) && |r| <= |s|
    ensures Total(r, Value) == Total(s, Value)
    ensures forall v :: v != 0 ==> multiset(r)[v] == multiset(s)[v]
    ensures ValidLine(s) ==> ValidLine(r)
  {
    if |s| == 0 then []
    else
      assert s == [s[0]] + s[1..];
      if s[0] == 0 then Compact(s[1..]) else [s[0]] + Compact(s[1..])
  }

  /** Compaction keeps order: it distributes over concatenation. */
  lemma {:induction false} CompactConcat(a: seq<nat>, b: seq<nat>)
    ensures Compact(a + b) == Compact(a) + Compact(b)
    decreases |a|
  {
    if |a| == 0 {
      assert a + b == b;
    } else {
      assert (a + b)[1..] == a[1..] + b;
      CompactConcat(a[1..], b);
    }
  }

  lemma {:induction false} CompactReverse(s: seq<nat>)
    ensures Compact(Reverse(s)) == Reverse(Compact(s))
    decreases |s|
  {
    if |s| > 0 {
      CompactReverse(s[1..]);
      CompactConcat(Reverse(s[1..]), [s[0]]);
      assert Compact([s[0]]) == (if s[0] == 0 then [] else [s[0]]);
    }
  }

  /** Compaction leaves a line alone exactly when it has no empty cell. */
  lemma {:induction false} CompactFixed(s: seq<nat>)
    ensures Compact(s) == s <==> NoZero(s)
    decreases |s|
  {
    if |s| > 0 {
      CompactFixed(s[1..]);
      if s[0] == 0 {
        assert |Compact(s)| <= |s[1..]| < |s|;
      }
    }
  }

  /** A packed line is its tiles followed by its empty cells. */
  lemma {:induction false} PackedSplit(s: seq<nat>)
    requires Packed(s)
    ensures s == Compact(s) + Zeros(|s| - |Compact(s)|)
    decreases |s|
  {
    if |s| > 0 {
      assert Packed(s[1..]);
      PackedSplit(s[1..]);
      if s[0] == 0 {
        assert forall j :: 0 < j < |s| ==> s[j] == 0;
        AllZeroCompact(s[1..]);
        assert s == Zeros(|s|);
      }
    }
  }

  lemma {:induction false} AllZeroCompact(s: seq<nat>)
    requires forall i :: 0 <= i < |s| ==> s[i] == 0
    ensures Compact(s) == []
    decreases |s|
  {
    if |s| > 0 {
      AllZeroCompact(s[1..]);
    }
  }

  // ---------------------------------------------------------------------------
  // The merge sweep

  /**
   One left-to-right sweep: a pair of equal neighbours becomes one tile of
   double value and the sweep continues after the pair, so a doubled tile is
   never merged again in the same sweep.
   */
  function Merge(s: seq<nat>): (r: seq<nat>)
    ensures Total(r, Value) == Total(s, Value)
    ensures |r| <= |s| <= 2 * |r|
    ensures NoZero(s) ==> NoZero(r)
    ensures ValidLine(s) ==> ValidLine(r)
  {
    if |s| < 2 then s
    else if s[0] == s[1] then
      assert s[0] + s[1] + Total(s[2..], Value) == Total(s, Value) by {
        assert s[1..][1..] == s[2..];
      }
      assert ValidTile(s[0]) ==> ValidTile(2 * s[0]);
      [2 * s[0]] + Merge(s[2..])
    else
      [s[0]] + Merge(s[1..])
  }

  /** The sweep changes nothing exactly when no two neighbours are equal; it then keeps the length too. */
  lemma {:induction false} MergeFixed(s: seq<nat>)
    ensures Merge(s) == s <==> NoEqualNeighbours(s)
    ensures |Merge(s)| == |s| <==> NoEqualNeighbours(s)
    decreases |s|
  {
    if |s| >= 2 {
      MergeFixed(s[1..]);
      if s[0] == s[1] {
        assert !NoEqualNeighbours(s);
        assert |Merge(s[2..])| <= |s| - 2;
      } else {
        assert NoEqualNeighbours(s) <==> NoEqualNeighbours(s[1..]) by {
          if NoEqualNeighbours(s[1..]) {
            forall i | 0 <= i < |s| - 1
              ensures s[i] != s[i + 1]
            {
              if i > 0 {
                assert s[1..][i - 1] == s[i];
              }
            }
          }
        }
      }
    }
  }

  /** The sweep on a line that starts with an equal pair. */
  lemma MergeHead(t: seq<nat>)
    requires |t| >= 2 && t[0] == t[1]
    ensures Merge(t) == [2 * t[0]] + Merge(t[2..])
  {
  }

  /** Moving one element from the front of the rest to the end of the prefix. */
  lemma ShiftOne(r: seq<nat>, j: nat, x: nat, rest: seq<nat>)
    requires j < |r|
    ensures r[..j] + ([x] + rest) == (r[..j] + [x]) + rest
  {
  }

  /** Doubling r[j] in place and popping r[j + 1] keeps the sweep's result. */
  lemma MergePop(r: seq<nat>, j: nat)
    requires j + 1 < |r| && r[j] == r[j + 1]
    ensures var doubled := r[j := 2 * r[j]];
            var popped := doubled[..j + 1] + doubled[j + 2..];
            popped[..j + 1] + Merge(popped[j + 1..]) == r[..j] + Merge(r[j..])
  {
    var doubled := r[j := 2 * r[j]];
    var popped := doubled[..j + 1] + doubled[j + 2..];
    assert popped[..j + 1] == r[..j] + [2 * r[j]];
    assert popped[j + 1..] == r[j + 2..];
    assert r[j..][2..] == r[j + 2..];
    MergeHead(r[j..]);
    ShiftOne(r, j, 2 * r[j], Merge(r[j + 2..]));
  }

  /** The sweep on a line that starts with two different tiles. */
  lemma MergeKeep(t: seq<nat>)
    requires |t| >= 2 && t[0] != t[1]
    ensures Merge(t) == [t[0]] + Merge(t[1..])
  {
  }

  /** Stepping past unequal neighbours keeps the sweep's result. */
  lemma MergeSkip(r: seq<nat>, j: nat)
    requires j + 1 < |r| && r[j] != r[j + 1]
    ensures r[..j + 1] + Merge(r[j + 1..]) == r[..j] + Merge(r[j..])
  {
    assert r[..j + 1] == r[..j] + [r[j]];
    assert r[j..][1..] == r[j + 1..];
    MergeKeep(r[j..]);
    ShiftOne(r, j, r[j], Merge(r[j + 1..]));
  }

  /**
   The merge loop as written: tiles are doubled in place and the right-hand
   partner is popped while the index walks forward. `merges` counts the pops.
   */
  method MergeSweep(line: seq<nat>) returns (r: seq<nat>, merges: nat)
    ensures r == Merge(line)
    ensures |r| + merges == |line|
  {
    r := line;
    merges := 0;
    var j := 0;
    while j < |r| - 1
      invariant j <= |r|
      invariant r[..j] + Merge(r[j..]) == Merge(line)
      invariant |r| + merges == |line|
      decreases |r| - j
    {
      if r[j] == r[j + 1] {
        MergePop(r, j);
        r := r[j := 2 * r[j]];
        r := r[..j + 1] + r[j + 2..];
        merges := merges + 1;
      } else {
        MergeSkip(r, j);
      }
      j := j + 1;
    }
    assert r == r[..j] + r[j..];
  }

  // ---------------------------------------------------------------------------
  // Padding and the whole pipeline

  /** row.extend([0] * (GRID_SIZE - len(row))): pads a short line, leaves a long one as is. */
  function Pad(s: seq<nat>): (r: seq<nat>)
    ensures |r| == if |s| < GRID_SIZE then GRID_SIZE else |s|
    ensures r == s + Zeros(|r| - |s|)
  {
    if |s| < GRID_SIZE then s + Zeros(GRID_SIZE - |s|) else s
  }

  lemma PadTotal(s: seq<nat>, m: Measure)
    ensures Total(Pad(s), m) == Total(s, m) + (if m == Blanks then |Pad(s)| - |s| else 0)
  {
    TotalConcat(s, Zeros(|Pad(s)| - |s|), m);
    TotalZeros(|Pad(s)| - |s|, m);
  }

  /**
   A line after a move towards its front: the tiles, merged once, then the
   empty cells.
   */
  function Collapse(line: seq<nat>): (r: seq<nat>)
    ensures |line| <= GRID_SIZE ==> |r| == GRID_SIZE
    ensures Packed(r)
    ensures Total(r, Value) == Total(line, Value)
    ensures Total(r, Tiles) == |Merge(Compact(line))| <= Total(line, Tiles)
    ensures ValidLine(line) ==> ValidLine(r)
  {
    var merged := Merge(Compact(line));
    PadTotal(merged, Value);
    PadTotal(merged, Tiles);
    TilesOfNoZero(merged);
    Pad(merged)
  }

  /** Collapsing a packed line changes nothing exactly when the line is settled. */
  lemma CollapseFixed(line: seq<nat>)
    requires |line| == GRID_SIZE
    ensures Collapse(line) == line <==> Settled(line)
  {
    if Settled(line) {
      var c := Compact(line);
      PackedSplit(line);
      assert c == line[..|c|];
      assert NoEqualNeighbours(c) by {
        forall i | 0 <= i < |c| - 1
          ensures c[i] != c[i + 1]
        {
          assert line[i] == c[i] && line[i + 1] == c[i + 1];
        }
      }
      MergeFixed(c);
    }
    if Collapse(line) == line {
      var c := Compact(line);
      var merged := Merge(c);
      PackedSplit(line);
      assert |merged| == Total(line, Tiles) == |c|;
      MergeFixed(c);
      forall i | 0 <= i < |line| - 1 && line[i] != 0
        ensures line[i] != line[i + 1]
      {
        if i + 1 < |c| {
          assert line[i] == c[i] && line[i + 1] == c[i + 1];
        } else {
          assert line[i + 1] == 0;
        }
      }
    }
  }

  /** On a line without empty cells, settled means no two neighbours are equal. */
  lemma SettledNoZero(s: seq<nat>)
    requires NoZero(s)
    ensures Settled(s) <==> NoEqualNeighbours(s)
  {
  }

  /** A line of the board width that a collapse changes is left with an empty cell. */
  lemma CollapseChangedLeavesBlank(line: seq<nat>)
    requires |line| == GRID_SIZE
    requires Collapse(line) != line
    ensures exists i :: 0 <= i < GRID_SIZE && Collapse(line)[i] == 0
  {
    var c := Compact(line);
    var merged := Merge(c);
    if |merged| == GRID_SIZE {
      assert |c| == GRID_SIZE;
      TilesOfNoZero(c);
      assert NoZero(line) by {
        if !NoZero(line) {
          var k :| 0 <= k < |line| && line[k] == 0;
          assert Total(line, Tiles) < |line| by {
            TotalUpdate(line, k, 1, Tiles);
            TilesAtMostLength(line[k := 1]);
          }
        }
      }
      CompactFixed(line);
      MergeFixed(c);
      assert false;
    }
    assert Collapse(line)[GRID_SIZE - 1] == 0;
  }

  /**
   The collapse pipeline as written (compact, merge loop, extend), with the
   number of merges it performed: each merge removes exactly one tile.
   */
  method CollapseLine(line: seq<nat>) returns (r: seq<nat>, merges: nat)
    ensures r == Collapse(line)
    ensures Total(r, Tiles) + merges == Total(line, Tiles)
  {
    var compacted := Compact(line);
    var merged;
    merged, merges := MergeSweep(compacted);
    r := Pad(merged);
  }

  // ---------------------------------------------------------------------------
  // Worked examples of the single sweep

  /** [2,2,2,0] towards the front: only the first pair merges. */
  lemma CollapseExampleTriple()
    ensures Collapse([2, 2, 2, 0]) == [4, 2, 0, 0]
  {
    assert Compact([0]) == [];
    assert Compact([2, 0]) == [2];
    assert Compact([2, 2, 0]) == [2, 2];
    assert Compact([2, 2, 2, 0]) == [2, 2, 2];
    assert Merge([2]) == [2];
    assert Merge([2, 2, 2]) == [4, 2];
  }

  /** [2,2,2,2] gives two merged pairs, not one tile of 8. */
  lemma CollapseExampleQuad()
    ensures Collapse([2, 2, 2, 2]) == [4, 4, 0, 0]
  {
    CompactFixed([2, 2, 2, 2]);
    assert Merge([2, 2]) == [4];
    assert Merge([2, 2, 2, 2]) == [4, 4];
  }

  /** [0,2,0,2]: tiles separated by empty cells still merge. */
  lemma CollapseExampleGap()
    ensures Collapse([0, 2, 0, 2]) == [4, 0, 0, 0]
  {
    assert Compact([2]) == [2];
    assert Compact([0, 2]) == [2];
    assert Compact([2, 0, 2]) == [2, 2];
    assert Compact([0, 2, 0, 2]) == [2, 2];
    assert Merge([2, 2]) == [4];
  }

  /** [2,0,2,4]: the merged 4 does not merge again with the following 4. */
  lemma CollapseExampleNoCascade()
    ensures Collapse([2, 0, 2, 4]) == [4, 4, 0, 0]
  {
    assert Compact([4]) == [4];
    assert Compact([2, 4]) == [2, 4];
    assert Compact([0, 2, 4]) == [2, 4];
    assert Compact([2, 0, 2, 4]) == [2, 2, 4];
    assert Merge([4]) == [4];
    assert Merge([2, 2, 4]) == [4, 4];
  }
}
