/**
  The 8x16 regrouping of cmd/bmp2chr.go:130-145. With 8x16 sprites every tile
  is followed by the tile directly below it: for each band of two tile rows
  the output is the band's upper row interleaved with its lower row.

  Regrouped is the intended order, built column by column by
  RegroupedPrefix; Interleave is an independent description of one band.
  RegroupAsWritten is the source's loop, whose bound len(Tiles)/2 is checked
  on a counter that also jumps over the lower rows, so with more than one
  band it stops early: its output is a prefix of Regrouped, of length
  AsWrittenLength. RegroupTiles is the same loop with the bound the jump
  needs, and produces all of Regrouped.
 */
module Regroup {
  import opened Arith

  /** a[0], b[0], a[1], b[1], ... */
  function Interleave<T>(a: seq<T>, b: seq<T>): (r: seq<T>)
    requires |a| == |b|
    ensures |r| == 2 * |a|
  {
    seq(2 * |a|, k requires 0 <= k < 2 * |a| => if k % 2 == 0 then a[k / 2] else b[k / 2])
  }

  /**
    n tiles make whole bands of two tile rows of perRow tiles each; for a tile
    position n, it is the first tile of a band.
   */
  predicate WholeBands(n: nat, perRow: nat)
    decreases n
  {
    perRow > 0 && (n == 0 || (n >= 2 * perRow && WholeBands(n - 2 * perRow, perRow)))
  }

  // ------------------------------------------------------------ the intended order
  /**
    The intended order of the whole bands before tile `start`, followed by
    the first c columns of the band that starts there, each column being an
    upper tile and the tile below it.
   */
  function RegroupedPrefix<T>(tiles: seq<T>, perRow: nat, start: nat, c: nat): (r: seq<T>)
    requires WholeBands(start, perRow) && c <= perRow && start <= |tiles|
    requires c > 0 ==> start + 2 * perRow <= |tiles|
    ensures |r| == start + 2 * c
    decreases start, c
  {
    if c > 0 then
      RegroupedPrefix(tiles, perRow, start, c - 1) + [tiles[start + c - 1], tiles[start + perRow + c - 1]]
    else if start == 0 then []
    else RegroupedPrefix(tiles, perRow, start - 2 * perRow, perRow)
  }

  /** The intended 8x16 order of the tiles. */
  function Regrouped<T>(tiles: seq<T>, perRow: nat): (r: seq<T>)
    requires WholeBands(|tiles|, perRow)
    ensures |r| == |tiles|
  {
    RegroupedPrefix(tiles, perRow, |tiles|, 0)
  }

  /** One more column appends the next upper tile and the tile below it. */
  lemma PrefixGrows<T>(tiles: seq<T>, perRow: nat, start: nat, c: nat)
    requires WholeBands(start, perRow) && c < perRow && start + 2 * perRow <= |tiles|
    ensures RegroupedPrefix(tiles, perRow, start, c + 1)
         == RegroupedPrefix(tiles, perRow, start, c) + [tiles[start + c], tiles[start + perRow + c]]
  {
  }

  /** A finished band is the start of the next one. */
  lemma PrefixNextBand<T>(tiles: seq<T>, perRow: nat, start: nat)
    requires WholeBands(start, perRow) && start + 2 * perRow <= |tiles|
    ensures WholeBands(start + 2 * perRow, perRow)
    ensures RegroupedPrefix(tiles, perRow, start + 2 * perRow, 0) == RegroupedPrefix(tiles, perRow, start, perRow)
  {
    assert WholeBands(start + 2 * perRow - 2 * perRow, perRow);
  }

  /** Column k of the band at `start`: the upper tile at start + 2k, the tile below it at start + 2k + 1. */
  lemma {:induction false} PrefixAt<T>(tiles: seq<T>, perRow: nat, start: nat, c: nat, k: nat)
    requires WholeBands(start, perRow) && c <= perRow && start + 2 * perRow <= |tiles| && k < c
    ensures RegroupedPrefix(tiles, perRow, start, c)[start + 2 * k] == tiles[start + k]
    ensures RegroupedPrefix(tiles, perRow, start, c)[start + 2 * k + 1] == tiles[start + perRow + k]
    decreases c
  {
    if k < c - 1 {
      PrefixAt(tiles, perRow, start, c - 1, k);
    }
  }

  /** Within one band, an earlier point of the order is a prefix of a later one. */
  lemma {:induction false} PrefixWithinBand<T>(tiles: seq<T>, perRow: nat, s: nat, c: nat, c': nat)
    requires WholeBands(s, perRow) && c <= c' <= perRow && s <= |tiles|
    requires c' > 0 ==> s + 2 * perRow <= |tiles|
    ensures RegroupedPrefix(tiles, perRow, s, c) <= RegroupedPrefix(tiles, perRow, s, c')
    decreases c'
  {
    if c < c' {
      PrefixWithinBand(tiles, perRow, s, c, c' - 1);
    }
  }

  /** An earlier point of the order is a prefix of the start of any later band. */
  lemma {:induction false} PrefixAcrossBands<T>(tiles: seq<T>, perRow: nat, s: nat, c: nat, s': nat)
    requires WholeBands(s, perRow) && WholeBands(s', perRow) && c <= perRow && s < s' <= |tiles|
    requires c > 0 ==> s + 2 * perRow <= |tiles|
    ensures RegroupedPrefix(tiles, perRow, s, c) <= RegroupedPrefix(tiles, perRow, s', 0)
    decreases s'
  {
    BandStartsApart(s, s', perRow);
    var s0 := s' - 2 * perRow;
    assert WholeBands(s0, perRow);
    assert RegroupedPrefix(tiles, perRow, s', 0) == RegroupedPrefix(tiles, perRow, s0, perRow);
    if s == s0 {
      PrefixWithinBand(tiles, perRow, s, c, perRow);
    } else {
      PrefixAcrossBands(tiles, perRow, s, c, s0);
      PrefixWithinBand(tiles, perRow, s0, 0, perRow);
    }
  }

  /** An earlier point of the order is a prefix of a later one. */
  lemma PrefixMonotone<T>(tiles: seq<T>, perRow: nat, s: nat, c: nat, s': nat, c': nat)
    requires WholeBands(s, perRow) && c <= perRow && (c > 0 ==> s + 2 * perRow <= |tiles|)
    requires WholeBands(s', perRow) && c' <= perRow && s' <= |tiles| && (c' > 0 ==> s' + 2 * perRow <= |tiles|)
    requires s < s' || (s == s' && c <= c')
    ensures RegroupedPrefix(tiles, perRow, s, c) <= RegroupedPrefix(tiles, perRow, s', c')
  {
    if s == s' {
      PrefixWithinBand(tiles, perRow, s, c, c');
    } else {
      PrefixAcrossBands(tiles, perRow, s, c, s');
      PrefixWithinBand(tiles, perRow, s', 0, c');
    }
  }

  /** Taking one more element of a row adds that element to its multiset. */
  lemma MultisetSnoc<T>(row: seq<T>, c: nat, x: T)
    requires 0 < c <= |row| && x == row[c - 1]
    ensures multiset(row[..c]) == multiset(row[..c - 1]) + multiset{x}
  {
    assert row[..c] == row[..c - 1] + [x];
  }

  /** Appending column c - 1 of two rows extends both rows' multisets by one element. */
  lemma ColumnPermutes<T>(z: seq<T>, before: seq<T>, upper: seq<T>, lower: seq<T>, c: nat, a: T, b: T)
    requires 0 < c <= |upper| && c <= |lower| && a == upper[c - 1] && b == lower[c - 1]
    requires c - 1 == 0 ==> multiset(z) == multiset(before)
    requires c - 1 > 0 ==> multiset(z) == multiset(before) + multiset(upper[..c - 1]) + multiset(lower[..c - 1])
    ensures multiset(z + [a, b]) == multiset(before) + multiset(upper[..c]) + multiset(lower[..c])
  {
    MultisetSnoc(upper, c, a);
    MultisetSnoc(lower, c, b);
    var u, l := multiset(upper[..c - 1]), multiset(lower[..c - 1]);
    if c == 1 {
      assert upper[..c - 1] == [] && lower[..c - 1] == [];
    }
    assert multiset(z) == multiset(before) + u + l;
    calc {
      multiset(z + [a, b]);
      multiset(z) + multiset([a, b]);
      multiset(before) + u + l + multiset{a, b};
      multiset(before) + (u + multiset{a}) + (l + multiset{b});
    }
  }

  /** The tiles before a band, its upper row and its lower row are the tiles before the next band. */
  lemma BandPermutes<T>(z: seq<T>, tiles: seq<T>, s: nat, start: nat, perRow: nat)
    requires s + 2 * perRow == start <= |tiles| && 0 < perRow
    requires multiset(z) == multiset(tiles[..s]) + multiset(tiles[s..][..perRow]) + multiset(tiles[s + perRow..][..perRow])
    ensures multiset(z) == multiset(tiles[..start])
  {
    assert tiles[..start] == tiles[..s] + tiles[s..][..perRow] + tiles[s + perRow..][..perRow];
  }

  /** The order up to any point holds exactly the tiles already passed. */
  lemma {:induction false} PrefixPermutes<T>(tiles: seq<T>, perRow: nat, start: nat, c: nat)
    requires WholeBands(start, perRow) && c <= perRow && start <= |tiles|
    requires c > 0 ==> start + 2 * perRow <= |tiles|
    ensures c == 0 ==> multiset(RegroupedPrefix(tiles, perRow, start, c)) == multiset(tiles[..start])
    ensures c > 0 ==> (multiset(RegroupedPrefix(tiles, perRow, start, c))
                       == multiset(tiles[..start]) + multiset(tiles[start..][..c]) + multiset(tiles[start + perRow..][..c]))
    decreases start, c
  {
    if c > 0 {
      PrefixPermutes(tiles, perRow, start, c - 1);
      ColumnPermutes(RegroupedPrefix(tiles, perRow, start, c - 1), tiles[..start], tiles[start..], tiles[start + perRow..],
                     c, tiles[start + c - 1], tiles[start + perRow + c - 1]);
    } else if start > 0 {
      var s := start - 2 * perRow;
      assert perRow > 0 && WholeBands(s, perRow);
      PrefixPermutes(tiles, perRow, s, perRow);
      BandPermutes(RegroupedPrefix(tiles, perRow, s, perRow), tiles, s, start, perRow);
    }
  }

  /** The intended order is a permutation of the tiles. */
  lemma RegroupedPermutes<T>(tiles: seq<T>, perRow: nat)
    requires WholeBands(|tiles|, perRow)
    ensures multiset(Regrouped(tiles, perRow)) == multiset(tiles)
  {
    PrefixPermutes(tiles, perRow, |tiles|, 0);
    assert tiles[..|tiles|] == tiles;
  }

  /** The order up to a point is the start of the whole intended order. */
  lemma PrefixOfRegrouped<T>(tiles: seq<T>, perRow: nat, start: nat, c: nat)
    requires WholeBands(|tiles|, perRow) && WholeBands(start, perRow) && c <= perRow && start <= |tiles|
    requires c > 0 ==> start + 2 * perRow <= |tiles|
    ensures start + 2 * c <= |tiles|
    ensures RegroupedPrefix(tiles, perRow, start, c) == Regrouped(tiles, perRow)[..start + 2 * c]
  {
    if start < |tiles| || c > 0 {
      PrefixMonotone(tiles, perRow, start, c, |tiles|, 0);
    }
  }

  /**
    Inside the band starting at tile `start`, output tiles start + 2c and
    start + 2c + 1 are column c of the band's upper row and the tile below it.
   */
  lemma RegroupedAt<T>(tiles: seq<T>, perRow: nat, start: nat, c: nat)
    requires WholeBands(|tiles|, perRow) && WholeBands(start, perRow)
    requires start < |tiles| && c < perRow
    ensures start + 2 * perRow <= |tiles|
    ensures Regrouped(tiles, perRow)[start + 2 * c] == tiles[start + c]
    ensures Regrouped(tiles, perRow)[start + 2 * c + 1] == tiles[start + perRow + c]
  {
    BandStartsApart(start, |tiles|, perRow);
    PrefixAt(tiles, perRow, start, perRow, c);
    PrefixMonotone(tiles, perRow, start, perRow, |tiles|, 0);
  }

  /** Each band of the intended order is the band's upper row interleaved with its lower row. */
  lemma RegroupedBand<T>(tiles: seq<T>, perRow: nat, start: nat)
    requires WholeBands(|tiles|, perRow) && WholeBands(start, perRow) && start < |tiles|
    ensures start + 2 * perRow <= |tiles|
    ensures Regrouped(tiles, perRow)[start..start + 2 * perRow]
         == Interleave(tiles[start..start + perRow], tiles[start + perRow..start + 2 * perRow])
  {
    BandStartsApart(start, |tiles|, perRow);
    var band := Regrouped(tiles, perRow)[start..start + 2 * perRow];
    var upper, lower := tiles[start..start + perRow], tiles[start + perRow..start + 2 * perRow];
    forall i | 0 <= i < 2 * perRow
      ensures band[i] == Interleave(upper, lower)[i]
    {
      BandAt(tiles, perRow, start, i);
    }
  }

  lemma BandAt<T>(tiles: seq<T>, perRow: nat, start: nat, i: nat)
    requires WholeBands(|tiles|, perRow) && WholeBands(start, perRow) && start < |tiles| && i < 2 * perRow
    ensures start + 2 * perRow <= |tiles|
    ensures i % 2 == 0 ==> Regrouped(tiles, perRow)[start + i] == tiles[start + i / 2]
    ensures i % 2 == 1 ==> Regrouped(tiles, perRow)[start + i] == tiles[start + perRow + i / 2]
  {
    var k := i / 2;
    RegroupedAt(tiles, perRow, start, k);
    if i % 2 == 0 {
      assert start + i == start + 2 * k;
    } else {
      assert start + i == start + 2 * k + 1;
    }
  }

  /** With exactly two tile rows the whole order is the upper row interleaved with the lower one. */
  lemma TwoRowsInterleave<T>(tiles: seq<T>, perRow: nat)
    requires perRow > 0 && |tiles| == 2 * perRow
    ensures WholeBands(|tiles|, perRow)
    ensures Regrouped(tiles, perRow) == Interleave(tiles[..perRow], tiles[perRow..])
  {
    assert WholeBands(0, perRow);
    RegroupedBand(tiles, perRow, 0);
    assert tiles[0..perRow] == tiles[..perRow] && tiles[perRow..2 * perRow] == tiles[perRow..];
    assert Regrouped(tiles, perRow)[0..2 * perRow] == Regrouped(tiles, perRow);
  }

  /**
    The order starts with the first tile, the tile below it, the second tile
    and the tile below that: with 16 tiles per row, $00, $10, $01, $11.
   */
  lemma OrderStart<T>(tiles: seq<T>, perRow: nat)
    requires WholeBands(|tiles|, perRow) && |tiles| > 0 && perRow >= 2
    ensures |tiles| >= 2 * perRow
    ensures Regrouped(tiles, perRow)[..4] == [tiles[0], tiles[perRow], tiles[1], tiles[perRow + 1]]
  {
    var r := Regrouped(tiles, perRow);
    assert WholeBands(0, perRow);
    RegroupedAt(tiles, perRow, 0, 0);
    RegroupedAt(tiles, perRow, 0, 1);
    assert r[..4] == [r[0], r[1], r[2], r[3]];
  }

  // ------------------------------------------------------------ band arithmetic

  /** Distinct band starts are at least a band apart. */
  lemma {:induction false} BandStartsApart(a: nat, b: nat, perRow: nat)
    requires WholeBands(a, perRow) && WholeBands(b, perRow) && a < b
    ensures a + 2 * perRow <= b
    decreases b
  {
    if a > 0 {
      BandStartsApart(a - 2 * perRow, b - 2 * perRow, perRow);
    }
  }

  /** Half of whole bands is a band start, or a band start plus one row. */
  lemma {:induction false} HalfOfBands(n: nat, perRow: nat)
    requires WholeBands(n, perRow)
    ensures n % 2 == 0
    ensures WholeBands(n / 2, perRow) || (n / 2 >= perRow && WholeBands(n / 2 - perRow, perRow))
    decreases n
  {
    if n > 0 {
      var m := n - 2 * perRow;
      HalfOfBands(m, perRow);
      if WholeBands(m / 2, perRow) {
        assert n / 2 - perRow == m / 2;
      } else {
        assert n / 2 == (m / 2 - perRow) + 2 * perRow;
      }
    }
  }

  /** Tile column c of a band start is column c modulo the row width; the row above a band start is a whole row. */
  lemma {:induction false} BandStartMod(start: nat, perRow: nat, c: nat)
    requires WholeBands(start, perRow) && c < perRow
    ensures (start + c) % perRow == c
    ensures start > 0 ==> (start - perRow) % perRow == 0
    decreases start
  {
    if start == 0 {
      DivModUnique(c, perRow, 0, c);
    } else {
      BandStartMod(start - 2 * perRow, perRow, c);
      var q := (start - 2 * perRow + c) / perRow;
      assert start - 2 * perRow + c == q * perRow + c;
      DivModUnique(start + c, perRow, q + 2, c);
      DivModUnique(start - perRow, perRow, q + 1, 0);
    }
  }

  // ------------------------------------------------------------ the loop itself

  /**
    The source's counter i when the loop condition is evaluated, with `start`
    the current band and c the next column to pair: at the start of every
    band after the first, i still points at the upper row's last band
    neighbour, a whole row below the band start.
   */
  function Head(start: nat, c: nat, perRow: nat): int {
    if c == 0 && start > 0 then start - perRow else start + c
  }

  /** The source's jump test `i%TilesPerRow == 0 && i > 0` holds exactly at the start of a later band. */
  lemma HeadJumps(start: nat, c: nat, perRow: nat)
    requires WholeBands(start, perRow) && c < perRow
    ensures start > 0 ==> start >= 2 * perRow
    ensures var i := Head(start, c, perRow);
      i >= 0 && ((i % perRow == 0 && i > 0) <==> (c == 0 && start > 0))
  {
    BandStartMod(start, perRow, c);
    if start > 0 {
      BandStartMod(start, perRow, 0);
    }
  }

  /** Where the loop reads its pair: the jump test sends the counter to column c of the band at start. */
  lemma JumpReaches(start: nat, c: nat, perRow: nat, i: int)
    requires WholeBands(start, perRow) && c < perRow && i == Head(start, c, perRow)
    ensures i >= 0
    ensures i % perRow == 0 && i > 0 ==> i + perRow == start + c
    ensures !(i % perRow == 0 && i > 0) ==> i == start + c
  {
    HeadJumps(start, c, perRow);
  }

  /**
    The number of tiles the source's loop emits for n tiles in whole bands:
    all of them for one band; otherwise it stops half-way, plus the pair or
    row that the jump carries past the half.
   */
  function AsWrittenLength(n: nat, perRow: nat): nat
    requires WholeBands(n, perRow)
  {
    if n == 0 then 0
    else if WholeBands(n / 2, perRow) then n / 2 + 2
    else n / 2 + perRow
  }

  /** AsWrittenContinues when half the tiles are whole bands: the loop runs one pair past the half. */
  lemma ContinuesPastWholeHalf(n: nat, half: nat, perRow: nat, start: nat, c: nat)
    requires n == half + half && half > 0
    requires WholeBands(n, perRow) && WholeBands(half, perRow) && WholeBands(start, perRow) && c < perRow
    requires start + 2 * c <= half + 2
    ensures Head(start, c, perRow) < half <==> start + 2 * c < half + 2
    ensures Head(start, c, perRow) < half ==> start < n && start + 2 * c + 2 <= half + 2
  {
    if start < half {
      BandStartsApart(start, half, perRow);
    } else if start > half {
      BandStartsApart(half, start, perRow);
    }
  }

  /** AsWrittenContinues when half the tiles end one row into a band: the loop finishes that band. */
  lemma ContinuesToBandEnd(n: nat, s: nat, perRow: nat, start: nat, c: nat)
    requires n == s + perRow + s + perRow && s < n
    requires WholeBands(n, perRow) && WholeBands(s, perRow) && WholeBands(start, perRow) && c < perRow
    requires start + 2 * c <= s + 2 * perRow
    ensures Head(start, c, perRow) < s + perRow <==> start + 2 * c < s + 2 * perRow
    ensures Head(start, c, perRow) < s + perRow ==> start < n && start + 2 * c + 2 <= s + 2 * perRow
  {
    if start < s {
      BandStartsApart(start, s, perRow);
    } else if start > s {
      BandStartsApart(s, start, perRow);
    }
  }

  /** Where the source's loop is: it goes on exactly while fewer than AsWrittenLength tiles are out. */
  lemma AsWrittenContinues(n: nat, half: nat, len: nat, perRow: nat, start: nat, c: nat)
    requires WholeBands(n, perRow) && WholeBands(start, perRow) && c < perRow
    requires half == n / 2 && len == AsWrittenLength(n, perRow)
    requires start + 2 * c <= len
    ensures Head(start, c, perRow) < half <==> start + 2 * c < len
    ensures Head(start, c, perRow) < half ==> start < n && start + 2 * c + 2 <= len
  {
    HalfOfBands(n, perRow);
    assert n == half + half;
    if n > 0 {
      if WholeBands(half, perRow) {
        ContinuesPastWholeHalf(n, half, perRow, start, c);
      } else {
        ContinuesToBandEnd(n, half - perRow, perRow, start, c);
      }
    }
  }

  /** Where the corrected loop is: it goes on exactly while tiles are left. */
  lemma CorrectedContinues(n: nat, perRow: nat, start: nat, c: nat)
    requires WholeBands(n, perRow) && WholeBands(start, perRow) && c < perRow
    requires start + 2 * c <= n
    ensures Head(start, c, perRow) + perRow < n <==> start + 2 * c < n
  {
    if start < n {
      BandStartsApart(start, n, perRow);
    } else if start > n {
      BandStartsApart(n, start, perRow);
    }
  }

  /**
    One pass of the 8x16 loop body, on the ghost position (start, c): the pair
    it appends is column c of the band at start, and the position after it
    is the next column, or the first column of the next band.
   */
  lemma Advance<T>(tiles: seq<T>, perRow: nat, start: nat, c: nat, i: nat) returns (start': nat, c': nat)
    requires WholeBands(start, perRow) && c < perRow && start + 2 * perRow <= |tiles| && i == start + c
    ensures WholeBands(start', perRow) && c' < perRow && start' + 2 * c' == start + 2 * c + 2
    ensures c' > 0 ==> start' + 2 * perRow <= |tiles|
    ensures Head(start', c', perRow) == i + 1
    ensures RegroupedPrefix(tiles, perRow, start', c')
         == RegroupedPrefix(tiles, perRow, start, c) + [tiles[i], tiles[i + perRow]]
  {
    PrefixGrows(tiles, perRow, start, c);
    assert i + perRow == start + perRow + c;
    if c + 1 < perRow {
      start', c' := start, c + 1;
    } else {
      PrefixNextBand(tiles, perRow, start);
      start', c' := start + 2 * perRow, 0;
    }
  }

  /**
    The source's 8x16 loop (cmd/bmp2chr.go:135-143): it emits the pairs of the
    intended order, but stops once its counter reaches len(Tiles)/2.
   */
  method RegroupAsWritten<T>(tiles: seq<T>, perRow: nat) returns (newTiles: seq<T>)
    requires WholeBands(|tiles|, perRow)
    ensures AsWrittenLength(|tiles|, perRow) <= |tiles|
    ensures newTiles == Regrouped(tiles, perRow)[..AsWrittenLength(|tiles|, perRow)]
  {
    AsWrittenBounded(|tiles|, perRow);
    var half := |tiles| / 2;
    ghost var len := AsWrittenLength(|tiles|, perRow);
    newTiles := [];
    var i := 0;
    ghost var start: nat, c: nat := 0, 0;
    while i < half
      invariant WholeBands(start, perRow) && c < perRow
      invariant start + 2 * c <= len
      invariant c > 0 ==> start + 2 * perRow <= |tiles|
      invariant i == Head(start, c, perRow)
      invariant newTiles == RegroupedPrefix(tiles, perRow, start, c)
    {
      assert start + 2 * perRow <= |tiles| && start + 2 * c + 2 <= len by {
        AsWrittenContinues(|tiles|, half, len, perRow, start, c);
        BandStartsApart(start, |tiles|, perRow);
      }
      JumpReaches(start, c, perRow, i);
      if i % perRow == 0 && i > 0 {
        i := i + perRow;
      }
      newTiles := newTiles + [tiles[i], tiles[i + perRow]];
      start, c := Advance(tiles, perRow, start, c, i);
      i := i + 1;
    }
    AsWrittenContinues(|tiles|, half, len, perRow, start, c);
    PrefixOfRegrouped(tiles, perRow, start, c);
  }

  /**
    The 8x16 loop with the bound its jump needs (i + TilesPerRow < len(Tiles)):
    it emits every stacked pair, in the intended order.
   */
  method RegroupTiles<T>(tiles: seq<T>, perRow: nat) returns (newTiles: seq<T>)
    requires WholeBands(|tiles|, perRow)
    ensures newTiles == Regrouped(tiles, perRow)
  {
    newTiles := [];
    var i := 0;
    ghost var start: nat, c: nat := 0, 0;
    while i + perRow < |tiles|
      invariant WholeBands(start, perRow) && c < perRow
      invariant start + 2 * c <= |tiles|
      invariant c > 0 ==> start + 2 * perRow <= |tiles|
      invariant i == Head(start, c, perRow)
      invariant newTiles == RegroupedPrefix(tiles, perRow, start, c)
    {
      assert start + 2 * perRow <= |tiles| by {
        CorrectedContinues(|tiles|, perRow, start, c);
        BandStartsApart(start, |tiles|, perRow);
      }
      JumpReaches(start, c, perRow, i);
      if i % perRow == 0 && i > 0 {
        i := i + perRow;
      }
      newTiles := newTiles + [tiles[i], tiles[i + perRow]];
      start, c := Advance(tiles, perRow, start, c, i);
      i := i + 1;
    }
    CorrectedContinues(|tiles|, perRow, start, c);
    PrefixOfRegrouped(tiles, perRow, start, c);
    assert newTiles == Regrouped(tiles, perRow)[..|tiles|];
  }

  /**
    What the source's bound loses: with one band every tile is kept; with
    more bands and at least two tiles per row, tiles are dropped.
   */
  lemma AsWrittenBounded(n: nat, perRow: nat)
    requires WholeBands(n, perRow)
    ensures AsWrittenLength(n, perRow) <= n
    ensures n <= 2 * perRow ==> AsWrittenLength(n, perRow) == n
    ensures n > 2 * perRow && perRow >= 2 ==> AsWrittenLength(n, perRow) < n
  {
    HalfOfBands(n, perRow);
    if n > 0 {
      if n <= 2 * perRow {
        assert n == 2 * perRow;
        assert WholeBands(0, perRow);
      } else if WholeBands(n / 2, perRow) && n / 2 > 0 {
        BandStartsApart(n / 2, n, perRow);
      } else {
        BandStartsApart(n / 2 - perRow, n, perRow);
      }
    }
  }

  /** 64 tiles at 16 per row (a 128x32 image) come out as 34 tiles. */
  lemma TallImageDropsTiles()
    ensures WholeBands(64, 16) && AsWrittenLength(64, 16) == 34
  {
    assert WholeBands(0, 16);
    assert WholeBands(32, 16);
  }
}
