/**
  Pattern-table assembly in the driver (cmd/bmp2chr.go:116-182): a table of
  256 tile slots, every slot first the blank tile; each input's tiles,
  regrouped for 8x16 sprites when asked for, go either to consecutive slots
  from a running index that starts at 8 and carries over between inputs, or
  to the slots its configuration names relative to that index; finally every
  slot is encoded, in slot order.

  The specification works on TableState values; the class Table is the
  table the driver updates in place, and each of its methods is proved to
  perform the corresponding step of the specification.
 */
module Assembly {
  import opened Bytes
  import opened Wrappers
  import opened Tiles
  import opened Regroup

  /** 16 * 16 slots. */
  const TableSize: nat := 256
  /** Where sequential placement starts for the first input. */
  const FirstIndex: nat := 8

  datatype TableState = TableState(slots: seq<Tile>, index: nat)

  /** The table keeps its 256 slots, and the running index stays between 8 and 256. */
  predicate ValidState(st: TableState) {
    |st.slots| == TableSize && FirstIndex <= st.index <= TableSize
  }

  /** 256 copies of the blank tile, running index 8. */
  function InitialState(blank: Tile): (st: TableState)
    ensures ValidState(st)
    ensures st.index == FirstIndex
    ensures forall k :: 0 <= k < TableSize ==> st.slots[k] == blank
  {
    TableState(seq(TableSize, _ => blank), FirstIndex)
  }

  // --------------------------------------------------------- sequential placement

  /** slots with tiles written from slot `at` on, the other slots as they were. */
  function Splice(slots: seq<Tile>, at: nat, tiles: seq<Tile>): (r: seq<Tile>)
    requires at + |tiles| <= |slots|
    ensures |r| == |slots|
    ensures forall k :: 0 <= k < |slots| ==>
      r[k] == if at <= k < at + |tiles| then tiles[k - at] else slots[k]
  {
    slots[..at] + tiles + slots[at + |tiles|..]
  }

  /** Writing the next tile extends the spliced run by one. */
  lemma SpliceStep(slots: seq<Tile>, at: nat, tiles: seq<Tile>, k: nat)
    requires at + k < |slots| && k < |tiles|
    ensures Splice(slots, at, tiles[..k])[at + k := tiles[k]] == Splice(slots, at, tiles[..k + 1])
  {
    var a, b := Splice(slots, at, tiles[..k])[at + k := tiles[k]], Splice(slots, at, tiles[..k + 1]);
    assert forall i :: 0 <= i < |slots| ==> a[i] == b[i];
  }

  /** How many of `count` tiles fit from slot `at` to the last slot. */
  function SequentialCount(at: nat, count: nat): (n: nat)
    requires at <= TableSize
    ensures n <= count && at + n <= TableSize
    ensures n < count ==> at + n == TableSize
  {
    if count <= TableSize - at then count else TableSize - at
  }

  /**
    Sequential placement (cmd/bmp2chr.go:156-167): tile k goes to slot
    index + k; the loop stops right after slot 255 is written, dropping the
    rest; an input that finds the index already at 256 writes out of range.
   */
  function PlaceSequentially(st: TableState, tiles: seq<Tile>): (r: Option<TableState>)
    requires ValidState(st)
    ensures r.Some? <==> |tiles| == 0 || st.index < TableSize
    ensures r.Some? ==>
      var n := SequentialCount(st.index, |tiles|);
      && ValidState(r.value)
      && r.value.index == st.index + n
      && (forall k :: 0 <= k < TableSize ==>
            r.value.slots[k] == if st.index <= k < st.index + n then tiles[k - st.index] else st.slots[k])
  {
    if |tiles| > 0 && st.index == TableSize then None
    else
      var n := SequentialCount(st.index, |tiles|);
      Some(TableState(Splice(st.slots, st.index, tiles[..n]), st.index + n))
  }

  // ------------------------------------------------------------ config placement

  /** Every one of the first `count` tiles has an offset, and each lands inside the table. */
  predicate ConfigInRange(base: int, count: nat, indices: seq<int>) {
    count <= |indices| && forall k :: 0 <= k < count ==> 0 <= base + indices[k] < TableSize
  }

  /** The table after the first n tiles are written to slots base + indices[k], in order. */
  function ConfigPlaced(slots: seq<Tile>, base: int, tiles: seq<Tile>, indices: seq<int>, n: nat): (r: seq<Tile>)
    requires |slots| == TableSize && n <= |tiles| && ConfigInRange(base, n, indices)
    ensures |r| == TableSize
    decreases n
  {
    if n == 0 then slots
    else ConfigPlaced(slots, base, tiles, indices, n - 1)[base + indices[n - 1] := tiles[n - 1]]
  }

  /** A slot no tile is mapped to keeps its previous tile. */
  lemma {:induction false} ConfigUntouched(slots: seq<Tile>, base: int, tiles: seq<Tile>, indices: seq<int>, n: nat, s: nat)
    requires |slots| == TableSize && n <= |tiles| && ConfigInRange(base, n, indices) && s < TableSize
    requires forall k :: 0 <= k < n ==> base + indices[k] != s
    ensures ConfigPlaced(slots, base, tiles, indices, n)[s] == slots[s]
    decreases n
  {
    if n > 0 {
      ConfigUntouched(slots, base, tiles, indices, n - 1, s);
    }
  }

  /** A slot several tiles are mapped to ends with the last of them. */
  lemma {:induction false} ConfigLastWins(slots: seq<Tile>, base: int, tiles: seq<Tile>, indices: seq<int>, n: nat, k: nat)
    requires |slots| == TableSize && n <= |tiles| && ConfigInRange(base, n, indices) && k < n
    requires forall j :: k < j < n ==> indices[j] != indices[k]
    ensures ConfigPlaced(slots, base, tiles, indices, n)[base + indices[k]] == tiles[k]
    decreases n
  {
    if k < n - 1 {
      ConfigLastWins(slots, base, tiles, indices, n - 1, k);
    }
  }

  /**
    Config placement (cmd/bmp2chr.go:147-154): tile k goes to slot
    index + Indices[k], unchecked, and the running index does not move. A
    missing offset or a slot outside the table is an out-of-range write.
   */
  function PlaceByConfig(st: TableState, tiles: seq<Tile>, indices: seq<int>): (r: Option<TableState>)
    requires ValidState(st)
    ensures r.Some? <==> ConfigInRange(st.index, |tiles|, indices)
    ensures r.Some? ==> ValidState(r.value) && r.value.index == st.index
    ensures r.Some? ==> r.value.slots == ConfigPlaced(st.slots, st.index, tiles, indices, |tiles|)
  {
    if ConfigInRange(st.index, |tiles|, indices)
    then Some(TableState(ConfigPlaced(st.slots, st.index, tiles, indices, |tiles|), st.index))
    else None
  }

  // ------------------------------------------------------------------ the driver

  lemma {:induction false} RowsMakeBands(perRow: nat, rows: nat)
    requires perRow > 0 && rows % 2 == 0
    ensures WholeBands(perRow * rows, perRow)
    decreases rows
  {
    if rows > 0 {
      RowsMakeBands(perRow, rows - 2);
      assert perRow * rows - 2 * perRow == perRow * (rows - 2);
    }
  }

  /** An image whose height is a multiple of 16 has whole bands of two tile rows. */
  lemma DoubleHighBands(b: InputBitmap)
    requires WellFormed(b) && b.height % 16 == 0
    ensures WholeBands(|b.tiles|, b.tilesPerRow)
  {
    RowsMakeBands(b.tilesPerRow, b.height / 8);
  }

  /** Whether an input is regrouped for 8x16 sprites (cmd/bmp2chr.go:134). */
  predicate Regroups(b: InputBitmap, doubleHigh: bool): (r: bool)
    ensures r ==> doubleHigh && (b.height / 8) % 2 == 0
  {
    doubleHigh && b.height % 16 == 0
  }

  /**
    The tiles an input contributes: regrouped into stacked pairs when 8x16
    mode is on and the height is a multiple of 16, otherwise as they are.
   */
  function TilesToPlace(b: InputBitmap, doubleHigh: bool): (r: seq<Tile>)
    requires WellFormed(b)
    ensures Regroups(b, doubleHigh) ==>
      WholeBands(|b.tiles|, b.tilesPerRow) && r == Regrouped(b.tiles, b.tilesPerRow)
    ensures !Regroups(b, doubleHigh) ==> r == b.tiles
    ensures multiset(r) == multiset(b.tiles)
  {
    if Regroups(b, doubleHigh) then
      DoubleHighBands(b);
      RegroupedPermutes(b.tiles, b.tilesPerRow);
      Regrouped(b.tiles, b.tilesPerRow)
    else b.tiles
  }

  /** One input placed: by its configuration when it has one, sequentially otherwise. */
  function PlaceInput(st: TableState, b: InputBitmap, doubleHigh: bool): (r: Option<TableState>)
    requires ValidState(st) && WellFormed(b)
    ensures r.Some? ==> ValidState(r.value)
  {
    match b.indices
    case None => PlaceSequentially(st, TilesToPlace(b, doubleHigh))
    case Some(ix) => PlaceByConfig(st, TilesToPlace(b, doubleHigh), ix)
  }

  predicate AllWellFormed(inputs: seq<InputBitmap>) {
    forall i :: 0 <= i < |inputs| ==> WellFormed(inputs[i])
  }

  /**
    The inputs placed one after another, in the caller's order; None when
    one of them writes outside the table. The table keeps its 256 slots.
   */
  function Assemble(st: TableState, inputs: seq<InputBitmap>, doubleHigh: bool): (r: Option<TableState>)
    requires ValidState(st) && AllWellFormed(inputs)
    ensures r.Some? ==> ValidState(r.value)
    decreases |inputs|
  {
    if inputs == [] then Some(st)
    else
      match PlaceInput(st, inputs[0], doubleHigh)
      case None => None
      case Some(next) => Assemble(next, inputs[1..], doubleHigh)
  }

  /**
    Once the running index reaches 256, a further input without a
    configuration and with at least one tile writes out of range.
   */
  lemma {:induction false} FullTableOverflows(st: TableState, inputs: seq<InputBitmap>, doubleHigh: bool)
    requires ValidState(st) && AllWellFormed(inputs) && |inputs| > 0
    requires st.index == TableSize && inputs[0].indices.None? && |inputs[0].tiles| > 0
    ensures Assemble(st, inputs, doubleHigh) == None
  {
    assert |TilesToPlace(inputs[0], doubleHigh)| > 0 by {
      var t := TilesToPlace(inputs[0], doubleHigh);
      assert multiset(t) == multiset(inputs[0].tiles);
      assert inputs[0].tiles[0] in multiset(inputs[0].tiles);
    }
  }

  /**
    A first input without a configuration fills slots 8 onwards, at most 248
    of them; with 248 tiles or more it brings the index to 256, and a second
    such input then writes out of range.
   */
  lemma SequentialFirstInputs(blank: Tile, first: InputBitmap, second: InputBitmap)
    requires WellFormed(first) && WellFormed(second)
    requires first.indices.None? && second.indices.None?
    requires |first.tiles| >= TableSize - FirstIndex && |second.tiles| > 0
    ensures Assemble(InitialState(blank), [first, second], false) == None
  {
    var st := InitialState(blank);
    var next := PlaceSequentially(st, first.tiles);
    assert next.Some? && next.value.index == TableSize;
    assert [first, second][1..] == [second];
    FullTableOverflows(next.value, [second], false);
  }

  // --------------------------------------------------------------- serialization

  /** Each slot's encoding, in slot order 0, 1, 2, ... */
  function Serialized(slots: seq<Tile>, encode: Tile -> seq<byte>): seq<byte>
    decreases |slots|
  {
    if slots == [] then [] else Serialized(slots[..|slots| - 1], encode) + encode(slots[|slots| - 1])
  }

  /**
    With a 16-byte encoding, the output is 16 bytes per slot and bytes
    16k..16k+16 are the encoding of slot k.
   */
  lemma {:induction false} SerializedLayout(slots: seq<Tile>, encode: Tile -> seq<byte>, k: nat)
    requires forall t: Tile :: |encode(t)| == 16
    requires k < |slots|
    ensures |Serialized(slots, encode)| == 16 * |slots|
    ensures Serialized(slots, encode)[16 * k..16 * k + 16] == encode(slots[k])
    decreases |slots|
  {
    var last := |slots| - 1;
    var init := slots[..last];
    if k < last {
      SerializedLayout(init, encode, k);
      assert init[k] == slots[k];
    } else if last > 0 {
      SerializedLayout(init, encode, 0);
    }
  }

  // ---------------------------------------------------------- the table in place

  class Table {
    var slots: array<Tile>
    var index: nat

    ghost predicate Valid()
      reads this
    {
      slots.Length == TableSize && FirstIndex <= index <= TableSize
    }

    function State(): TableState
      reads this, slots
    {
      TableState(slots[..], index)
    }

    /** 256 copies of the blank tile; the running index at 8 (cmd/bmp2chr.go:116-128). */
    constructor (blank: Tile)
      ensures Valid() && fresh(slots)
      ensures State() == InitialState(blank)
    {
      slots := new Tile[TableSize](_ => blank);
      index := FirstIndex;
    }

    /**
      Sequential placement in place: false when the first write is out of
      range (the index is already 256), and then nothing has changed.
     */
    method PlaceSequential(tiles: seq<Tile>) returns (ok: bool)
      requires Valid()
      modifies this, slots
      ensures Valid() && slots == old(slots)
      ensures ok == PlaceSequentially(old(State()), tiles).Some?
      ensures State() == if ok then PlaceSequentially(old(State()), tiles).value else old(State())
    {
      ghost var n := SequentialCount(index, |tiles|);
      var k := 0;
      while k < |tiles|
        invariant Valid() && slots == old(slots)
        invariant k <= n && index == old(index) + k
        invariant k > 0 ==> index < TableSize
        invariant slots[..] == Splice(old(slots[..]), old(index), tiles[..k])
      {
        if index == TableSize {
          return false;
        }
        SpliceStep(old(slots[..]), old(index), tiles, k);
        slots[index] := tiles[k];
        index := index + 1;
        k := k + 1;
        if index >= TableSize {
          break;
        }
      }
      ok := true;
    }

    /**
      Config placement in place: false when an offset is missing or a slot
      is outside the table; the running index never moves.
     */
    method PlaceConfigured(tiles: seq<Tile>, indices: seq<int>) returns (ok: bool)
      requires Valid()
      modifies slots
      ensures Valid()
      ensures ok == PlaceByConfig(old(State()), tiles, indices).Some?
      ensures ok ==> State() == PlaceByConfig(old(State()), tiles, indices).value
    {
      for k := 0 to |tiles|
        invariant ConfigInRange(index, k, indices)
        invariant slots[..] == ConfigPlaced(old(slots[..]), index, tiles, indices, k)
      {
        if k >= |indices| {
          return false;
        }
        var newIdx := index + indices[k];
        if !(0 <= newIdx < TableSize) {
          return false;
        }
        slots[newIdx] := tiles[k];
      }
      ok := true;
    }

    /** Every slot encoded, in slot order (cmd/bmp2chr.go:171-182). */
    method Serialize(encode: Tile -> seq<byte>) returns (out: seq<byte>)
      requires Valid()
      ensures out == Serialized(slots[..], encode)
    {
      out := [];
      for k := 0 to TableSize
        invariant out == Serialized(slots[..k], encode)
      {
        assert slots[..k + 1][..k] == slots[..k];
        out := out + encode(slots[k]);
      }
      assert slots[..TableSize] == slots[..];
    }
  }

  /**
    Table assembly and output, from the blank tile on: the encoded table of
    Assemble, or None when an input writes outside the table.
   */
  method Convert(inputs: seq<InputBitmap>, doubleHigh: bool, blank: Tile, encode: Tile -> seq<byte>)
    returns (chr: Option<seq<byte>>)
    requires AllWellFormed(inputs)
    ensures chr.Some? <==> Assemble(InitialState(blank), inputs, doubleHigh).Some?
    ensures chr.Some? ==> chr.value == Serialized(Assemble(InitialState(blank), inputs, doubleHigh).value.slots, encode)
  {
    var table := new Table(blank);
    for j := 0 to |inputs|
      invariant table.Valid() && fresh(table.slots)
      invariant Assemble(InitialState(blank), inputs, doubleHigh) == Assemble(table.State(), inputs[j..], doubleHigh)
    {
      var b := inputs[j];
      var tiles := b.tiles;
      if doubleHigh && b.height % 16 == 0 {
        DoubleHighBands(b);
        tiles := RegroupTiles(b.tiles, b.tilesPerRow);
      }
      assert tiles == TilesToPlace(b, doubleHigh);
      assert inputs[j..][1..] == inputs[j + 1..];
      var ok;
      match b.indices {
        case None =>
          ok := table.PlaceSequential(tiles);
        case Some(ix) =>
          ok := table.PlaceConfigured(tiles, ix);
      }
      if !ok {
        return None;
      }
    }
    var bytes := table.Serialize(encode);
    chr := Some(bytes);
  }
}
