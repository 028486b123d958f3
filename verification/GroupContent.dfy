// What the internal blocks of a striped block group hold for given group data.

module GroupContent {
  import opened Bytes
  import opened ReedSolomon
  import opened RawCoder
  import opened Geometry
  import opened DivideStripe

  // ----- stored bytes

  // Byte o of data block i: the group byte it stands for, zero past the end.
  function DataByte(g: Group, data: Vec, o: nat, i: nat): Byte
    requires 0 < g.cellSize
  {
    var x := OffsetInGroup(g.cellSize, g.k, o, i);
    if 0 <= x < |data| then data[x] else 0
  }

  function DataColumn(g: Group, data: Vec, o: nat): (x: Vec)
    requires 0 < g.cellSize
    ensures |x| == g.k
  {
    seq(g.k, i requires 0 <= i < g.k => DataByte(g, data, o, i))
  }

  function BandColumns(g: Group, data: Vec, off: nat, span: nat): (c: seq<Vec>)
    requires 0 < g.cellSize
    ensures |c| == span && forall t :: 0 <= t < span ==> c[t] == DataColumn(g, data, off + t) && |c[t]| == g.k
  {
    seq(span, t requires 0 <= t < span => DataColumn(g, data, off + t))
  }

  // What the datanodes hold of every unit over a band.
  function BandBlocks(g: Group, columns: seq<Vec>): (b: seq<Vec>)
    requires g.k + g.p < FIELD_SIZE && forall t :: 0 <= t < |columns| ==> |columns[t]| == g.k
    ensures |b| == g.k + g.p
  {
    seq(g.k + g.p, r requires 0 <= r < g.k + g.p => UnitBytes(g.k, r, columns))
  }

  // A data unit's bytes are the data's.
  lemma DataUnitBytes(g: Group, data: Vec, off: nat, span: nat, i: nat, t: nat)
    requires 0 < g.cellSize && g.k <= 256 && i < g.k && t < span
    ensures UnitBytes(g.k, i, BandColumns(g, data, off, span))[t] == DataByte(g, data, off + t, i)
  {
    hide UnitByte, DataByte;
    var columns := BandColumns(g, data, off, span);
    assert columns[t] == DataColumn(g, data, off + t);
    DataUnitByte(g.k, i, columns[t]);
  }

  // ----- whole internal blocks

  // The first len bytes of unit r.
  function UnitContent(g: Group, data: Vec, r: nat, len: nat): (v: Vec)
    requires 0 < g.cellSize && g.k <= 256 && r < 256
    ensures |v| == len
  {
    seq(len, o requires 0 <= o < len => UnitByte(g.k, r, DataColumn(g, data, o)))
  }

  function Len(g: Group, n: nat, i: nat): int
    requires Layout(g.cellSize, g.k)
  {
    BlockLength(n, g.cellSize, g.k, i)
  }

  lemma DataUnit(g: Group, data: Vec, i: nat, len: nat, o: nat)
    requires 0 < g.cellSize && i < g.k <= 256 && o < len
    ensures UnitContent(g, data, i, len)[o] == DataByte(g, data, o, i)
  {
    hide UnitByte, DataByte;
    DataUnitByte(g.k, i, DataColumn(g, data, o));
  }

  // Every unit is stored in full: as long as the geometry says, byte for byte the
  // unit of the data.
  ghost predicate Complete(g: Group, data: Vec, units: seq<Vec>)
    requires Layout(g.cellSize, g.k) && g.k + g.p < FIELD_SIZE
  {
    |units| == g.k + g.p && forall r :: 0 <= r < |units| ==> UnitComplete(g, data, units[r], r)
  }

  ghost predicate UnitComplete(g: Group, data: Vec, unit: Vec, r: nat)
    requires Layout(g.cellSize, g.k) && g.k <= 256 && r < 256
  {
    0 <= Len(g, |data|, r) && unit == UnitContent(g, data, r, Len(g, |data|, r))
  }

  // ----- writer and reader agree

  // What the reader takes a datanode to hold of unit r over a band is what the
  // writer stored there.
  lemma WriterMeetsReader(g: Group, data: Vec, units: seq<Vec>, r: nat, off: nat, span: nat)
    requires Layout(g.cellSize, g.k) && g.k + g.p < FIELD_SIZE && Complete(g, data, units)
    requires r < g.k + g.p && off + span <= Len(g, |data|, r)
    ensures |units[r]| == Len(g, |data|, r)
    ensures BandBlocks(g, BandColumns(g, data, off, span))[r] == units[r][off..off + span]
  {
    hide UnitByte, DataColumn, BlockLength;
    assert UnitComplete(g, data, units[r], r);
    var columns := BandColumns(g, data, off, span);
    forall t | 0 <= t < span ensures BandBlocks(g, columns)[r][t] == units[r][off..off + span][t] {
      assert columns[t] == DataColumn(g, data, off + t);
      assert units[r][off + t] == UnitByte(g.k, r, DataColumn(g, data, off + t));
    }
  }
}
