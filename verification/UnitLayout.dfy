// The bytes every internal block should hold for given group data, and how they
// grow as data is appended: the writer's side of the layout the reader assumes.

module UnitLayout {
  import opened Bytes
  import opened ReedSolomon
  import opened Geometry
  import opened DivideStripe
  import opened GroupContent
  import StripeLayout

  // ----- lengths

  // The position of byte n: its row, its cell and its place in the cell.
  lemma Position(g: Group, n: nat) returns (row: int, c: int, off: int)
    requires Layout(g.cellSize, g.k)
    ensures 0 <= row && 0 <= c < g.k && 0 <= off < g.cellSize && n == row * g.Stripe() + c * g.cellSize + off
    ensures c == CellOf(n, g.cellSize, g.k) && off == n % g.cellSize &&
            OffsetOf(n, g.cellSize, g.k) == row * g.cellSize + off
    ensures Rows(n, g.cellSize, g.k) == row
    ensures forall i: nat :: i < g.k ==>
              Len(g, n, i) == row * g.cellSize + if i < c then g.cellSize else if i == c then off else 0
  {
    row, c, off := Split(n, g.cellSize, g.k);
    Regroup(row, c, g.cellSize, g.k);
    DivModUnique(n, g.cellSize, row * g.k + c, off);
    hide BlockLength;
    forall i: nat | i < g.k
      ensures Len(g, n, i) == row * g.cellSize + if i < c then g.cellSize else if i == c then off else 0
    {
      StripeLayout.LengthAt(g.(bytes := n), row, c, off, i);
    }
  }

  // Bytes appended within a cell lengthen that cell's block and no other.
  lemma Grow(g: Group, n: nat, z: nat)
    requires Layout(g.cellSize, g.k) && 0 < z && n % g.cellSize + z <= g.cellSize
    ensures forall i: nat :: i < g.k ==>
              Len(g, n + z, i) == Len(g, n, i) + if i == CellOf(n, g.cellSize, g.k) then z else 0
  {
    var row, c, off := Position(g, n);
    hide BlockLength, CellOf;
    forall i: nat | i < g.k
      ensures Len(g, n + z, i) == Len(g, n, i) + if i == CellOf(n, g.cellSize, g.k) then z else 0
    {
      GrowAt(g, row, c, off, z, i);
    }
  }

  lemma GrowAt(g: Group, row: int, c: int, off: int, z: nat, i: nat)
    requires Layout(g.cellSize, g.k) && 0 <= row && 0 <= c < g.k && 0 <= off < g.cellSize && i < g.k
    requires 0 < z && off + z <= g.cellSize && 0 <= row * g.Stripe() + c * g.cellSize + off
    ensures var n := row * g.Stripe() + c * g.cellSize + off;
            Len(g, n + z, i) == (row * g.cellSize + if i < c then g.cellSize else if i == c then off else 0) +
                                if i == c then z else 0
  {
    hide BlockLength;
    var n := row * g.Stripe() + c * g.cellSize + off;
    if off + z < g.cellSize {
      StripeLayout.LengthAt(g.(bytes := n + z), row, c, off + z, i);
    } else if c + 1 < g.k {
      assert (c + 1) * g.cellSize == c * g.cellSize + g.cellSize;
      StripeLayout.LengthAt(g.(bytes := n + z), row, c + 1, 0, i);
    } else {
      LastCell(row, g.cellSize, g.k);
      StripeLayout.LengthAt(g.(bytes := n + z), row + 1, 0, 0, i);
    }
  }

  lemma LastCell(row: int, cellSize: nat, k: nat)
    requires 0 < k
    ensures row * (cellSize * k) + (k - 1) * cellSize + cellSize == (row + 1) * (cellSize * k)
    ensures (row + 1) * cellSize == row * cellSize + cellSize
  {
    assert (k - 1) * cellSize + cellSize == cellSize * k;
  }

  // Where appended bytes land.
  lemma NewByte(g: Group, n: nat, t: nat)
    requires Layout(g.cellSize, g.k) && n % g.cellSize + t < g.cellSize
    ensures var c := CellOf(n, g.cellSize, g.k);
            0 <= c < g.k && 0 <= Len(g, n, c) && OffsetInGroup(g.cellSize, g.k, Len(g, n, c) + t, c) == n + t
  {
    var row, c, off := Position(g, n);
    hide BlockLength, CellOf;
    assert 0 <= row * g.cellSize;
    DivModUnique(row * g.cellSize + off + t, g.cellSize, row, off + t);
    GroupForm(row * g.cellSize + off + t, row, off + t, c, g.cellSize, g.k);
  }

  // Offsets below a block's length stand for bytes the group has.
  lemma OldByte(g: Group, n: nat, i: nat, o: nat)
    requires Layout(g.cellSize, g.k) && i < g.k && o < Len(g, n, i)
    ensures 0 <= OffsetInGroup(g.cellSize, g.k, o, i) < n
  {
    hide BlockLength, OffsetInGroup;
    LengthMeansInGroup(n, o, i, g.cellSize, g.k);
    OffsetToGroupAndBack(o, i, g.cellSize, g.k);
  }

  // ----- contents

  // Appending does not change the bytes a data block has, and adds the new ones.
  lemma DataGrows(g: Group, data: Vec, chunk: Vec, i: nat)
    requires Layout(g.cellSize, g.k) && g.k <= 256 && i < g.k
    requires chunk != [] && |data| % g.cellSize + |chunk| <= g.cellSize
    ensures Len(g, |data|, i) >= 0 && Len(g, |data| + |chunk|, i) >= 0
    ensures UnitContent(g, data + chunk, i, Len(g, |data| + |chunk|, i)) ==
            UnitContent(g, data, i, Len(g, |data|, i)) + if i == CellOf(|data|, g.cellSize, g.k) then chunk else []
  {
    hide UnitContent, BlockLength, CellOf, OffsetInGroup;
    Grow(g, |data|, |chunk|);
    BlockLengthNonneg(|data|, g.cellSize, g.k, i);
    var n := Len(g, |data|, i);
    var m := Len(g, |data| + |chunk|, i);
    var now, was := UnitContent(g, data + chunk, i, m), UnitContent(g, data, i, n);
    forall o | 0 <= o < m
      ensures now[o] == (was + if i == CellOf(|data|, g.cellSize, g.k) then chunk else [])[o]
    {
      DataUnit(g, data + chunk, i, m, o);
      if o < n {
        DataUnit(g, data, i, n, o);
        OldByte(g, |data|, i, o);
      } else {
        NewByte(g, |data|, o - n);
      }
    }
  }

  // Columns that are complete do not change.
  lemma ColumnStays(g: Group, data: Vec, chunk: Vec, o: nat)
    requires Layout(g.cellSize, g.k) && o < Rows(|data|, g.cellSize, g.k) * g.cellSize
    ensures DataColumn(g, data + chunk, o) == DataColumn(g, data, o)
  {
    hide OffsetInGroup;
    forall i | 0 <= i < g.k ensures DataByte(g, data + chunk, o, i) == DataByte(g, data, o, i) {
      RowsWithin(g, |data|, i);
      OldByte(g, |data|, i, o);
    }
  }

  lemma RowsWithin(g: Group, n: nat, i: nat)
    requires Layout(g.cellSize, g.k) && i < g.k
    ensures Rows(n, g.cellSize, g.k) * g.cellSize <= Len(g, n, i)
  {
    hide Rows, Rest;
  }

  lemma ParityStays(g: Group, data: Vec, chunk: Vec, r: nat, len: nat)
    requires Layout(g.cellSize, g.k) && g.k <= 256 && r < 256 && len <= Rows(|data|, g.cellSize, g.k) * g.cellSize
    ensures UnitContent(g, data + chunk, r, len) == UnitContent(g, data, r, len)
  {
    hide UnitByte, DataColumn, Rows;
    forall o | 0 <= o < len
      ensures UnitContent(g, data + chunk, r, len)[o] == UnitContent(g, data, r, len)[o]
    {
      ColumnStays(g, data, chunk, o);
    }
  }
}
