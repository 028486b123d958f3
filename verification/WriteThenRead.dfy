// From end to end: what a striped output stream has stored when it is closed, a
// striped input stream reads back, whatever the datanodes do within what parity
// makes up for.

module WriteThenRead {
  import opened Bytes
  import opened ReedSolomon
  import opened RawCoder
  import opened Geometry
  import opened DivideStripe
  import opened GroupContent
  import opened StripeContent
  import opened StripedInput
  import opened StripedWriter

  // ----- the groups of a file

  // The block list the namenode has for these groups.
  function Locate(groups: seq<GroupDone>): (l: seq<LocatedBlock>)
    ensures |l| == |groups|
  {
    seq(|groups|, b requires 0 <= b < |groups| => LocatedBlock(|FlattenDone(groups[..b])|, |groups[b].data|))
  }

  function UnitsOf(groups: seq<GroupDone>): (u: seq<seq<Vec>>)
    ensures |u| == |groups|
  {
    seq(|groups|, b requires 0 <= b < |groups| => groups[b].units)
  }

  lemma {:induction false} FlattenSlice(groups: seq<GroupDone>, b: nat)
    requires b < |groups|
    ensures |FlattenDone(groups[..b])| + |groups[b].data| == |FlattenDone(groups[..b + 1])| <= |FlattenDone(groups)|
    ensures FlattenDone(groups)[|FlattenDone(groups[..b])|..|FlattenDone(groups[..b + 1])|] == groups[b].data
    decreases |groups|
  {
    var init := groups[..|groups| - 1];
    if b == |init| {
      assert groups[..b + 1] == groups;
    } else {
      FlattenSlice(init, b);
      assert init[..b] == groups[..b] && init[..b + 1] == groups[..b + 1];
    }
  }

  lemma FlattenNone(groups: seq<GroupDone>)
    ensures FlattenDone(groups[..0]) == []
  {
    assert groups[..0] == [];
  }

  // Nonempty groups that follow one another cover the file.
  lemma Covered(groups: seq<GroupDone>)
    requires forall b :: 0 <= b < |groups| ==> groups[b].data != []
    ensures Cover(Locate(groups), |FlattenDone(groups)|)
  {
    hide FlattenDone;
    var lbs := Locate(groups);
    FlattenNone(groups);
    forall b | 0 <= b < |groups|
      ensures lbs[b].offset + lbs[b].numBytes == |FlattenDone(groups[..b + 1])|
    {
      FlattenSlice(groups, b);
    }
    assert groups[..|groups|] == groups;
  }

  // The groups' own size plays no part in what a complete group is.
  lemma CompleteAnySize(g: Group, n: nat, data: Vec, units: seq<Vec>)
    requires Layout(g.cellSize, g.k) && g.k + g.p < FIELD_SIZE && Complete(g, data, units)
    ensures Complete(g.(bytes := n), data, units)
  {
    hide UnitByte, DataByte, BlockLength;
    var h := g.(bytes := n);
    forall r | 0 <= r < |units| ensures UnitComplete(h, data, units[r], r) {
      assert UnitComplete(g, data, units[r], r);
      SameContent(g, n, data, r, |units[r]|);
    }
  }

  lemma SameContent(g: Group, n: nat, data: Vec, r: nat, len: nat)
    requires 0 < g.cellSize && g.k <= 256 && r < 256
    ensures UnitContent(g.(bytes := n), data, r, len) == UnitContent(g, data, r, len)
  {
    hide UnitByte;
    forall o | 0 <= o < len
      ensures UnitContent(g.(bytes := n), data, r, len)[o] == UnitContent(g, data, r, len)[o]
    {
      assert DataColumn(g.(bytes := n), data, o) == DataColumn(g, data, o);
    }
  }

  // Groups that a writer with this geometry has left, none of them empty, each short
  // enough to be addressed.
  ghost predicate Left(g: Group, groups: seq<GroupDone>) {
    && Layout(g.cellSize, g.k) && g.k + g.p < FIELD_SIZE
    && forall b :: 0 <= b < |groups| ==>
         groups[b].data != [] && Readable(g.(bytes := |groups[b].data|)) && Complete(g, groups[b].data, groups[b].units)
  }

  // They are what the reading side needs to find.
  lemma LeftIsStored(g: Group, groups: seq<GroupDone>, b: nat)
    requires Left(g, groups) && b < |groups|
    ensures var l := Locate(groups)[b];
            UnitsStored(Group(g.k, g.p, g.cellSize, l.numBytes), l.offset, FlattenDone(groups), UnitsOf(groups)[b])
  {
    hide Readable, Complete, FlattenDone, UnitsStored;
    var d, units := groups[b].data, groups[b].units;
    FlattenSlice(groups, b);
    CompleteAnySize(g, |d|, d, units);
    Found(g.(bytes := |d|), d, |FlattenDone(groups[..b])|, FlattenDone(groups), units);
  }

  lemma Found(g: Group, data: Vec, offset: nat, file: Vec, units: seq<Vec>)
    requires Readable(g) && |data| == g.bytes && offset + g.bytes <= |file| && file[offset..offset + g.bytes] == data
    requires Complete(g, data, units)
    ensures UnitsStored(g, offset, file, units)
  {
    hide Complete;
  }

  // ----- reading it all

  // What is to be read of a block from a position on.
  function Ahead(l: LocatedBlock, from: nat): int {
    l.offset + l.numBytes - if from < l.offset then l.offset else from
  }

  // Blocks with less than 2^31 bytes ahead of position from are the ones that reading
  // from there can get past: those behind the cursor were such blocks, and the one
  // the cursor is in is if it still has less than 2^31 bytes ahead.
  ghost predicate Passed(lbs: seq<LocatedBlock>, from: nat, cursor: nat) {
    && (forall b :: 0 <= b < |lbs| && from < lbs[b].offset + lbs[b].numBytes <= cursor ==> Ahead(lbs[b], from) < LIMIT)
    && (forall b :: 0 <= b < |lbs| && lbs[b].Has(cursor) ==>
          (Ahead(lbs[b], cursor) < LIMIT <==> Ahead(lbs[b], from) < LIMIT))
  }

  const LIMIT: int := 0x8000_0000

  // No block has 2^31 bytes or more ahead of position from.
  ghost predicate NoneLong(lbs: seq<LocatedBlock>, from: nat) {
    forall b :: 0 <= b < |lbs| && from < lbs[b].offset + lbs[b].numBytes ==> Ahead(lbs[b], from) < LIMIT
  }

  // No stripe loses more units than there is parity.
  ghost predicate AllSurvivable(answers: Answers, k: nat, p: nat) {
    forall c: nat :: Survivable(answers, c, k, p)
  }

  // A read leaves as much or as little ahead: with 2^31 bytes or more ahead it never
  // reaches the end of the block.
  lemma StaysLong(size: nat, remaining: nat)
    requires 0 < size && 0 < remaining
    ensures ReadLength(size, remaining) <= remaining
    ensures remaining - ReadLength(size, remaining) < LIMIT <==> remaining < LIMIT
    ensures remaining < LIMIT ==> 0 < ReadLength(size, remaining)
  {
    ProgressIff(size, remaining);
    var q, r := remaining / 0x1_0000_0000, remaining % 0x1_0000_0000;
    if 0 < r < LIMIT {
      DivModUnique(remaining + 0x8000_0000, 0x1_0000_0000, q, r + 0x8000_0000);
    }
  }

  lemma AheadIs(l: LocatedBlock, cursor: nat)
    requires l.Has(cursor)
    ensures 0 < Ahead(l, cursor) == l.offset + l.numBytes - cursor
  {}

  // A read in block b.
  lemma PassedNext(lbs: seq<LocatedBlock>, fileLength: nat, from: nat, cursor: nat, b: nat, size: nat)
    requires Cover(lbs, fileLength) && Passed(lbs, from, cursor) && from <= cursor && 0 < size
    requires b < |lbs| && lbs[b].Has(cursor)
    ensures var n := ReadLength(size, Ahead(lbs[b], cursor));
            Passed(lbs, from, cursor + n) && (n == 0 ==> !NoneLong(lbs, from))
  {
    hide ReadLength, Cover, Passed, Ahead, NoneLong;
    AheadIs(lbs[b], cursor);
    var n := ReadLength(size, Ahead(lbs[b], cursor));
    StaysLong(size, Ahead(lbs[b], cursor));
    if n == 0 {
      Stuck(lbs, from, cursor, b);
    } else {
      PassedBy(lbs, fileLength, from, cursor, b, n);
    }
  }

  lemma PassedBy(lbs: seq<LocatedBlock>, fileLength: nat, from: nat, cursor: nat, b: nat, n: nat)
    requires Cover(lbs, fileLength) && Passed(lbs, from, cursor) && from <= cursor
    requires b < |lbs| && lbs[b].Has(cursor) && 0 < n <= Ahead(lbs[b], cursor)
    requires Ahead(lbs[b], cursor) - n < LIMIT <==> Ahead(lbs[b], cursor) < LIMIT
    ensures Passed(lbs, from, cursor + n)
  {
    hide Cover;
    var end := cursor + n;
    forall c | 0 <= c < |lbs| && from < lbs[c].offset + lbs[c].numBytes <= end ensures Ahead(lbs[c], from) < LIMIT {
      if b < c { NextStarts(lbs, fileLength, b, c); }
      if c < b { NextStarts(lbs, fileLength, c, b); }
    }
    forall c | 0 <= c < |lbs| && lbs[c].Has(end) ensures Ahead(lbs[c], end) < LIMIT <==> Ahead(lbs[c], from) < LIMIT {
      if b < c { NextStarts(lbs, fileLength, b, c); }
      if c < b { NextStarts(lbs, fileLength, c, b); }
    }
  }

  lemma NextStarts(lbs: seq<LocatedBlock>, fileLength: nat, b: nat, c: nat)
    requires Cover(lbs, fileLength) && b < c < |lbs|
    ensures lbs[b].offset + lbs[b].numBytes <= lbs[c].offset && 0 < lbs[c].numBytes
  {
    EndsBefore(lbs, fileLength, b, c);
  }

  // Reads from the cursor on, a buffer at a time, until the end of the file or until a
  // read returns nothing. None stands for the exception of a read. The end is reached
  // if and only if no block has 2^31 bytes or more ahead of the cursor.
  method ReadToEnd(stream: StripedInputStream, size: nat) returns (r: Option<Vec>)
    requires stream.Valid() && 0 < size
    modifies stream, stream.mem, stream.decoder
    ensures r.Some? ==> old(stream.cursor) <= stream.cursor <= |stream.file|
    ensures r.Some? ==> r.value == stream.file[old(stream.cursor)..stream.cursor]
    ensures r.Some? ==> (stream.cursor == |stream.file| <==> NoneLong(stream.lbs, old(stream.cursor)))
    ensures r.Some? <== !old(stream.failed) && AllSurvivable(stream.answers, stream.k, stream.p)
  {
    hide StripedInputStream.Valid, AllSurvivable, Cover, Passed, NoneLong, Ahead;
    var v: Vec := [];
    FileIs(stream);
    PassedNone(stream.lbs, |stream.file|, stream.cursor);
    while stream.cursor < stream.fileLength
      invariant stream.Valid() && old(stream.cursor) <= stream.cursor <= |stream.file| == stream.fileLength
      invariant v == stream.file[old(stream.cursor)..stream.cursor] && (!old(stream.failed) ==> !stream.failed)
      invariant Cover(stream.lbs, |stream.file|) && Passed(stream.lbs, old(stream.cursor), stream.cursor)
      decreases stream.fileLength - stream.cursor
    {
      var ok, w := ReadMore(stream, size, old(stream.cursor));
      if !ok {
        return None;
      }
      if w == [] {
        return Some(v);
      }
      SlicesJoin(stream.file, old(stream.cursor), stream.cursor - |w|, stream.cursor);
      v := v + w;
    }
    AllPassed(stream.lbs, |stream.file|, old(stream.cursor));
    return Some(v);
  }

  lemma PassedNone(lbs: seq<LocatedBlock>, fileLength: nat, cursor: nat)
    ensures Passed(lbs, cursor, cursor)
  {}

  lemma Stuck(lbs: seq<LocatedBlock>, from: nat, cursor: nat, b: nat)
    requires Passed(lbs, from, cursor) && b < |lbs| && lbs[b].Has(cursor) && from <= cursor &&
             LIMIT <= Ahead(lbs[b], cursor)
    ensures !NoneLong(lbs, from)
  {
    assert LIMIT <= Ahead(lbs[b], from);
  }

  lemma AllPassed(lbs: seq<LocatedBlock>, fileLength: nat, from: nat)
    requires Cover(lbs, fileLength) && Passed(lbs, from, fileLength)
    ensures NoneLong(lbs, from)
  {
    hide Cover, Ahead;
    forall c | 0 <= c < |lbs| && from < lbs[c].offset + lbs[c].numBytes ensures Ahead(lbs[c], from) < LIMIT {
      EndsWithin(lbs, fileLength, c);
    }
  }

  lemma EndsWithin(lbs: seq<LocatedBlock>, fileLength: nat, c: nat)
    requires Cover(lbs, fileLength) && c < |lbs|
    ensures lbs[c].offset + lbs[c].numBytes <= fileLength
  {
    if c < |lbs| - 1 { EndsBefore(lbs, fileLength, c, |lbs| - 1); }
  }

  // A read before the end of the file. It returns nothing only if a block has 2^31
  // bytes or more ahead of position from.
  method ReadMore(stream: StripedInputStream, size: nat, ghost from: nat) returns (ok: bool, w: Vec)
    requires stream.Valid() && 0 < size && stream.cursor < stream.fileLength
    requires from <= stream.cursor && Passed(stream.lbs, from, stream.cursor)
    modifies stream, stream.mem, stream.decoder
    ensures ok ==> stream.Valid() && !stream.failed && stream.cursor == old(stream.cursor) + |w| <= |stream.file|
    ensures ok ==> w == stream.file[old(stream.cursor)..stream.cursor]
    ensures ok ==> Passed(stream.lbs, from, stream.cursor) && (w == [] ==> !NoneLong(stream.lbs, from))
    ensures ok <== !old(stream.failed) && AllSurvivable(stream.answers, stream.k, stream.p)
  {
    hide StripedInputStream.Valid, AllSurvivable, ReadLength, Cover, Passed, NoneLong, Ahead, LocatedBlock.Has;
    FileIs(stream);
    ghost var b := CoverFinds(stream.lbs, |stream.file|, stream.cursor);
    PassedNext(stream.lbs, |stream.file|, from, stream.cursor, b, size);
    ok, w := ReadIn(stream, size, b);
  }

  method ReadIn(stream: StripedInputStream, size: nat, ghost b: nat) returns (ok: bool, w: Vec)
    requires stream.Valid() && b < |stream.lbs| && stream.lbs[b].Has(stream.cursor)
    modifies stream, stream.mem, stream.decoder
    ensures ok ==> stream.Valid() && !stream.failed && stream.cursor == old(stream.cursor) + |w| <= |stream.file|
    ensures ok ==> w == stream.file[old(stream.cursor)..stream.cursor]
    ensures ok ==> |w| == ReadLength(size, Ahead(stream.lbs[b], old(stream.cursor)))
    ensures ok <== !old(stream.failed) && AllSurvivable(stream.answers, stream.k, stream.p)
  {
    hide StripedInputStream.Valid, AllSurvivable, Tolerable, ReadLength, Ahead, LocatedBlock.Has;
    AheadIs(stream.lbs[b], stream.cursor);
    ghost var clock := stream.clock;
    var res := stream.Read(size);
    if AllSurvivable(stream.answers, stream.k, stream.p) {
      AlwaysTolerable(stream.answers, clock, stream.clock, stream.k, stream.p);
    }
    ok := res != Failed;
    w := if ok then res.v else [];
  }

  lemma AlwaysTolerable(answers: Answers, from: nat, until: nat, k: nat, p: nat)
    requires AllSurvivable(answers, k, p)
    ensures Tolerable(answers, from, until, k, p)
  {
    hide Survivable;
  }

  lemma FileIs(stream: StripedInputStream)
    requires stream.Valid()
    ensures stream.fileLength == |stream.file| && stream.cursor <= |stream.file| && Cover(stream.lbs, |stream.file|)
  {}

  // What a closed stream has left.
  function GroupsOf(out: StripedOutputStream): seq<GroupDone>
    reads out
  {
    out.finished + if out.data == [] then [] else [GroupDone(out.data, StoredUnits(out.streamers))]
  }

  // With a stream closed, every group of it is left in full, and they make up the
  // file.
  lemma ClosedIsLeft(out: StripedOutputStream)
    requires out.Sizes() && Complete(out.g, out.data, StoredUnits(out.streamers))
    requires forall f :: 0 <= f < |out.finished| ==>
               |out.finished[f].data| == out.GroupSize() && Complete(out.g, out.finished[f].data, out.finished[f].units)
    requires |out.data| <= out.GroupSize()
    requires forall n: nat :: 0 < n <= out.GroupSize() ==> Readable(out.g.(bytes := n))
    ensures forall b :: 0 <= b < |GroupsOf(out)| ==> |GroupsOf(out)[b].data| <= out.GroupSize()
    ensures Left(out.g, GroupsOf(out)) && FlattenDone(GroupsOf(out)) == out.Accepted()
  {
    hide Readable, Complete, RawErasureEncoder.Valid, FlattenDone, BufferSize, StoredUnits;
    var groups := GroupsOf(out);
    assert 0 < out.blockSize * out.g.k;
    forall b | 0 <= b < |groups| ensures groups[b].data != [] && Complete(out.g, groups[b].data, groups[b].units) {
      if b < |out.finished| { assert groups[b] == out.finished[b]; }
    }
    if out.data != [] {
      FlattenDoneNext(out.finished, groups, out.data);
    } else {
      assert groups == out.finished;
    }
  }

  // Reading back what a closed stream has left, unless a stripe loses more units than
  // there is parity, gives the beginning of what it accepted, and all of it if and
  // only if every group is shorter than 2^31 bytes.
  method ReadBack(g: Group, lbs: seq<LocatedBlock>, stored: seq<seq<Vec>>, answers: Answers, size: nat,
                  ghost groups: seq<GroupDone>)
    returns (r: Option<Vec>)
    requires Left(g, groups) && lbs == Locate(groups) && stored == UnitsOf(groups) && 0 < size
    ensures r.Some? ==> r.value <= FlattenDone(groups)
    ensures r.Some? ==> (r.value == FlattenDone(groups) <==> AllShort(groups))
    ensures r.Some? <== AllSurvivable(answers, g.k, g.p)
  {
    hide Readable, Complete, FlattenDone, UnitsStored, AllSurvivable, NoneLong, StripedInputStream.Valid;
    ghost var file := FlattenDone(groups);
    Covered(groups);
    forall b | 0 <= b < |lbs|
      ensures UnitsStored(Group(g.k, g.p, g.cellSize, lbs[b].numBytes), lbs[b].offset, file, stored[b])
    {
      LeftIsStored(g, groups, b);
    }
    var length := FileLength(lbs, file);
    var stream := new StripedInputStream(g.k, g.p, g.cellSize, length, lbs, stored, answers, file);
    r := ReadToEnd(stream, size);
    AheadOfStart(groups);
    assert file[0..] == file;
  }

  ghost predicate AllShort(groups: seq<GroupDone>) {
    forall b :: 0 <= b < |groups| ==> |groups[b].data| < LIMIT
  }

  lemma AheadOfStart(groups: seq<GroupDone>)
    requires forall b :: 0 <= b < |groups| ==> groups[b].data != []
    ensures var lbs := Locate(groups);
            AllShort(groups) <==> NoneLong(lbs, 0)
  {
    hide FlattenDone;
    var lbs := Locate(groups);
    forall b | 0 <= b < |groups| ensures Ahead(lbs[b], 0) == |groups[b].data| && 0 < lbs[b].offset + lbs[b].numBytes {}
  }

  // From end to end: a stream is closed, and what it has left is read.
  method CloseAndRead(out: StripedOutputStream, answers: Answers, size: nat) returns (r: Option<Vec>)
    requires out.Valid() && 0 < size
    requires forall n: nat :: 0 < n <= out.GroupSize() ==> Readable(out.g.(bytes := n))
    modifies out, out.mem
    ensures r.Some? ==> r.value <= old(out.File())
    ensures r.Some? ==> (r.value == old(out.File()) <==> AllShort(GroupsOf(out)))
    ensures r.Some? && out.GroupSize() < LIMIT ==> r.value == old(out.File())
    ensures r.Some? <== AllSurvivable(answers, out.g.k, out.g.p)
  {
    hide Readable, Complete, FlattenDone, AllSurvivable, Left, StripedOutputStream.Valid, StripedOutputStream.Sizes;
    out.Close();
    ClosedIsLeft(out);
    var groups := GroupsOf(out);
    r := ReadBack(out.g, Locate(groups), UnitsOf(groups), answers, size, groups);
  }

  // The length of a file is where its last block ends.
  method FileLength(lbs: seq<LocatedBlock>, ghost file: Vec) returns (length: nat)
    requires Cover(lbs, |file|)
    ensures length == |file|
  {
    length := if lbs == [] then 0 else lbs[|lbs| - 1].offset + lbs[|lbs| - 1].numBytes;
  }
}
