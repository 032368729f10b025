/** Rebuilding a package with some embedded files replaced: every record
    keeps its place and identity, replaced records take the length of their
    new data, offsets are reassigned back to back from the end of the
    tables, and the data is emitted from the replacements or copied from
    the original package. */
module Repack {
  import opened Bytes
  import opened Format
  import Parse
  import Serialize

  /** A file to put in place of the embedded file `id` of kind `fileType`
      (`"bnk"` or `"wem"`); `data` is its already loaded content. */
  datatype ReplacementFile = ReplacementFile(id: u32, data: seq<byte>, fileType: string)

  predicate Targets(r: ReplacementFile, t: string, id: u32) {
    r.fileType == t && r.id == id
  }

  /** Every replacement names a kind the lookup table has an entry for; any
      other kind makes the table insertion fail outright. */
  predicate KnownTypes(reps: seq<ReplacementFile>) {
    forall i :: 0 <= i < |reps| ==> reps[i].fileType == "bnk" || reps[i].fileType == "wem"
  }

  /** The lookup table of one kind, filled in list order: a later
      replacement for the same ID overwrites an earlier one. */
  function ReplacementMap(reps: seq<ReplacementFile>, t: string): map<u32, seq<byte>> {
    if |reps| == 0 then map[]
    else
      var m := ReplacementMap(reps[..|reps| - 1], t);
      var r := reps[|reps| - 1];
      if r.fileType == t then m[r.id := r.data] else m
  }

  /** `reps[j]` is the last replacement in the list for `id` of kind `t`. */
  ghost predicate LastTarget(reps: seq<ReplacementFile>, t: string, id: u32, j: int) {
    && 0 <= j < |reps|
    && Targets(reps[j], t, id)
    && forall k :: j < k < |reps| ==> !Targets(reps[k], t, id)
  }

  /** An ID is in the table exactly when some replacement of that kind
      names it, and then it maps to the data of the last one that does. */
  lemma {:induction false} ReplacementMapLastWins(reps: seq<ReplacementFile>, t: string, id: u32)
    ensures id in ReplacementMap(reps, t) <==> exists j :: 0 <= j < |reps| && Targets(reps[j], t, id)
    ensures id in ReplacementMap(reps, t) ==>
      exists j :: LastTarget(reps, t, id, j) && ReplacementMap(reps, t)[id] == reps[j].data
  {
    if |reps| > 0 {
      var n := |reps| - 1;
      var init := reps[..n];
      ReplacementMapLastWins(init, t, id);
      if Targets(reps[n], t, id) {
        assert LastTarget(reps, t, id, n);
      } else {
        if exists j :: 0 <= j < |reps| && Targets(reps[j], t, id) {
          var j :| 0 <= j < |reps| && Targets(reps[j], t, id);
          assert init[j] == reps[j];
        }
        if id in ReplacementMap(reps, t) {
          var j :| LastTarget(init, t, id, j) && ReplacementMap(init, t)[id] == init[j].data;
          assert LastTarget(reps, t, id, j);
        }
      }
    }
  }

  /** The data-area start as the repacker computes it: the header size
      and both tables' sizes, each converted to `uint32`, summed in
      `uint32`. */
  function DataAreaStart32(unknownSize: nat, bnkCount: nat, wemCount: nat): u32 {
    Wrap32(Wrap32(4 + 4 + unknownSize) + 4 + Wrap32(bnkCount * 24) + 4 + Wrap32(wemCount * 24))
  }

  /** The `uint32` computation gives the exact start, wrapped once. */
  lemma DataAreaStart32Wraps(u: nat, nb: nat, nw: nat)
    ensures DataAreaStart32(u, nb, nw) == Wrap32(DataAreaStart(u, nb, nw))
  {
    Wrap32Inner(0, 8 + u, 4 + Wrap32(nb * 24) + 4 + Wrap32(nw * 24));
    Wrap32Inner(8 + u + 4, nb * 24, 4 + Wrap32(nw * 24));
    Wrap32Inner(8 + u + 4 + nb * 24 + 4, nw * 24, 0);
  }

  /** Copies of the records, each replaced one with the truncated `uint32`
      length of its new data. */
  function ApplyLengths(xs: seq<FileIndex>, m: map<u32, seq<byte>>): (r: seq<FileIndex>)
    ensures |r| == |xs|
  {
    seq(|xs|, i requires 0 <= i < |xs| =>
      if xs[i].id in m then xs[i].(length := Wrap32(|m[xs[i].id]|)) else xs[i])
  }

  /** Gives each record the running `uint32` cursor as its offset, then
      advances the cursor by the record's length; returns the records and
      the final cursor. */
  function AssignOffsets(xs: seq<FileIndex>, cursor: u32): (r: (seq<FileIndex>, u32))
    ensures |r.0| == |xs|
  {
    if |xs| == 0 then ([], cursor)
    else
      var rest := AssignOffsets(xs[1..], Wrap32(cursor + xs[0].length));
      ([xs[0].(offset := cursor)] + rest.0, rest.1)
  }

  lemma SumLengthsShift(xs: seq<FileIndex>, i: nat)
    requires 0 < i <= |xs|
    ensures SumLengths(xs[..i]) == xs[0].length + SumLengths(xs[1..][..i - 1])
  {
    assert xs[..i][1..] == xs[1..][..i - 1];
  }

  /** Record `i` comes out unchanged except for its offset, which is the
      cursor advanced by the lengths before it. */
  lemma {:induction false} AssignOffsetAt(xs: seq<FileIndex>, cursor: u32, i: nat)
    requires i < |xs|
    ensures AssignOffsets(xs, cursor).0[i] == xs[i].(offset := Wrap32(cursor + SumLengths(xs[..i])))
    decreases i
  {
    if i == 0 {
      assert xs[..0] == [];
    } else {
      AssignOffsetAt(xs[1..], Wrap32(cursor + xs[0].length), i - 1);
      SumLengthsShift(xs, i);
      Wrap32Add(cursor + xs[0].length, SumLengths(xs[1..][..i - 1]));
    }
  }

  /** The final cursor is the start advanced by all the lengths. */
  lemma {:induction false} AssignOffsetsEnd(xs: seq<FileIndex>, cursor: u32)
    ensures AssignOffsets(xs, cursor).1 == Wrap32(cursor + SumLengths(xs))
    decreases |xs|
  {
    if |xs| > 0 {
      AssignOffsetsEnd(xs[1..], Wrap32(cursor + xs[0].length));
      Wrap32Add(cursor + xs[0].length, SumLengths(xs[1..]));
    }
  }

  /** Assigning offsets leaves the lengths, and so their sums, alone. */
  lemma {:induction false} AssignOffsetsSums(xs: seq<FileIndex>, cursor: u32, k: nat)
    requires k <= |xs|
    ensures SumLengths(AssignOffsets(xs, cursor).0[..k]) == SumLengths(xs[..k])
    decreases k
  {
    if k > 0 {
      var ys := AssignOffsets(xs, cursor).0;
      AssignOffsetsSums(xs[1..], Wrap32(cursor + xs[0].length), k - 1);
      SumLengthsShift(ys, k);
      SumLengthsShift(xs, k);
      assert ys[1..] == AssignOffsets(xs[1..], Wrap32(cursor + xs[0].length)).0;
    }
  }

  lemma AssignOffsetsAt(xs: seq<FileIndex>, cursor: u32)
    ensures forall i :: 0 <= i < |xs| ==>
      AssignOffsets(xs, cursor).0[i] == xs[i].(offset := Wrap32(cursor + SumLengths(xs[..i])))
    ensures AssignOffsets(xs, cursor).1 == Wrap32(cursor + SumLengths(xs))
  {
    forall i | 0 <= i < |xs|
      ensures AssignOffsets(xs, cursor).0[i] == xs[i].(offset := Wrap32(cursor + SumLengths(xs[..i])))
    {
      AssignOffsetAt(xs, cursor, i);
    }
    AssignOffsetsEnd(xs, cursor);
  }

  /** A repack plan: the new header and both new index tables. */
  datatype Plan = Plan(header: Header, bnk: seq<FileIndex>, wem: seq<FileIndex>)

  /** The new header and tables: lengths from the replacement maps, offsets
      back to back from the data-area start, BNK records first, and the
      header length field set to the data-area start minus 8. */
  function PlanRepack(f: File, bnkMap: map<u32, seq<byte>>, wemMap: map<u32, seq<byte>>): (p: Plan)
    ensures |p.bnk| == |f.bnkIndexes| && |p.wem| == |f.wemIndexes|
  {
    var start: int := DataAreaStart32(|f.header.unknown|, |f.bnkIndexes|, |f.wemIndexes|);
    var bnk := AssignOffsets(ApplyLengths(f.bnkIndexes, bnkMap), start);
    var wem := AssignOffsets(ApplyLengths(f.wemIndexes, wemMap), bnk.1);
    Plan(f.header.(headerAndIndexesLength := Wrap32(start - 8)), bnk.0, wem.0)
  }

  /** The record a repack derives from `x`: same ID, type and unknown
      fields; the replacement's length exactly when the ID is replaced. */
  predicate Derived(y: FileIndex, x: FileIndex, m: map<u32, seq<byte>>) {
    && y.id == x.id && y.fileType == x.fileType
    && y.unknown1 == x.unknown1 && y.unknown2 == x.unknown2
    && (x.id in m ==> y.length == Wrap32(|m[x.id]|))
    && (x.id !in m ==> y.length == x.length)
  }

  lemma AssignOffsetsDerived(xs: seq<FileIndex>, m: map<u32, seq<byte>>, cursor: u32)
    ensures forall i :: 0 <= i < |xs| ==> Derived(AssignOffsets(ApplyLengths(xs, m), cursor).0[i], xs[i], m)
    ensures SumLengths(AssignOffsets(ApplyLengths(xs, m), cursor).0) == SumLengths(ApplyLengths(xs, m))
  {
    var ys := ApplyLengths(xs, m);
    AssignOffsetsAt(ys, cursor);
    AssignOffsetsSums(ys, cursor, |ys|);
    assert ys[..|ys|] == ys;
    assert AssignOffsets(ys, cursor).0[..|ys|] == AssignOffsets(ys, cursor).0;
  }

  /** Repack keeps both tables' counts and order, each record's ID, type
      and unknown fields, gives replaced records the length of their data
      and leaves the others' lengths alone. The header keeps its identifier
      and opaque region, and its length field is the data-area start minus
      8, whatever the replacements are. */
  lemma PlanFields(f: File, bnkMap: map<u32, seq<byte>>, wemMap: map<u32, seq<byte>>)
    ensures var p := PlanRepack(f, bnkMap, wemMap);
      && p.header.identifier == f.header.identifier
      && p.header.unknown == f.header.unknown
      && p.header.headerAndIndexesLength
        == Wrap32(DataAreaStart(|f.header.unknown|, |f.bnkIndexes|, |f.wemIndexes|) - 8)
      && (forall i :: 0 <= i < |f.bnkIndexes| ==> Derived(p.bnk[i], f.bnkIndexes[i], bnkMap))
      && (forall i :: 0 <= i < |f.wemIndexes| ==> Derived(p.wem[i], f.wemIndexes[i], wemMap))
  {
    var start := DataAreaStart32(|f.header.unknown|, |f.bnkIndexes|, |f.wemIndexes|);
    var bnk := AssignOffsets(ApplyLengths(f.bnkIndexes, bnkMap), start);
    AssignOffsetsDerived(f.bnkIndexes, bnkMap, start);
    AssignOffsetsDerived(f.wemIndexes, wemMap, bnk.1);
    DataAreaStart32Wraps(|f.header.unknown|, |f.bnkIndexes|, |f.wemIndexes|);
    Wrap32Add(DataAreaStart(|f.header.unknown|, |f.bnkIndexes|, |f.wemIndexes|), -8);
  }

  lemma AssignOffsetWrappedAt(xs: seq<FileIndex>, cursor: u32, base: int, k: nat)
    requires cursor == Wrap32(base)
    requires k < |xs|
    ensures AssignOffsets(xs, cursor).0[k].offset == Wrap32(base + SumLengths(AssignOffsets(xs, cursor).0[..k]))
  {
    AssignOffsetAt(xs, cursor, k);
    AssignOffsetsSums(xs, cursor, k);
    Wrap32Add(base, SumLengths(xs[..k]));
  }

  lemma AssignOffsetsWrappedEnd(xs: seq<FileIndex>, cursor: u32, base: int)
    requires cursor == Wrap32(base)
    ensures AssignOffsets(xs, cursor).1 == Wrap32(base + SumLengths(AssignOffsets(xs, cursor).0))
  {
    var ys := AssignOffsets(xs, cursor).0;
    AssignOffsetsEnd(xs, cursor);
    AssignOffsetsSums(xs, cursor, |xs|);
    assert xs[..|xs|] == xs;
    assert ys[..|xs|] == ys;
    Wrap32Add(base, SumLengths(xs));
  }

  /** The new offset of BNK record `k`: the data-area start advanced by
      the new lengths before it, as a `uint32`. */
  lemma PlanOffsetBnk(f: File, bnkMap: map<u32, seq<byte>>, wemMap: map<u32, seq<byte>>, k: nat)
    requires k < |f.bnkIndexes|
    ensures var p := PlanRepack(f, bnkMap, wemMap);
      p.bnk[k].offset == Wrap32(DataAreaStart(|f.header.unknown|, |f.bnkIndexes|, |f.wemIndexes|) + SumLengths(p.bnk[..k]))
  {
    var start := DataAreaStart(|f.header.unknown|, |f.bnkIndexes|, |f.wemIndexes|);
    DataAreaStart32Wraps(|f.header.unknown|, |f.bnkIndexes|, |f.wemIndexes|);
    AssignOffsetWrappedAt(ApplyLengths(f.bnkIndexes, bnkMap), Wrap32(start), start, k);
  }

  /** The new offset of WEM record `k`: the cursor carries on from the end
      of the BNK records. */
  lemma PlanOffsetWem(f: File, bnkMap: map<u32, seq<byte>>, wemMap: map<u32, seq<byte>>, k: nat)
    requires k < |f.wemIndexes|
    ensures var p := PlanRepack(f, bnkMap, wemMap);
      p.wem[k].offset == Wrap32(DataAreaStart(|f.header.unknown|, |f.bnkIndexes|, |f.wemIndexes|)
        + SumLengths(p.bnk) + SumLengths(p.wem[..k]))
  {
    var start := DataAreaStart(|f.header.unknown|, |f.bnkIndexes|, |f.wemIndexes|);
    DataAreaStart32Wraps(|f.header.unknown|, |f.bnkIndexes|, |f.wemIndexes|);
    var bnk := AssignOffsets(ApplyLengths(f.bnkIndexes, bnkMap), Wrap32(start));
    AssignOffsetsWrappedEnd(ApplyLengths(f.bnkIndexes, bnkMap), Wrap32(start), start);
    AssignOffsetWrappedAt(ApplyLengths(f.wemIndexes, wemMap), bnk.1, start + SumLengths(bnk.0), k);
  }

  lemma PlanOffsetAt(f: File, bnkMap: map<u32, seq<byte>>, wemMap: map<u32, seq<byte>>, k: nat)
    requires k < |f.bnkIndexes| + |f.wemIndexes|
    ensures var p := PlanRepack(f, bnkMap, wemMap);
      (p.bnk + p.wem)[k].offset
        == Wrap32(DataAreaStart(|f.header.unknown|, |f.bnkIndexes|, |f.wemIndexes|) + SumLengths((p.bnk + p.wem)[..k]))
  {
    var p := PlanRepack(f, bnkMap, wemMap);
    if k < |p.bnk| {
      PlanOffsetBnk(f, bnkMap, wemMap, k);
      assert (p.bnk + p.wem)[..k] == p.bnk[..k];
    } else {
      PlanOffsetWem(f, bnkMap, wemMap, k - |p.bnk|);
      JoinAt(p.bnk, p.wem, k);
    }
  }

  /** Taken together, BNK records then WEM records, the new offsets run
      back to back from the data-area start, as a `uint32` cursor. */
  lemma PlanContiguous(f: File, bnkMap: map<u32, seq<byte>>, wemMap: map<u32, seq<byte>>)
    ensures var p := PlanRepack(f, bnkMap, wemMap);
      WrappedContiguousFrom(p.bnk + p.wem, DataAreaStart(|f.header.unknown|, |f.bnkIndexes|, |f.wemIndexes|))
  {
    var p := PlanRepack(f, bnkMap, wemMap);
    forall k | 0 <= k < |p.bnk + p.wem|
      ensures (p.bnk + p.wem)[k].offset
        == Wrap32(DataAreaStart(|f.header.unknown|, |f.bnkIndexes|, |f.wemIndexes|) + SumLengths((p.bnk + p.wem)[..k]))
    {
      PlanOffsetAt(f, bnkMap, wemMap, k);
    }
  }

  lemma JoinAt(a: seq<FileIndex>, b: seq<FileIndex>, k: nat)
    requires |a| <= k <= |a| + |b|
    ensures SumLengths((a + b)[..k]) == SumLengths(a) + SumLengths(b[..k - |a|])
  {
    assert (a + b)[..k] == a + b[..k - |a|];
    SumLengthsAppend(a, b[..k - |a|]);
  }

  /** The layout facts of a plan when nothing wraps: the header length is
      the data-area start minus 8, the first record starts at the data-area
      start and every record ends where the next begins. */
  lemma PlanExact(f: File, bnkMap: map<u32, seq<byte>>, wemMap: map<u32, seq<byte>>)
    requires var p := PlanRepack(f, bnkMap, wemMap);
      DataAreaStart(|f.header.unknown|, |f.bnkIndexes|, |f.wemIndexes|) + SumLengths(p.bnk + p.wem) < 0x1_0000_0000
    ensures var p := PlanRepack(f, bnkMap, wemMap);
      var start := DataAreaStart(|f.header.unknown|, |f.bnkIndexes|, |f.wemIndexes|);
      && p.header.headerAndIndexesLength == start - 8
      && ContiguousFrom(p.bnk + p.wem, start)
      && AdjacentFrom(p.bnk + p.wem, start)
  {
    var p := PlanRepack(f, bnkMap, wemMap);
    var start := DataAreaStart(|f.header.unknown|, |f.bnkIndexes|, |f.wemIndexes|);
    PlanFields(f, bnkMap, wemMap);
    PlanContiguous(f, bnkMap, wemMap);
    WrappedIsExact(p.bnk + p.wem, start);
    ContiguousIffAdjacent(p.bnk + p.wem, start);
  }

  /** Whether the data loop can emit a record: it is replaced, or its copy
      is empty, or its original range lies inside the source. */
  predicate Copyable(x: FileIndex, m: map<u32, seq<byte>>, s: seq<byte>) {
    x.id in m || x.length == 0 || x.offset + x.length <= |s|
  }

  /** The bytes the data loop writes for one original record: its
      replacement, or `length` bytes copied from its original offset. A
      copy that reaches past the end of the source fails. */
  function EmitBlock(x: FileIndex, m: map<u32, seq<byte>>, s: seq<byte>, kind: Kind): (r: Result<seq<byte>>)
    ensures r.Success? <==> Copyable(x, m, s)
    ensures r.Failure? ==> r.error == ShortCopy(kind, x.id)
  {
    if x.id in m then Success(m[x.id])
    else if x.offset + x.length <= |s| then Success(s[x.offset .. x.offset + x.length])
    else if x.length == 0 then Success([])
    else Failure(ShortCopy(kind, x.id))
  }

  /** An emitted block is the replacement's data, or else exactly the
      bytes the original record's view reads, as many as its length. */
  lemma EmitBlockBytes(x: FileIndex, m: map<u32, seq<byte>>, s: seq<byte>, kind: Kind)
    requires EmitBlock(x, m, s, kind).Success?
    ensures EmitBlock(x, m, s, kind).value
      == if x.id in m then m[x.id] else SectionBytes(s, View(x, kind).section)
    ensures x.id !in m ==> |EmitBlock(x, m, s, kind).value| == x.length
  {
  }

  /** One table's data loop, in table order, stopping at the first failure. */
  function EmitBlocks(xs: seq<FileIndex>, m: map<u32, seq<byte>>, s: seq<byte>, kind: Kind): (r: Result<seq<seq<byte>>>)
    ensures r.Success? ==> |r.value| == |xs|
  {
    if |xs| == 0 then Success([])
    else
      var block :- EmitBlock(xs[0], m, s, kind);
      var rest :- EmitBlocks(xs[1..], m, s, kind);
      Success([block] + rest)
  }

  /** The data loop succeeds exactly when every record can be emitted, and
      then block `i` is what record `i` emits. */
  lemma {:induction false} EmitBlocksSucceeds(xs: seq<FileIndex>, m: map<u32, seq<byte>>, s: seq<byte>, kind: Kind)
    ensures EmitBlocks(xs, m, s, kind).Success? <==> forall i :: 0 <= i < |xs| ==> Copyable(xs[i], m, s)
    ensures EmitBlocks(xs, m, s, kind).Success? ==>
      forall i :: 0 <= i < |xs| ==> EmitBlocks(xs, m, s, kind).value[i] == EmitBlock(xs[i], m, s, kind).value
    decreases |xs|
  {
    if |xs| > 0 {
      EmitBlocksSucceeds(xs[1..], m, s, kind);
      if forall i :: 0 <= i < |xs| ==> Copyable(xs[i], m, s) {
        assert forall i :: 0 <= i < |xs| - 1 ==> Copyable(xs[1..][i], m, s);
      }
    }
  }

  /** The first record that cannot be emitted. */
  ghost predicate FirstStuck(xs: seq<FileIndex>, m: map<u32, seq<byte>>, s: seq<byte>, j: int) {
    && 0 <= j < |xs|
    && !Copyable(xs[j], m, s)
    && forall i :: 0 <= i < j ==> Copyable(xs[i], m, s)
  }

  /** A failed data loop names the first record it could not emit. */
  lemma {:induction false} EmitBlocksFailure(xs: seq<FileIndex>, m: map<u32, seq<byte>>, s: seq<byte>, kind: Kind)
    requires EmitBlocks(xs, m, s, kind).Failure?
    ensures exists j :: FirstStuck(xs, m, s, j) && EmitBlocks(xs, m, s, kind).error == ShortCopy(kind, xs[j].id)
    decreases |xs|
  {
    if Copyable(xs[0], m, s) {
      EmitBlocksFailure(xs[1..], m, s, kind);
      var j :| FirstStuck(xs[1..], m, s, j) && EmitBlocks(xs[1..], m, s, kind).error == ShortCopy(kind, xs[1..][j].id);
      assert FirstStuck(xs, m, s, j + 1);
    } else {
      assert FirstStuck(xs, m, s, 0);
    }
  }

  /** Rebuilds the package named `path`, whose contents are `s`, with the
      given replacements: open and parse it, build the lookup tables, and
      repack what was opened. */
  function Repack(path: string, s: seq<byte>, reps: seq<ReplacementFile>): (r: Result<Serialize.Written>)
    requires KnownTypes(reps)
    ensures Parse.Open(path, s).Failure? ==> r == Failure(Parse.Open(path, s).error)
    ensures Parse.Open(path, s).Success? ==>
      r == RepackFile(Parse.Open(path, s).value, s, ReplacementMap(reps, "bnk"), ReplacementMap(reps, "wem"))
  {
    var f :- Parse.Open(path, s);
    RepackFile(f, s, ReplacementMap(reps, "bnk"), ReplacementMap(reps, "wem"))
  }

  /** Repacks the opened package `f`, read from `s`, with the lookup tables
      `bnkMap` and `wemMap`: plan the new header and tables, then emit every
      BNK block and every WEM block. The reported count starts from the
      `uint32` data-area start and adds each block's size. */
  function RepackFile(f: File, s: seq<byte>, bnkMap: map<u32, seq<byte>>, wemMap: map<u32, seq<byte>>)
    : Result<Serialize.Written>
  {
    var p := PlanRepack(f, bnkMap, wemMap);
    var bnkBlocks :- EmitBlocks(f.bnkIndexes, bnkMap, s, Bnk);
    var wemBlocks :- EmitBlocks(f.wemIndexes, wemMap, s, Wem);
    var start := DataAreaStart32(|f.header.unknown|, |f.bnkIndexes|, |f.wemIndexes|);
    Success(Serialize.Written(
      EncodeContainer(p.header, p.bnk, p.wem) + (Concat(bnkBlocks) + Concat(wemBlocks)),
      start + TotalSize(bnkBlocks) + TotalSize(wemBlocks)))
  }

  /** What a successful open establishes about the source. */
  lemma OpenParsed(path: string, s: seq<byte>)
    requires Parse.Open(path, s).Success?
    ensures var f := Parse.Open(path, s).value;
      var start := DataAreaStart(|f.header.unknown|, |f.bnkIndexes|, |f.wemIndexes|);
      && Parse.NewFile(s, |f.header.unknown|) == Parse.Open(path, s)
      && f == Parse.MakeFile(f.header, f.bnkIndexes, f.wemIndexes)
      && |f.bnkIndexes| < 0x1_0000_0000 && |f.wemIndexes| < 0x1_0000_0000
      && start <= |s|
      && EncodeContainer(f.header, f.bnkIndexes, f.wemIndexes) == s[..start]
  {
    var u := Parse.UnknownSize(path).value;
    Parse.NewFileOutcome(s, u);
    Parse.ParsedPrefix(s, u);
  }

  /** A successful repack taken apart: both data loops succeeded, and the
      output is the new header and tables followed by the blocks. */
  lemma RepackParts(path: string, s: seq<byte>, reps: seq<ReplacementFile>)
    requires KnownTypes(reps)
    requires Repack(path, s, reps).Success?
    ensures var f := Parse.Open(path, s).value;
      var bnkMap := ReplacementMap(reps, "bnk");
      var wemMap := ReplacementMap(reps, "wem");
      var p := PlanRepack(f, bnkMap, wemMap);
      var bnk := EmitBlocks(f.bnkIndexes, bnkMap, s, Bnk);
      var wem := EmitBlocks(f.wemIndexes, wemMap, s, Wem);
      && bnk.Success? && wem.Success?
      && Repack(path, s, reps).value.bytes
        == EncodeContainer(p.header, p.bnk, p.wem) + (Concat(bnk.value) + Concat(wem.value))
      && Repack(path, s, reps).value.count
        == DataAreaStart32(|f.header.unknown|, |f.bnkIndexes|, |f.wemIndexes|)
          + TotalSize(bnk.value) + TotalSize(wem.value)
  {
  }

  /** In one table, the new length of record `i` describes the block the
      data loop emits for it, modulo 2^32. */
  lemma TableLengthAt(xs: seq<FileIndex>, m: map<u32, seq<byte>>, s: seq<byte>, kind: Kind,
                      cursor: u32, blocks: seq<seq<byte>>, i: nat)
    requires EmitBlocks(xs, m, s, kind) == Success(blocks)
    requires i < |xs|
    ensures AssignOffsets(ApplyLengths(xs, m), cursor).0[i].length == Wrap32(|blocks[i]|)
  {
    AssignOffsetsDerived(xs, m, cursor);
    EmitBlocksSucceeds(xs, m, s, kind);
    EmitBlockBytes(xs[i], m, s, kind);
    assert Derived(AssignOffsets(ApplyLengths(xs, m), cursor).0[i], xs[i], m);
  }

  lemma BnkLengthAt(f: File, bnkMap: map<u32, seq<byte>>, wemMap: map<u32, seq<byte>>, s: seq<byte>,
                    bnkBlocks: seq<seq<byte>>, k: nat)
    requires EmitBlocks(f.bnkIndexes, bnkMap, s, Bnk) == Success(bnkBlocks)
    requires k < |f.bnkIndexes|
    ensures PlanRepack(f, bnkMap, wemMap).bnk[k].length == Wrap32(|bnkBlocks[k]|)
  {
    var start := DataAreaStart32(|f.header.unknown|, |f.bnkIndexes|, |f.wemIndexes|);
    TableLengthAt(f.bnkIndexes, bnkMap, s, Bnk, start, bnkBlocks, k);
  }

  lemma WemLengthAt(f: File, bnkMap: map<u32, seq<byte>>, wemMap: map<u32, seq<byte>>, s: seq<byte>,
                    wemBlocks: seq<seq<byte>>, k: nat)
    requires EmitBlocks(f.wemIndexes, wemMap, s, Wem) == Success(wemBlocks)
    requires k < |f.wemIndexes|
    ensures PlanRepack(f, bnkMap, wemMap).wem[k].length == Wrap32(|wemBlocks[k]|)
  {
    var start := DataAreaStart32(|f.header.unknown|, |f.bnkIndexes|, |f.wemIndexes|);
    var bnk := AssignOffsets(ApplyLengths(f.bnkIndexes, bnkMap), start);
    TableLengthAt(f.wemIndexes, wemMap, s, Wem, bnk.1, wemBlocks, k);
  }

  /** The same across both tables, BNK records first. */
  lemma NewLengthAt(f: File, bnkMap: map<u32, seq<byte>>, wemMap: map<u32, seq<byte>>, s: seq<byte>,
                    bnkBlocks: seq<seq<byte>>, wemBlocks: seq<seq<byte>>, k: nat)
    requires EmitBlocks(f.bnkIndexes, bnkMap, s, Bnk) == Success(bnkBlocks)
    requires EmitBlocks(f.wemIndexes, wemMap, s, Wem) == Success(wemBlocks)
    requires k < |f.bnkIndexes| + |f.wemIndexes|
    ensures var p := PlanRepack(f, bnkMap, wemMap);
      (p.bnk + p.wem)[k].length == Wrap32(|(bnkBlocks + wemBlocks)[k]|)
  {
    var p := PlanRepack(f, bnkMap, wemMap);
    var nb := |f.bnkIndexes|;
    if k < nb {
      BnkLengthAt(f, bnkMap, wemMap, s, bnkBlocks, k);
    } else {
      WemLengthAt(f, bnkMap, wemMap, s, wemBlocks, k - nb);
    }
    JoinedLengthAt(p.bnk, p.wem, bnkBlocks, wemBlocks, k);
  }

  lemma JoinedLengthAt(a: seq<FileIndex>, b: seq<FileIndex>, ba: seq<seq<byte>>, bb: seq<seq<byte>>, k: nat)
    requires |a| == |ba| && |b| == |bb| && k < |a| + |b|
    requires k < |a| ==> a[k].length == Wrap32(|ba[k]|)
    requires |a| <= k ==> b[k - |a|].length == Wrap32(|bb[k - |a|]|)
    ensures (a + b)[k].length == Wrap32(|(ba + bb)[k]|)
  {
  }

  lemma BlockBound(blocks: seq<seq<byte>>, k: nat)
    requires k < |blocks|
    ensures |blocks[k]| <= TotalSize(blocks)
  {
    ConcatBlockAt(blocks, k);
  }

  /** When the output stays below 4 GiB nothing wraps: every new length is
      its block's size, and the plan lays the records out back to back from
      the data-area start with the header length field at that start
      minus 8. */
  lemma PlacedExactly(f: File, bnkMap: map<u32, seq<byte>>, wemMap: map<u32, seq<byte>>, s: seq<byte>,
                      bnkBlocks: seq<seq<byte>>, wemBlocks: seq<seq<byte>>)
    requires EmitBlocks(f.bnkIndexes, bnkMap, s, Bnk) == Success(bnkBlocks)
    requires EmitBlocks(f.wemIndexes, wemMap, s, Wem) == Success(wemBlocks)
    requires DataAreaStart(|f.header.unknown|, |f.bnkIndexes|, |f.wemIndexes|)
      + TotalSize(bnkBlocks) + TotalSize(wemBlocks) < 0x1_0000_0000
    ensures var p := PlanRepack(f, bnkMap, wemMap);
      var start := DataAreaStart(|f.header.unknown|, |f.bnkIndexes|, |f.wemIndexes|);
      && (forall k :: 0 <= k < |p.bnk + p.wem| ==> (p.bnk + p.wem)[k].length == |(bnkBlocks + wemBlocks)[k]|)
      && SumLengths(p.bnk + p.wem) == TotalSize(bnkBlocks) + TotalSize(wemBlocks)
      && ContiguousFrom(p.bnk + p.wem, start)
      && p.header.headerAndIndexesLength == start - 8
  {
    var p := PlanRepack(f, bnkMap, wemMap);
    var blocks := bnkBlocks + wemBlocks;
    ConcatAppend(bnkBlocks, wemBlocks);
    forall k | 0 <= k < |p.bnk + p.wem|
      ensures (p.bnk + p.wem)[k].length == |blocks[k]|
    {
      NewLengthAt(f, bnkMap, wemMap, s, bnkBlocks, wemBlocks, k);
      BlockBound(blocks, k);
    }
    Serialize.SumLengthsOfBlocks(p.bnk + p.wem, blocks);
    PlanExact(f, bnkMap, wemMap);
  }

  /** Blocks placed by a plan below 4 GiB: record `k` (BNK records first)
      of the new tables reads, from the output, exactly block `k`. */
  lemma PlacedBlockAt(f: File, bnkMap: map<u32, seq<byte>>, wemMap: map<u32, seq<byte>>, s: seq<byte>,
                      bnkBlocks: seq<seq<byte>>, wemBlocks: seq<seq<byte>>, out: seq<byte>, k: nat)
    requires EmitBlocks(f.bnkIndexes, bnkMap, s, Bnk) == Success(bnkBlocks)
    requires EmitBlocks(f.wemIndexes, wemMap, s, Wem) == Success(wemBlocks)
    requires var p := PlanRepack(f, bnkMap, wemMap);
      out == EncodeContainer(p.header, p.bnk, p.wem) + Concat(bnkBlocks + wemBlocks)
    requires |out| < 0x1_0000_0000
    requires k < |f.bnkIndexes| + |f.wemIndexes|
    ensures var p := PlanRepack(f, bnkMap, wemMap);
      var x := (p.bnk + p.wem)[k];
      SectionBytes(out, Section(x.offset, x.length)) == (bnkBlocks + wemBlocks)[k]
  {
    var p := PlanRepack(f, bnkMap, wemMap);
    var start := DataAreaStart(|f.header.unknown|, |f.bnkIndexes|, |f.wemIndexes|);
    ConcatAppend(bnkBlocks, wemBlocks);
    PlacedExactly(f, bnkMap, wemMap, s, bnkBlocks, wemBlocks);
    AfterPrefix(out, EncodeContainer(p.header, p.bnk, p.wem), Concat(bnkBlocks + wemBlocks));
    Serialize.SectionOfBlock(out, start, p.bnk + p.wem, bnkBlocks + wemBlocks, k);
  }

  lemma AfterPrefix(out: seq<byte>, prefix: seq<byte>, rest: seq<byte>)
    requires out == prefix + rest
    ensures out[|prefix|..] == rest
  {
  }

  /** The output of a repack parses back, with the same opaque-region size,
      into the new header and tables. */
  lemma RepackOutputParses(path: string, s: seq<byte>, reps: seq<ReplacementFile>)
    requires KnownTypes(reps)
    requires Repack(path, s, reps).Success?
    ensures var f := Parse.Open(path, s).value;
      var p := PlanRepack(f, ReplacementMap(reps, "bnk"), ReplacementMap(reps, "wem"));
      Parse.NewFile(Repack(path, s, reps).value.bytes, |f.header.unknown|)
        == Success(Parse.MakeFile(p.header, p.bnk, p.wem))
  {
    var f := Parse.Open(path, s).value;
    var bnkMap := ReplacementMap(reps, "bnk");
    var wemMap := ReplacementMap(reps, "wem");
    var p := PlanRepack(f, bnkMap, wemMap);
    OpenParsed(path, s);
    RepackParts(path, s, reps);
    var rest := Concat(EmitBlocks(f.bnkIndexes, bnkMap, s, Bnk).value) + Concat(EmitBlocks(f.wemIndexes, wemMap, s, Wem).value);
    Parse.ParseEncoded(p.header, p.bnk, p.wem, rest);
  }

  /** The reported count is the output's size, except that it starts from
      the `uint32` data-area start: it falls short by a multiple of 2^32
      when the header and tables alone reach 4 GiB, which a source below
      4 GiB rules out. */
  lemma RepackCount(path: string, s: seq<byte>, reps: seq<ReplacementFile>)
    requires KnownTypes(reps)
    requires Repack(path, s, reps).Success?
    ensures var f := Parse.Open(path, s).value;
      var out := Repack(path, s, reps).value;
      var start := DataAreaStart(|f.header.unknown|, |f.bnkIndexes|, |f.wemIndexes|);
      && out.count == |out.bytes| - start + Wrap32(start)
      && (|s| < 0x1_0000_0000 ==> out.count == |out.bytes|)
  {
    var f := Parse.Open(path, s).value;
    OpenParsed(path, s);
    RepackParts(path, s, reps);
    DataAreaStart32Wraps(|f.header.unknown|, |f.bnkIndexes|, |f.wemIndexes|);
  }

  /** With the package open, a repack succeeds exactly when every BNK and
      every WEM record can be emitted. */
  lemma RepackSucceeds(path: string, s: seq<byte>, reps: seq<ReplacementFile>)
    requires KnownTypes(reps)
    requires Parse.Open(path, s).Success?
    ensures var f := Parse.Open(path, s).value;
      var bnkMap := ReplacementMap(reps, "bnk");
      var wemMap := ReplacementMap(reps, "wem");
      Repack(path, s, reps).Success? <==>
        && (forall i :: 0 <= i < |f.bnkIndexes| ==> Copyable(f.bnkIndexes[i], bnkMap, s))
        && (forall i :: 0 <= i < |f.wemIndexes| ==> Copyable(f.wemIndexes[i], wemMap, s))
  {
    var f := Parse.Open(path, s).value;
    EmitBlocksSucceeds(f.bnkIndexes, ReplacementMap(reps, "bnk"), s, Bnk);
    EmitBlocksSucceeds(f.wemIndexes, ReplacementMap(reps, "wem"), s, Wem);
  }

  /** A repack of an open package that fails reports the first BNK record
      it could not copy, or, when every BNK record could be emitted, the
      first such WEM record. */
  lemma RepackFailsAt(path: string, s: seq<byte>, reps: seq<ReplacementFile>)
    requires KnownTypes(reps)
    requires Parse.Open(path, s).Success?
    requires Repack(path, s, reps).Failure?
    ensures var f := Parse.Open(path, s).value;
      var bnkMap := ReplacementMap(reps, "bnk");
      var wemMap := ReplacementMap(reps, "wem");
      var e := Repack(path, s, reps).error;
      || (exists j :: FirstStuck(f.bnkIndexes, bnkMap, s, j) && e == ShortCopy(Bnk, f.bnkIndexes[j].id))
      || (&& (forall i :: 0 <= i < |f.bnkIndexes| ==> Copyable(f.bnkIndexes[i], bnkMap, s))
          && exists j :: FirstStuck(f.wemIndexes, wemMap, s, j) && e == ShortCopy(Wem, f.wemIndexes[j].id))
  {
    var f := Parse.Open(path, s).value;
    var bnkMap := ReplacementMap(reps, "bnk");
    var wemMap := ReplacementMap(reps, "wem");
    if EmitBlocks(f.bnkIndexes, bnkMap, s, Bnk).Failure? {
      EmitBlocksFailure(f.bnkIndexes, bnkMap, s, Bnk);
    } else {
      EmitBlocksSucceeds(f.bnkIndexes, bnkMap, s, Bnk);
      EmitBlocksFailure(f.wemIndexes, wemMap, s, Wem);
    }
  }

  /** BNK file `i` of the new tables reads, from the output, its
      replacement's data when it has one and otherwise what the original
      BNK file `i` read from the source; its name is unchanged. */
  lemma PlacedBnk(f: File, bnkMap: map<u32, seq<byte>>, wemMap: map<u32, seq<byte>>, s: seq<byte>,
                  bnkBlocks: seq<seq<byte>>, wemBlocks: seq<seq<byte>>, out: seq<byte>, i: nat)
    requires EmitBlocks(f.bnkIndexes, bnkMap, s, Bnk) == Success(bnkBlocks)
    requires EmitBlocks(f.wemIndexes, wemMap, s, Wem) == Success(wemBlocks)
    requires var p := PlanRepack(f, bnkMap, wemMap);
      out == EncodeContainer(p.header, p.bnk, p.wem) + Concat(bnkBlocks + wemBlocks)
    requires |out| < 0x1_0000_0000
    requires i < |f.bnkIndexes|
    ensures var x := f.bnkIndexes[i];
      var v := View(PlanRepack(f, bnkMap, wemMap).bnk[i], Bnk);
      && v.name == View(x, Bnk).name
      && SectionBytes(out, v.section) == if x.id in bnkMap then bnkMap[x.id] else SectionBytes(s, View(x, Bnk).section)
  {
    var p := PlanRepack(f, bnkMap, wemMap);
    PlacedBlockAt(f, bnkMap, wemMap, s, bnkBlocks, wemBlocks, out, i);
    assert (p.bnk + p.wem)[i] == p.bnk[i] && (bnkBlocks + wemBlocks)[i] == bnkBlocks[i];
    EmitBlocksSucceeds(f.bnkIndexes, bnkMap, s, Bnk);
    EmitBlockBytes(f.bnkIndexes[i], bnkMap, s, Bnk);
    PlanFields(f, bnkMap, wemMap);
    assert Derived(p.bnk[i], f.bnkIndexes[i], bnkMap);
  }

  /** The same for WEM file `i`. */
  lemma PlacedWem(f: File, bnkMap: map<u32, seq<byte>>, wemMap: map<u32, seq<byte>>, s: seq<byte>,
                  bnkBlocks: seq<seq<byte>>, wemBlocks: seq<seq<byte>>, out: seq<byte>, i: nat)
    requires EmitBlocks(f.bnkIndexes, bnkMap, s, Bnk) == Success(bnkBlocks)
    requires EmitBlocks(f.wemIndexes, wemMap, s, Wem) == Success(wemBlocks)
    requires var p := PlanRepack(f, bnkMap, wemMap);
      out == EncodeContainer(p.header, p.bnk, p.wem) + Concat(bnkBlocks + wemBlocks)
    requires |out| < 0x1_0000_0000
    requires i < |f.wemIndexes|
    ensures var x := f.wemIndexes[i];
      var v := View(PlanRepack(f, bnkMap, wemMap).wem[i], Wem);
      && v.name == View(x, Wem).name
      && SectionBytes(out, v.section) == if x.id in wemMap then wemMap[x.id] else SectionBytes(s, View(x, Wem).section)
  {
    var p := PlanRepack(f, bnkMap, wemMap);
    var k := |f.bnkIndexes| + i;
    PlacedBlockAt(f, bnkMap, wemMap, s, bnkBlocks, wemBlocks, out, k);
    assert (p.bnk + p.wem)[k] == p.wem[i] && (bnkBlocks + wemBlocks)[k] == wemBlocks[i];
    EmitBlocksSucceeds(f.wemIndexes, wemMap, s, Wem);
    EmitBlockBytes(f.wemIndexes[i], wemMap, s, Wem);
    PlanFields(f, bnkMap, wemMap);
    assert Derived(p.wem[i], f.wemIndexes[i], wemMap);
  }

  /** The output of a successful repack as the blocks lemmas take it. */
  lemma RepackOutput(path: string, s: seq<byte>, reps: seq<ReplacementFile>)
    requires KnownTypes(reps)
    requires Repack(path, s, reps).Success?
    ensures var f := Parse.Open(path, s).value;
      var bnkMap := ReplacementMap(reps, "bnk");
      var wemMap := ReplacementMap(reps, "wem");
      var p := PlanRepack(f, bnkMap, wemMap);
      var bnk := EmitBlocks(f.bnkIndexes, bnkMap, s, Bnk);
      var wem := EmitBlocks(f.wemIndexes, wemMap, s, Wem);
      && bnk.Success? && wem.Success?
      && Repack(path, s, reps).value.bytes == EncodeContainer(p.header, p.bnk, p.wem) + Concat(bnk.value + wem.value)
  {
    var f := Parse.Open(path, s).value;
    RepackParts(path, s, reps);
    ConcatAppend(EmitBlocks(f.bnkIndexes, ReplacementMap(reps, "bnk"), s, Bnk).value,
                 EmitBlocks(f.wemIndexes, ReplacementMap(reps, "wem"), s, Wem).value);
  }

  /** Read back, BNK file `i` of a repacked package below 4 GiB holds the
      data of its replacement when the list names its ID, and otherwise
      the bytes the original BNK file `i` held; it keeps its name. */
  lemma RepackBnkView(path: string, s: seq<byte>, reps: seq<ReplacementFile>, i: nat)
    requires KnownTypes(reps)
    requires Repack(path, s, reps).Success?
    requires |Repack(path, s, reps).value.bytes| < 0x1_0000_0000
    requires i < |Parse.Open(path, s).value.bnkIndexes|
    ensures var f := Parse.Open(path, s).value;
      var out := Repack(path, s, reps).value.bytes;
      var m := ReplacementMap(reps, "bnk");
      var g := Parse.NewFile(out, |f.header.unknown|);
      && g.Success? && i < |g.value.bnks| && i < |f.bnks|
      && g.value.bnks[i].name == f.bnks[i].name
      && SectionBytes(out, g.value.bnks[i].section)
        == if f.bnkIndexes[i].id in m then m[f.bnkIndexes[i].id] else SectionBytes(s, f.bnks[i].section)
  {
    var f := Parse.Open(path, s).value;
    var bnkMap := ReplacementMap(reps, "bnk");
    var wemMap := ReplacementMap(reps, "wem");
    OpenParsed(path, s);
    RepackOutput(path, s, reps);
    RepackOutputParses(path, s, reps);
    PlacedBnk(f, bnkMap, wemMap, s, EmitBlocks(f.bnkIndexes, bnkMap, s, Bnk).value,
              EmitBlocks(f.wemIndexes, wemMap, s, Wem).value, Repack(path, s, reps).value.bytes, i);
  }

  /** The same for WEM file `i`. */
  lemma RepackWemView(path: string, s: seq<byte>, reps: seq<ReplacementFile>, i: nat)
    requires KnownTypes(reps)
    requires Repack(path, s, reps).Success?
    requires |Repack(path, s, reps).value.bytes| < 0x1_0000_0000
    requires i < |Parse.Open(path, s).value.wemIndexes|
    ensures var f := Parse.Open(path, s).value;
      var out := Repack(path, s, reps).value.bytes;
      var m := ReplacementMap(reps, "wem");
      var g := Parse.NewFile(out, |f.header.unknown|);
      && g.Success? && i < |g.value.wems| && i < |f.wems|
      && g.value.wems[i].name == f.wems[i].name
      && SectionBytes(out, g.value.wems[i].section)
        == if f.wemIndexes[i].id in m then m[f.wemIndexes[i].id] else SectionBytes(s, f.wems[i].section)
  {
    var f := Parse.Open(path, s).value;
    var bnkMap := ReplacementMap(reps, "bnk");
    var wemMap := ReplacementMap(reps, "wem");
    OpenParsed(path, s);
    RepackOutput(path, s, reps);
    RepackOutputParses(path, s, reps);
    PlacedWem(f, bnkMap, wemMap, s, EmitBlocks(f.bnkIndexes, bnkMap, s, Bnk).value,
              EmitBlocks(f.wemIndexes, wemMap, s, Wem).value, Repack(path, s, reps).value.bytes, i);
  }

  /** A plan placed below 4 GiB is the canonical layout of its output. */
  lemma PlacedLayout(f: File, bnkMap: map<u32, seq<byte>>, wemMap: map<u32, seq<byte>>, s: seq<byte>,
                     bnkBlocks: seq<seq<byte>>, wemBlocks: seq<seq<byte>>, out: seq<byte>)
    requires EmitBlocks(f.bnkIndexes, bnkMap, s, Bnk) == Success(bnkBlocks)
    requires EmitBlocks(f.wemIndexes, wemMap, s, Wem) == Success(wemBlocks)
    requires var p := PlanRepack(f, bnkMap, wemMap);
      out == EncodeContainer(p.header, p.bnk, p.wem) + Concat(bnkBlocks + wemBlocks)
    requires |out| < 0x1_0000_0000
    ensures var p := PlanRepack(f, bnkMap, wemMap);
      && p.header.headerAndIndexesLength == DataAreaStart(|f.header.unknown|, |f.bnkIndexes|, |f.wemIndexes|) - 8
      && Serialize.DataLaidOut(Parse.MakeFile(p.header, p.bnk, p.wem), out)
  {
    ConcatAppend(bnkBlocks, wemBlocks);
    PlacedExactly(f, bnkMap, wemMap, s, bnkBlocks, wemBlocks);
  }

  /** A repacked package below 4 GiB reports its own size, parses back into
      the new header and tables, and has the canonical layout: its header
      length field is the data-area start minus 8 and its data runs back
      to back, BNKs then WEMs, from the end of the tables to the end of the
      file. Written out again, it is reproduced byte for byte. */
  lemma RepackReadBack(path: string, s: seq<byte>, reps: seq<ReplacementFile>)
    requires KnownTypes(reps)
    requires Repack(path, s, reps).Success?
    requires |Repack(path, s, reps).value.bytes| < 0x1_0000_0000
    ensures var f := Parse.Open(path, s).value;
      var out := Repack(path, s, reps).value;
      var p := PlanRepack(f, ReplacementMap(reps, "bnk"), ReplacementMap(reps, "wem"));
      var g := Parse.MakeFile(p.header, p.bnk, p.wem);
      && out.count == |out.bytes|
      && Parse.NewFile(out.bytes, |f.header.unknown|) == Success(g)
      && g.header.headerAndIndexesLength == DataAreaStart(|f.header.unknown|, |f.bnkIndexes|, |f.wemIndexes|) - 8
      && Serialize.DataLaidOut(g, out.bytes)
      && Serialize.WriteTo(g, out.bytes) == out
  {
    var f := Parse.Open(path, s).value;
    var bnkMap := ReplacementMap(reps, "bnk");
    var wemMap := ReplacementMap(reps, "wem");
    var out := Repack(path, s, reps).value;
    RepackOutput(path, s, reps);
    RepackOutputParses(path, s, reps);
    RepackCount(path, s, reps);
    PlacedLayout(f, bnkMap, wemMap, s, EmitBlocks(f.bnkIndexes, bnkMap, s, Bnk).value,
                 EmitBlocks(f.wemIndexes, wemMap, s, Wem).value, out.bytes);
    Serialize.WriteToRoundTrip(out.bytes, |f.header.unknown|);
  }

  /** Records of one table that share a replaced ID all take that
      replacement: the same new length and the same emitted bytes. */
  lemma DuplicateIdsShareReplacement(xs: seq<FileIndex>, m: map<u32, seq<byte>>, s: seq<byte>, kind: Kind,
                                     cursor: u32, i: nat, j: nat)
    requires i < |xs| && j < |xs|
    requires xs[i].id == xs[j].id && xs[i].id in m
    ensures var ys := AssignOffsets(ApplyLengths(xs, m), cursor).0;
      ys[i].length == ys[j].length == Wrap32(|m[xs[i].id]|)
    ensures var r := EmitBlocks(xs, m, s, kind);
      r.Success? ==> r.value[i] == r.value[j] == m[xs[i].id]
  {
    AssignOffsetsDerived(xs, m, cursor);
    var ys := AssignOffsets(ApplyLengths(xs, m), cursor).0;
    assert Derived(ys[i], xs[i], m) && Derived(ys[j], xs[j], m);
    if EmitBlocks(xs, m, s, kind).Success? {
      EmitBlocksSucceeds(xs, m, s, kind);
      EmitBlockBytes(xs[i], m, s, kind);
      EmitBlockBytes(xs[j], m, s, kind);
    }
  }

  /** With no replacements, every record can be copied from a source that
      holds its range, and the blocks are the records' view contents. */
  lemma EmitOriginals(xs: seq<FileIndex>, s: seq<byte>, kind: Kind)
    requires Serialize.InRange(xs, s)
    ensures EmitBlocks(xs, map[], s, kind) == Success(Serialize.Contents(Views(xs, kind), s))
  {
    assert forall i :: 0 <= i < |xs| ==> Copyable(xs[i], map[], s);
    EmitBlocksSucceeds(xs, map[], s, kind);
    var blocks := EmitBlocks(xs, map[], s, kind).value;
    var contents := Serialize.Contents(Views(xs, kind), s);
    forall i | 0 <= i < |xs|
      ensures blocks[i] == contents[i]
    {
      EmitBlockBytes(xs[i], map[], s, kind);
    }
    assert blocks == contents;
  }

  lemma InRangeSplit(a: seq<FileIndex>, b: seq<FileIndex>, s: seq<byte>)
    requires Serialize.InRange(a + b, s)
    ensures Serialize.InRange(a, s) && Serialize.InRange(b, s)
  {
    assert forall i :: 0 <= i < |a| ==> (a + b)[i] == a[i];
    assert forall i :: 0 <= i < |b| ==> (a + b)[|a| + i] == b[i];
  }

  /** With no replacements every new length is the original one. */
  lemma KeepsLengths(f: File)
    ensures var p := PlanRepack(f, map[], map[]);
      SumLengths(p.bnk + p.wem) == SumLengths(f.bnkIndexes + f.wemIndexes)
    ensures var p := PlanRepack(f, map[], map[]);
      forall k :: 0 <= k < |p.bnk + p.wem| ==>
        Derived((p.bnk + p.wem)[k], (f.bnkIndexes + f.wemIndexes)[k], map[])
  {
    var p := PlanRepack(f, map[], map[]);
    PlanFields(f, map[], map[]);
    var ys := p.bnk + p.wem;
    var xs := f.bnkIndexes + f.wemIndexes;
    forall k | 0 <= k < |ys|
      ensures Derived(ys[k], xs[k], map[])
    {
      if k < |p.bnk| {
        assert ys[k] == p.bnk[k] && xs[k] == f.bnkIndexes[k];
      } else {
        assert ys[k] == p.wem[k - |p.bnk|] && xs[k] == f.wemIndexes[k - |p.bnk|];
      }
    }
    SumLengthsSame(ys, xs);
  }

  /** A record the plan derives without a replacement, at a `uint32` offset
      advanced by the same lengths as the original's exact one, is the
      original record: the original offset is a `uint32`, so the cursor
      did not wrap before it. */
  lemma KeptRecordAt(xs: seq<FileIndex>, ys: seq<FileIndex>, start: int, k: nat)
    requires |xs| == |ys| && k < |xs|
    requires forall i :: 0 <= i < |xs| ==> Derived(ys[i], xs[i], map[])
    requires xs[k].offset == start + SumLengths(xs[..k])
    requires ys[k].offset == Wrap32(start + SumLengths(ys[..k]))
    ensures ys[k] == xs[k]
  {
    assert forall i :: 0 <= i < k ==> xs[..k][i].length == ys[..k][i].length;
    SumLengthsSame(xs[..k], ys[..k]);
  }

  /** A package already in the canonical layout is planned unchanged when
      nothing is replaced, whatever its size: every original offset is a
      `uint32`, and the cursor wraps at most after the last record. */
  lemma PlanKeepsLayout(f: File)
    requires var start := DataAreaStart(|f.header.unknown|, |f.bnkIndexes|, |f.wemIndexes|);
      && ContiguousFrom(f.bnkIndexes + f.wemIndexes, start)
      && f.header.headerAndIndexesLength == start - 8
    ensures PlanRepack(f, map[], map[]) == Plan(f.header, f.bnkIndexes, f.wemIndexes)
  {
    var p := PlanRepack(f, map[], map[]);
    var start := DataAreaStart(|f.header.unknown|, |f.bnkIndexes|, |f.wemIndexes|);
    var xs := f.bnkIndexes + f.wemIndexes;
    var ys := p.bnk + p.wem;
    KeepsLengths(f);
    PlanFields(f, map[], map[]);
    PlanContiguous(f, map[], map[]);
    forall k | 0 <= k < |xs|
      ensures ys[k] == xs[k]
    {
      KeptRecordAt(xs, ys, start, k);
    }
    assert ys == xs;
    assert p.bnk == ys[..|p.bnk|] && f.bnkIndexes == xs[..|p.bnk|];
    assert p.wem == ys[|p.bnk|..] && f.wemIndexes == xs[|p.bnk|..];
    assert p.header == f.header;
  }

  /** A record laid out from `start` puts `start` below 2^32. */
  lemma LaidOutStartBelow(xs: seq<FileIndex>, start: int)
    requires ContiguousFrom(xs, start) && |xs| > 0
    ensures start < 0x1_0000_0000
  {
    assert xs[..0] == [];
  }

  /** The pieces of a repack without replacements of a package in the
      canonical layout: the plan is the package's own header and tables,
      and the blocks are its views' contents. */
  lemma NoOpPieces(f: File, s: seq<byte>)
    requires Serialize.Consistent(f)
    requires Serialize.DataLaidOut(f, s)
    requires f.header.headerAndIndexesLength == DataAreaStart(|f.header.unknown|, |f.bnkIndexes|, |f.wemIndexes|) - 8
    ensures PlanRepack(f, map[], map[]) == Plan(f.header, f.bnkIndexes, f.wemIndexes)
    ensures EmitBlocks(f.bnkIndexes, map[], s, Bnk) == Success(Serialize.Contents(f.bnks, s))
    ensures EmitBlocks(f.wemIndexes, map[], s, Wem) == Success(Serialize.Contents(f.wems, s))
  {
    var start := DataAreaStart(|f.header.unknown|, |f.bnkIndexes|, |f.wemIndexes|);
    PlanKeepsLayout(f);
    Serialize.ContiguousInRange(f.bnkIndexes + f.wemIndexes, start, s);
    InRangeSplit(f.bnkIndexes, f.wemIndexes, s);
    EmitOriginals(f.bnkIndexes, s, Bnk);
    EmitOriginals(f.wemIndexes, s, Wem);
  }

  /** Repacking a package in the canonical layout with empty lookup tables
      writes what the writer writes for it. The count agrees too whenever
      the data-area start is below 2^32; beyond that the repack's count
      starts from the start taken as a `uint32`. */
  lemma NoOpIsWriteTo(f: File, s: seq<byte>)
    requires Serialize.Consistent(f)
    requires Serialize.DataLaidOut(f, s)
    requires f.header.headerAndIndexesLength == DataAreaStart(|f.header.unknown|, |f.bnkIndexes|, |f.wemIndexes|) - 8
    ensures var r := RepackFile(f, s, map[], map[]);
      var start := DataAreaStart(|f.header.unknown|, |f.bnkIndexes|, |f.wemIndexes|);
      && r.Success?
      && r.value.bytes == Serialize.WriteTo(f, s).bytes
      && r.value.count == Serialize.WriteTo(f, s).count - start + Wrap32(start)
      && (start < 0x1_0000_0000 ==> r.value.count == Serialize.WriteTo(f, s).count)
  {
    NoOpPieces(f, s);
    NoOpAssembled(f, s, Serialize.Contents(f.bnks, s), Serialize.Contents(f.wems, s));
    DataAreaStart32Wraps(|f.header.unknown|, |f.bnkIndexes|, |f.wemIndexes|);
    Serialize.WriteToPieces(f, s);
  }

  /** A repack with empty lookup tables whose plan keeps the tables writes
      the original header and tables followed by the blocks emitted. */
  lemma NoOpAssembled(f: File, s: seq<byte>, bnkBlocks: seq<seq<byte>>, wemBlocks: seq<seq<byte>>)
    requires PlanRepack(f, map[], map[]) == Plan(f.header, f.bnkIndexes, f.wemIndexes)
    requires EmitBlocks(f.bnkIndexes, map[], s, Bnk) == Success(bnkBlocks)
    requires EmitBlocks(f.wemIndexes, map[], s, Wem) == Success(wemBlocks)
    ensures var r := RepackFile(f, s, map[], map[]);
      && r.Success?
      && r.value.bytes == EncodeContainer(f.header, f.bnkIndexes, f.wemIndexes) + (Concat(bnkBlocks) + Concat(wemBlocks))
      && r.value.count == DataAreaStart32(|f.header.unknown|, |f.bnkIndexes|, |f.wemIndexes|)
        + TotalSize(bnkBlocks) + TotalSize(wemBlocks)
  {
  }

  /** Repacking with no replacements a package that already has the
      canonical layout, header length field included, reproduces it byte
      for byte and reports its size. */
  lemma NoOpRepack(path: string, s: seq<byte>)
    requires Parse.Open(path, s).Success?
    requires Serialize.DataLaidOut(Parse.Open(path, s).value, s)
    requires var f := Parse.Open(path, s).value;
      f.header.headerAndIndexesLength == DataAreaStart(|f.header.unknown|, |f.bnkIndexes|, |f.wemIndexes|) - 8
    ensures Repack(path, s, []) == Success(Serialize.Written(s, |s|))
  {
    var f := Parse.Open(path, s).value;
    var u := |f.header.unknown|;
    OpenParsed(path, s);
    assert u == 36 || u == 68 by {
      Parse.NewFileOutcome(s, Parse.UnknownSize(path).value);
    }
    if |f.bnkIndexes + f.wemIndexes| > 0 {
      LaidOutStartBelow(f.bnkIndexes + f.wemIndexes, DataAreaStart(u, |f.bnkIndexes|, |f.wemIndexes|));
    }
    assert ReplacementMap([], "bnk") == map[] && ReplacementMap([], "wem") == map[];
    NoOpIsWriteTo(f, s);
    Serialize.WriteToRoundTrip(s, u);
  }
}
