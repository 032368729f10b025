/** Writing a package back out: header, both counted index tables, then
    every embedded file's bytes, BNKs first, each read through its view. */
module Serialize {
  import opened Bytes
  import opened Format
  import Parse

  /** What a write produced: the bytes, and the running count the writer
      reports. */
  datatype Written = Written(bytes: seq<byte>, count: int)

  /** The bytes each view yields when copied from its start. */
  function Contents(views: seq<EmbeddedFile>, s: seq<byte>): (r: seq<seq<byte>>)
    ensures |r| == |views|
    ensures forall i :: 0 <= i < |views| ==> r[i] == SectionBytes(s, views[i].section)
  {
    seq(|views|, i requires 0 <= i < |views| => SectionBytes(s, views[i].section))
  }

  /** Writes `f`, whose views read from `s`. The count is tallied field by
      field, as the writer adds up what each step reports. */
  function WriteTo(f: File, s: seq<byte>): (w: Written)
    ensures w.count == |w.bytes|
  {
    var bnkData := Contents(f.bnks, s);
    var wemData := Contents(f.wems, s);
    var count := 4 + 4 + |f.header.unknown|
      + 4 + 24 * |f.bnkIndexes| + 4 + 24 * |f.wemIndexes|
      + TotalSize(bnkData) + TotalSize(wemData);
    Written(EncodeContainer(f.header, f.bnkIndexes, f.wemIndexes) + (Concat(bnkData) + Concat(wemData)), count)
  }

  /** The views of a file are the ones its index tables describe, as a
      parse builds them. */
  predicate Consistent(f: File) {
    f.bnks == Views(f.bnkIndexes, Bnk) && f.wems == Views(f.wemIndexes, Wem)
  }

  /** Every record's range lies inside the source. */
  ghost predicate InRange(xs: seq<FileIndex>, s: seq<byte>) {
    forall i :: 0 <= i < |xs| ==> xs[i].offset + xs[i].length <= |s|
  }

  /** Data runs back to back from the end of the tables to the end of the
      source, BNKs then WEMs: the layout a repack produces. */
  ghost predicate DataLaidOut(f: File, s: seq<byte>) {
    var start := DataAreaStart(|f.header.unknown|, |f.bnkIndexes|, |f.wemIndexes|);
    && ContiguousFrom(f.bnkIndexes + f.wemIndexes, start)
    && start + SumLengths(f.bnkIndexes + f.wemIndexes) == |s|
  }

  lemma {:induction false} TotalSizeInRange(xs: seq<FileIndex>, kind: Kind, s: seq<byte>)
    requires InRange(xs, s)
    ensures TotalSize(Contents(Views(xs, kind), s)) == SumLengths(xs)
    decreases |xs|
  {
    if |xs| > 0 {
      var c := Contents(Views(xs, kind), s);
      TotalSizeInRange(xs[1..], kind, s);
      assert c[1..] == Contents(Views(xs[1..], kind), s);
    }
  }

  /** The count a write reports: header, opaque region, the two counts,
      24 bytes per record, then each record's length when every range lies
      inside the source. */
  lemma WriteToCount(f: File, s: seq<byte>)
    requires Consistent(f)
    requires InRange(f.bnkIndexes, s) && InRange(f.wemIndexes, s)
    ensures WriteTo(f, s).count
      == 8 + |f.header.unknown| + 4 + 24 * |f.bnkIndexes| + 4 + 24 * |f.wemIndexes|
        + SumLengths(f.bnkIndexes) + SumLengths(f.wemIndexes)
  {
    TotalSizeInRange(f.bnkIndexes, Bnk, s);
    TotalSizeInRange(f.wemIndexes, Wem, s);
  }

  /** The written package is the header and tables, then the data; the count
      starts from where the data begins. */
  lemma WriteToPieces(f: File, s: seq<byte>)
    ensures var bnkData := Contents(f.bnks, s);
      var wemData := Contents(f.wems, s);
      && WriteTo(f, s).bytes == EncodeContainer(f.header, f.bnkIndexes, f.wemIndexes) + (Concat(bnkData) + Concat(wemData))
      && WriteTo(f, s).count == DataAreaStart(|f.header.unknown|, |f.bnkIndexes|, |f.wemIndexes|) + TotalSize(bnkData) + TotalSize(wemData)
  {
  }

  /** The output is the header and the index tables, then every BNK's data
      and every WEM's data in table order. */
  lemma WriteToLayout(f: File, s: seq<byte>)
    ensures var w := WriteTo(f, s);
      var start := DataAreaStart(|f.header.unknown|, |f.bnkIndexes|, |f.wemIndexes|);
      && start <= |w.bytes|
      && w.bytes[..start] == EncodeContainer(f.header, f.bnkIndexes, f.wemIndexes)
      && w.bytes[start..] == Concat(Contents(f.bnks, s)) + Concat(Contents(f.wems, s))
  {
  }

  /** Whatever its data, a parsed package is written back with the header
      and tables it was read from: the output agrees with the source up to
      the data-area start. */
  lemma WriteToKeepsPrefix(s: seq<byte>, u: nat)
    requires Parse.NewFile(s, u).Success?
    ensures var f := Parse.NewFile(s, u).value;
      var start := DataAreaStart(u, |f.bnkIndexes|, |f.wemIndexes|);
      && start <= |s| && start <= |WriteTo(f, s).bytes|
      && WriteTo(f, s).bytes[..start] == s[..start]
  {
    var f := Parse.NewFile(s, u).value;
    Parse.ParsedPrefix(s, u);
    Parse.NewFileOutcome(s, u);
    WriteToLayout(f, s);
  }

  /** Reading a written package back gives the same header and tables. */
  lemma WriteToParses(f: File, s: seq<byte>)
    requires |f.bnkIndexes| < 0x1_0000_0000 && |f.wemIndexes| < 0x1_0000_0000
    ensures Parse.NewFile(WriteTo(f, s).bytes, |f.header.unknown|)
      == Success(Parse.MakeFile(f.header, f.bnkIndexes, f.wemIndexes))
  {
    var w := WriteTo(f, s);
    var start := DataAreaStart(|f.header.unknown|, |f.bnkIndexes|, |f.wemIndexes|);
    WriteToLayout(f, s);
    assert w.bytes == EncodeContainer(f.header, f.bnkIndexes, f.wemIndexes) + w.bytes[start..];
    Parse.ParseEncoded(f.header, f.bnkIndexes, f.wemIndexes, w.bytes[start..]);
  }

  /** Views that read exactly the records' ranges, one view per record. */
  ghost predicate Covers(vs: seq<EmbeddedFile>, xs: seq<FileIndex>) {
    && |vs| == |xs|
    && forall i :: 0 <= i < |xs| ==> vs[i].section == Section(xs[i].offset, xs[i].length)
  }

  lemma ViewsCover(xs: seq<FileIndex>, kind: Kind)
    ensures Covers(Views(xs, kind), xs)
  {
  }

  lemma ContentsTail(vs: seq<EmbeddedFile>, s: seq<byte>)
    requires |vs| > 0
    ensures Concat(Contents(vs, s)) == SectionBytes(s, vs[0].section) + Concat(Contents(vs[1..], s))
  {
    assert Contents(vs, s)[1..] == Contents(vs[1..], s);
  }

  lemma SectionInside(s: seq<byte>, sec: Section)
    requires sec.start + sec.size <= |s|
    ensures SectionBytes(s, sec) == s[sec.start .. sec.start + sec.size]
  {
  }

  /** Views of records laid out back to back from `start` read, in order,
      exactly the source bytes they cover. */
  lemma {:induction false} ConcatAdjacent(vs: seq<EmbeddedFile>, xs: seq<FileIndex>, start: nat, end: nat, s: seq<byte>)
    requires Covers(vs, xs)
    requires AdjacentFrom(xs, start)
    requires end == start + SumLengths(xs) <= |s|
    ensures Concat(Contents(vs, s)) == s[start .. end]
    decreases |xs|
  {
    if |xs| > 0 {
      var len := xs[0].length;
      assert SumLengths(xs) == len + SumLengths(xs[1..]);
      AdjacentTail(xs, start);
      assert Covers(vs[1..], xs[1..]);
      ConcatAdjacent(vs[1..], xs[1..], start + len, end, s);
      ConcatStep(vs, s, start, len, end);
    }
  }

  /** The first view's bytes followed by the rest's, when the first view
      reads the range just before theirs. */
  lemma ConcatStep(vs: seq<EmbeddedFile>, s: seq<byte>, start: nat, len: nat, end: nat)
    requires |vs| > 0 && vs[0].section == Section(start, len)
    requires start + len <= end <= |s|
    requires Concat(Contents(vs[1..], s)) == s[start + len .. end]
    ensures Concat(Contents(vs, s)) == s[start .. end]
  {
    ContentsTail(vs, s);
    SectionInside(s, Section(start, len));
    JoinSlices(s, start, start + len, end, SectionBytes(s, Section(start, len)), Concat(Contents(vs[1..], s)));
  }

  /** The data of a consistent file laid out back to back from `start` to
      the end of the source is the source from `start` on. */
  lemma DataRoundTrip(f: File, s: seq<byte>, start: nat)
    requires Consistent(f)
    requires ContiguousFrom(f.bnkIndexes + f.wemIndexes, start)
    requires start + SumLengths(f.bnkIndexes + f.wemIndexes) == |s|
    ensures Concat(Contents(f.bnks, s)) + Concat(Contents(f.wems, s)) == s[start..]
  {
    AdjacentHalves(f.bnkIndexes, f.wemIndexes, start);
    ViewsCover(f.bnkIndexes, Bnk);
    ViewsCover(f.wemIndexes, Wem);
    TablesData(f.bnks, f.bnkIndexes, f.wems, f.wemIndexes, start, s);
  }

  /** Two tables of views laid out back to back, the second from where the
      first ends, read the source from `start` to its end. */
  lemma TablesData(bnkViews: seq<EmbeddedFile>, bnk: seq<FileIndex>, wemViews: seq<EmbeddedFile>, wem: seq<FileIndex>,
                   start: nat, s: seq<byte>)
    requires Covers(bnkViews, bnk) && Covers(wemViews, wem)
    requires AdjacentFrom(bnk, start) && AdjacentFrom(wem, start + SumLengths(bnk))
    requires start + SumLengths(bnk) + SumLengths(wem) == |s|
    ensures Concat(Contents(bnkViews, s)) + Concat(Contents(wemViews, s)) == s[start..]
  {
    var mid := start + SumLengths(bnk);
    var bnkData := Concat(Contents(bnkViews, s));
    var wemData := Concat(Contents(wemViews, s));
    assert bnkData == s[start .. mid] by {
      ConcatAdjacent(bnkViews, bnk, start, mid, s);
    }
    assert wemData == s[mid .. |s|] by {
      ConcatAdjacent(wemViews, wem, mid, |s|, s);
    }
    JoinSlices(s, start, mid, |s|, bnkData, wemData);
  }

  /** Both tables of a joint contiguous run are laid out back to back, the
      WEMs from where the BNKs end. */
  lemma AdjacentHalves(a: seq<FileIndex>, b: seq<FileIndex>, start: nat)
    requires ContiguousFrom(a + b, start)
    ensures AdjacentFrom(a, start) && AdjacentFrom(b, start + SumLengths(a))
    ensures SumLengths(a + b) == SumLengths(a) + SumLengths(b)
  {
    SumLengthsAppend(a, b);
    ContiguousSplit(a, b, start);
    ContiguousIffAdjacent(a, start);
    ContiguousIffAdjacent(b, start + SumLengths(a));
  }

  lemma JoinSlices(s: seq<byte>, start: nat, mid: nat, end: nat, a: seq<byte>, b: seq<byte>)
    requires start <= mid <= end <= |s|
    requires a == s[start .. mid] && b == s[mid .. end]
    ensures a + b == s[start .. end]
    ensures end == |s| ==> a + b == s[start..]
  {
    SliceSplitAt(s, start, mid, end);
  }

  /** A parsed package whose data runs back to back up to its end is
      written back byte for byte, and the count is its size. */
  lemma WriteToRoundTrip(s: seq<byte>, u: nat)
    requires Parse.NewFile(s, u).Success?
    requires DataLaidOut(Parse.NewFile(s, u).value, s)
    ensures WriteTo(Parse.NewFile(s, u).value, s) == Written(s, |s|)
  {
    var f := Parse.NewFile(s, u).value;
    Parse.ParsedPrefix(s, u);
    Parse.NewFileOutcome(s, u);
    var start := DataAreaStart(u, |f.bnkIndexes|, |f.wemIndexes|);
    DataRoundTrip(f, s, start);
    WriteToLayout(f, s);
    Reassemble(WriteTo(f, s).bytes, s, start);
  }

  lemma Reassemble(a: seq<byte>, b: seq<byte>, k: nat)
    requires k <= |a| && k <= |b|
    requires a[..k] == b[..k] && a[k..] == b[k..]
    ensures a == b
  {
    assert a == a[..k] + a[k..];
    assert b == b[..k] + b[k..];
  }
  /** Records whose lengths are the sizes of some blocks sum to the blocks'
      total size. */
  lemma {:induction false} SumLengthsOfBlocks(xs: seq<FileIndex>, blocks: seq<seq<byte>>)
    requires |xs| == |blocks|
    requires forall i :: 0 <= i < |xs| ==> xs[i].length == |blocks[i]|
    ensures SumLengths(xs) == TotalSize(blocks)
  {
    if |xs| > 0 {
      SumLengthsOfBlocks(xs[1..], blocks[1..]);
    }
  }

  /** Where blocks are written back to back from `start`, a record laid out
      contiguously from `start` with the size of block `k` reads exactly
      block `k`. */
  lemma SectionOfBlock(out: seq<byte>, start: nat, xs: seq<FileIndex>, blocks: seq<seq<byte>>, k: nat)
    requires |xs| == |blocks| && k < |xs|
    requires forall i :: 0 <= i < |xs| ==> xs[i].length == |blocks[i]|
    requires ContiguousFrom(xs, start)
    requires start <= |out| && out[start..] == Concat(blocks)
    ensures SectionBytes(out, Section(xs[k].offset, xs[k].length)) == blocks[k]
  {
    var before := TotalSize(blocks[..k]);
    BlockOffset(start, xs, blocks, k);
    ConcatBlockAt(blocks, k);
    BlockInOutput(out, start, Concat(blocks), before, blocks[k]);
    assert Section(xs[k].offset, xs[k].length) == Section(start + before, |blocks[k]|);
  }

  lemma BlockOffset(start: nat, xs: seq<FileIndex>, blocks: seq<seq<byte>>, k: nat)
    requires |xs| == |blocks| && k < |xs|
    requires forall i :: 0 <= i < |xs| ==> xs[i].length == |blocks[i]|
    requires ContiguousFrom(xs, start)
    ensures xs[k].offset == start + TotalSize(blocks[..k])
    ensures xs[k].length == |blocks[k]|
  {
    assert forall i :: 0 <= i < k ==> xs[..k][i].length == |blocks[..k][i]|;
    SumLengthsOfBlocks(xs[..k], blocks[..k]);
  }

  lemma BlockInOutput(out: seq<byte>, start: nat, c: seq<byte>, before: nat, block: seq<byte>)
    requires start <= |out| && out[start..] == c
    requires before + |block| <= |c| && c[before .. before + |block|] == block
    ensures SectionBytes(out, Section(start + before, |block|)) == block
  {
    assert out[start + before .. start + before + |block|] == c[before .. before + |block|];
  }

  /** Records laid out contiguously from `start` within the source lie
      inside it. */
  lemma ContiguousInRange(xs: seq<FileIndex>, start: nat, s: seq<byte>)
    requires ContiguousFrom(xs, start)
    requires start + SumLengths(xs) <= |s|
    ensures InRange(xs, s)
  {
    forall k | 0 <= k < |xs|
      ensures xs[k].offset + xs[k].length <= |s|
    {
      ContiguousEndAt(xs, start, k);
    }
  }

  /** A record of a contiguous run ends no later than the run does. */
  lemma ContiguousEndAt(xs: seq<FileIndex>, start: nat, k: nat)
    requires k < |xs|
    requires xs[k].offset == start + SumLengths(xs[..k])
    ensures xs[k].offset + xs[k].length <= start + SumLengths(xs)
  {
    SumLengthsSnoc(xs, k);
    SumLengthsPrefix(xs, k + 1);
  }
}
