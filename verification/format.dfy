/** The entities of a Wwise file package of the hybrid BNK/WEM kind: header,
    24-byte index records, lazy views onto embedded files, and the byte
    layout of header plus both index tables. */
module Format {
  import opened Bytes
  import Decimal

  /** The four identifier bytes at the start of a package, kept verbatim. */
  type Identifier = s: seq<byte> | |s| == 4 witness [0, 0, 0, 0]

  /** The package header. `headerAndIndexesLength` counts the bytes from the
      end of that field to the end of the WEM index table; `unknown` is an
      opaque region whose size the file name decides. */
  datatype Header = Header(identifier: Identifier, headerAndIndexesLength: u32, unknown: seq<byte>)

  /** One 24-byte index record: six little-endian `uint32` fields in this
      order. `offset` is absolute from the start of the package. */
  datatype FileIndex = FileIndex(id: u32, fileType: u32, length: u32, unknown1: u32, offset: u32, unknown2: u32)

  /** The two kinds of embedded files, each with its own index table. */
  datatype Kind = Bnk | Wem {
    function Extension(): string {
      match this
      case Bnk => ".bnk"
      case Wem => ".wem"
    }
  }

  /** A byte range of the package, as `io.NewSectionReader(r, start, size)`. */
  datatype Section = Section(start: nat, size: nat)

  /** An embedded file: its index record, its name and the lazy view onto
      its bytes. */
  datatype EmbeddedFile = EmbeddedFile(index: FileIndex, name: string, section: Section)

  /** An open package. `bnks[i]` is the view described by `bnkIndexes[i]`,
      and likewise for WEM. The byte source itself is passed alongside. */
  datatype File = File(
    header: Header,
    bnkIndexes: seq<FileIndex>,
    wemIndexes: seq<FileIndex>,
    bnks: seq<EmbeddedFile>,
    wems: seq<EmbeddedFile>)

  /** The structural element a short read happened in. */
  datatype Field =
    | IdentifierBytes
    | LengthField
    | UnknownRegion
    | TableCount(kind: Kind)
    | TableRecord(kind: Kind, index: nat)

  datatype Error =
    | UnsupportedFile
    | ShortRead(field: Field)
    | ShortCopy(kind: Kind, id: u32)

  datatype Result<+T> = Success(value: T) | Failure(error: Error) {
    predicate IsFailure() {
      Failure?
    }

    function PropagateFailure<U>(): Result<U>
      requires Failure?
    {
      Failure(error)
    }

    function Extract(): T
      requires Success?
    {
      value
    }
  }

  /** The bytes a section reader yields: the part of the range that lies
      inside the source (a read past the end stops early). */
  function SectionBytes(s: seq<byte>, sec: Section): (r: seq<byte>)
    ensures |r| == if sec.start >= |s| then 0 else if sec.start + sec.size <= |s| then sec.size else |s| - sec.start
  {
    if sec.start >= |s| then []
    else if sec.start + sec.size <= |s| then s[sec.start .. sec.start + sec.size]
    else s[sec.start..]
  }

  /** The name of an embedded file, `"{ID}.bnk"` or `"{ID}.wem"`. */
  function Name(id: u32, kind: Kind): string {
    Decimal.FormatDecimal(id) + kind.Extension()
  }

  /** Names tell records of one kind apart exactly when their IDs differ. */
  lemma NameIdentifiesId(a: u32, b: u32, kind: Kind)
    ensures Name(a, kind) == Name(b, kind) <==> a == b
  {
    if Name(a, kind) == Name(b, kind) {
      var na := Decimal.FormatDecimal(a);
      var nb := Decimal.FormatDecimal(b);
      assert |na| == |nb|;
      assert na == Name(a, kind)[..|na|];
      assert nb == Name(b, kind)[..|nb|];
      Decimal.FormatInjective(a, b);
    }
  }

  /** The view built for one index record. */
  function View(x: FileIndex, kind: Kind): EmbeddedFile {
    EmbeddedFile(x, Name(x.id, kind), Section(x.offset, x.length))
  }

  function Views(xs: seq<FileIndex>, kind: Kind): (vs: seq<EmbeddedFile>)
    ensures |vs| == |xs|
    ensures forall i :: 0 <= i < |xs| ==> vs[i] == View(xs[i], kind)
  {
    seq(|xs|, i requires 0 <= i < |xs| => View(xs[i], kind))
  }

  function EncodeIndex(x: FileIndex): (b: seq<byte>)
    ensures |b| == 24
  {
    EncodeU32(x.id) + EncodeU32(x.fileType) + EncodeU32(x.length)
      + EncodeU32(x.unknown1) + EncodeU32(x.offset) + EncodeU32(x.unknown2)
  }

  /** Reads one record: six little-endian `uint32` fields. */
  function DecodeIndex(b: seq<byte>): FileIndex
    requires |b| == 24
  {
    FileIndex(DecodeU32(b[0..4]), DecodeU32(b[4..8]), DecodeU32(b[8..12]),
              DecodeU32(b[12..16]), DecodeU32(b[16..20]), DecodeU32(b[20..24]))
  }

  /** A record read from 24 bytes writes back as the same 24 bytes. */
  lemma EncodeDecodeIndex(b: seq<byte>)
    requires |b| == 24
    ensures EncodeIndex(DecodeIndex(b)) == b
  {
    EncodeDecodeU32(b[0..4]);
    EncodeDecodeU32(b[4..8]);
    EncodeDecodeU32(b[8..12]);
    EncodeDecodeU32(b[12..16]);
    EncodeDecodeU32(b[16..20]);
    EncodeDecodeU32(b[20..24]);
    assert b == b[0..4] + b[4..8] + b[8..12] + b[12..16] + b[16..20] + b[20..24];
  }

  lemma DecodeEncodeIndex(x: FileIndex)
    ensures DecodeIndex(EncodeIndex(x)) == x
  {
    FieldsAt(EncodeU32(x.id), EncodeU32(x.fileType), EncodeU32(x.length),
             EncodeU32(x.unknown1), EncodeU32(x.offset), EncodeU32(x.unknown2));
    DecodeEncodeU32(x.id);
    DecodeEncodeU32(x.fileType);
    DecodeEncodeU32(x.length);
    DecodeEncodeU32(x.unknown1);
    DecodeEncodeU32(x.offset);
    DecodeEncodeU32(x.unknown2);
  }

  lemma FieldsAt(a: seq<byte>, b: seq<byte>, c: seq<byte>, d: seq<byte>, e: seq<byte>, f: seq<byte>)
    requires |a| == |b| == |c| == |d| == |e| == |f| == 4
    ensures var r := a + b + c + d + e + f;
      && r[0..4] == a && r[4..8] == b && r[8..12] == c
      && r[12..16] == d && r[16..20] == e && r[20..24] == f
  {
  }

  /** An index table's records, back to back (the count is written apart). */
  function EncodeTable(xs: seq<FileIndex>): (b: seq<byte>)
    ensures |b| == 24 * |xs|
  {
    if |xs| == 0 then [] else EncodeIndex(xs[0]) + EncodeTable(xs[1..])
  }

  function EncodeHeader(h: Header): (b: seq<byte>)
    ensures |b| == 8 + |h.unknown|
  {
    h.identifier + EncodeU32(h.headerAndIndexesLength) + h.unknown
  }

  /** The offset at which embedded data begins: identifier, length field,
      opaque region, then each table's count and records. */
  function DataAreaStart(unknownSize: nat, bnkCount: nat, wemCount: nat): nat {
    4 + 4 + unknownSize + 4 + 24 * bnkCount + 4 + 24 * wemCount
  }

  /** One index table as written: its `uint32` count, then its records. */
  function EncodeCountedTable(xs: seq<FileIndex>): (b: seq<byte>)
    ensures |b| == 4 + 24 * |xs|
  {
    EncodeU32(Wrap32(|xs|)) + EncodeTable(xs)
  }

  /** Header and both index tables as written to a package. Its size is the
      data area start. */
  function EncodeContainer(h: Header, bnk: seq<FileIndex>, wem: seq<FileIndex>): (b: seq<byte>)
    ensures |b| == DataAreaStart(|h.unknown|, |bnk|, |wem|)
  {
    EncodeHeader(h) + EncodeCountedTable(bnk) + EncodeCountedTable(wem)
  }

  /** The sum of the records' lengths. */
  function SumLengths(xs: seq<FileIndex>): nat {
    if |xs| == 0 then 0 else xs[0].length + SumLengths(xs[1..])
  }

  lemma {:induction false} SumLengthsAppend(a: seq<FileIndex>, b: seq<FileIndex>)
    ensures SumLengths(a + b) == SumLengths(a) + SumLengths(b)
  {
    if |a| == 0 {
      assert a + b == b;
    } else {
      assert (a + b)[1..] == a[1..] + b;
      SumLengthsAppend(a[1..], b);
    }
  }

  lemma SumLengthsSnoc(xs: seq<FileIndex>, k: nat)
    requires k < |xs|
    ensures SumLengths(xs[..k + 1]) == SumLengths(xs[..k]) + xs[k].length
  {
    assert xs[..k + 1] == xs[..k] + [xs[k]];
    SumLengthsAppend(xs[..k], [xs[k]]);
    assert [xs[k]][1..] == [];
  }

  lemma SumLengthsPrefix(xs: seq<FileIndex>, k: nat)
    requires k <= |xs|
    ensures SumLengths(xs[..k]) + SumLengths(xs[k..]) == SumLengths(xs)
  {
    assert xs == xs[..k] + xs[k..];
    SumLengthsAppend(xs[..k], xs[k..]);
  }

  /** Records of equal lengths, index by index, have equal total length. */
  lemma {:induction false} SumLengthsSame(xs: seq<FileIndex>, ys: seq<FileIndex>)
    requires |xs| == |ys|
    requires forall i :: 0 <= i < |xs| ==> xs[i].length == ys[i].length
    ensures SumLengths(xs) == SumLengths(ys)
  {
    if |xs| > 0 {
      SumLengthsSame(xs[1..], ys[1..]);
    }
  }

  /** Offsets are exactly back to back from `start`: each record begins where
      the lengths of the records before it end. */
  ghost predicate ContiguousFrom(xs: seq<FileIndex>, start: int) {
    forall k :: 0 <= k < |xs| ==> xs[k].offset == start + SumLengths(xs[..k])
  }

  /** The same layout seen one neighbour at a time: the first record begins
      at `start`, and every record ends where the next begins. */
  ghost predicate AdjacentFrom(xs: seq<FileIndex>, start: int) {
    && (|xs| > 0 ==> xs[0].offset == start)
    && forall k :: 0 <= k < |xs| - 1 ==> xs[k].offset + xs[k].length == xs[k + 1].offset
  }

  /** Offsets as a running `uint32` cursor assigns them from `start`. */
  ghost predicate WrappedContiguousFrom(xs: seq<FileIndex>, start: int) {
    forall k :: 0 <= k < |xs| ==> xs[k].offset == Wrap32(start + SumLengths(xs[..k]))
  }

  /** A contiguous run split in two: each part is contiguous, the second
      from where the first ends. */
  lemma ContiguousSplit(a: seq<FileIndex>, b: seq<FileIndex>, start: int)
    requires ContiguousFrom(a + b, start)
    ensures ContiguousFrom(a, start)
    ensures ContiguousFrom(b, start + SumLengths(a))
  {
    forall k | 0 <= k < |a|
      ensures a[k].offset == start + SumLengths(a[..k])
    {
      assert (a + b)[..k] == a[..k];
    }
    forall k | 0 <= k < |b|
      ensures b[k].offset == start + SumLengths(a) + SumLengths(b[..k])
    {
      assert (a + b)[..|a| + k] == a + b[..k];
      assert (a + b)[|a| + k] == b[k];
      SumLengthsAppend(a, b[..k]);
    }
  }

  lemma AdjacentTail(xs: seq<FileIndex>, start: int)
    requires AdjacentFrom(xs, start) && |xs| > 0
    ensures AdjacentFrom(xs[1..], start + xs[0].length)
  {
  }

  lemma {:induction false} AdjacentPrefix(xs: seq<FileIndex>, start: int, k: nat)
    requires AdjacentFrom(xs, start)
    requires k < |xs|
    ensures xs[k].offset == start + SumLengths(xs[..k])
  {
    if k == 0 {
      assert xs[..0] == [];
    } else {
      AdjacentPrefix(xs, start, k - 1);
      SumLengthsSnoc(xs, k - 1);
    }
  }

  lemma ContiguousIffAdjacent(xs: seq<FileIndex>, start: int)
    ensures ContiguousFrom(xs, start) <==> AdjacentFrom(xs, start)
  {
    if ContiguousFrom(xs, start) {
      if |xs| > 0 {
        assert xs[..0] == [];
      }
      forall k | 0 <= k < |xs| - 1
        ensures xs[k].offset + xs[k].length == xs[k + 1].offset
      {
        SumLengthsSnoc(xs, k);
      }
    }
    if AdjacentFrom(xs, start) {
      forall k | 0 <= k < |xs|
        ensures xs[k].offset == start + SumLengths(xs[..k])
      {
        AdjacentPrefix(xs, start, k);
      }
    }
  }

  lemma WrapBelow(xs: seq<FileIndex>, start: nat, k: nat)
    requires start + SumLengths(xs) < 0x1_0000_0000
    requires k <= |xs|
    ensures Wrap32(start + SumLengths(xs[..k])) == start + SumLengths(xs[..k])
  {
    SumLengthsPrefix(xs, k);
  }

  lemma WrappedToExact(xs: seq<FileIndex>, start: nat)
    requires start + SumLengths(xs) < 0x1_0000_0000
    requires WrappedContiguousFrom(xs, start)
    ensures ContiguousFrom(xs, start)
  {
    forall k | 0 <= k < |xs|
      ensures xs[k].offset == start + SumLengths(xs[..k])
    {
      WrapBelow(xs, start, k);
    }
  }

  lemma ExactToWrapped(xs: seq<FileIndex>, start: nat)
    requires start + SumLengths(xs) < 0x1_0000_0000
    requires ContiguousFrom(xs, start)
    ensures WrappedContiguousFrom(xs, start)
  {
    forall k | 0 <= k < |xs|
      ensures xs[k].offset == Wrap32(start + SumLengths(xs[..k]))
    {
      WrapBelow(xs, start, k);
    }
  }

  /** When the whole run stays below 2^32 the `uint32` cursor never wraps. */
  lemma WrappedIsExact(xs: seq<FileIndex>, start: nat)
    requires start + SumLengths(xs) < 0x1_0000_0000
    ensures WrappedContiguousFrom(xs, start) <==> ContiguousFrom(xs, start)
  {
    if WrappedContiguousFrom(xs, start) {
      WrappedToExact(xs, start);
    }
    if ContiguousFrom(xs, start) {
      ExactToWrapped(xs, start);
    }
  }
}
