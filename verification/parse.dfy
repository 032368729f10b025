/** Reading a package: the file-name rule that sizes the opaque header
    region, and the sequential parse of header, BNK table and WEM table that
    ends with one lazy view per index record. */
module Parse {
  import opened Bytes
  import opened Format

  /** Reads the identifier, the length field and `unknownSize` opaque bytes. */
  function ParseHeader(s: seq<byte>, unknownSize: nat): (r: Result<Header>)
    ensures r.Success? <==> 8 + unknownSize <= |s|
    ensures |s| < 4 ==> r == Failure(ShortRead(IdentifierBytes))
    ensures 4 <= |s| < 8 ==> r == Failure(ShortRead(LengthField))
    ensures 8 <= |s| < 8 + unknownSize ==> r == Failure(ShortRead(UnknownRegion))
    ensures r.Success? ==> |r.value.unknown| == unknownSize
  {
    if |s| < 4 then Failure(ShortRead(IdentifierBytes))
    else if |s| < 8 then Failure(ShortRead(LengthField))
    else if |s| < 8 + unknownSize then Failure(ShortRead(UnknownRegion))
    else Success(Header(s[..4], DecodeU32(s[4..8]), s[8 .. 8 + unknownSize]))
  }

  /** Reads `n` consecutive 24-byte records starting at `pos`; `first` is the
      table position of the first of them, used to name a short record. */
  function ParseRecords(s: seq<byte>, pos: nat, n: nat, kind: Kind, first: nat): (r: Result<seq<FileIndex>>)
    requires pos <= |s|
    ensures r.Success? <==> pos + 24 * n <= |s|
    ensures r.Success? ==> |r.value| == n
    ensures r.Failure? ==> r.error.ShortRead?
    decreases n
  {
    if n == 0 then Success([])
    else if |s| - pos < 24 then Failure(ShortRead(TableRecord(kind, first)))
    else
      var rest :- ParseRecords(s, pos + 24, n - 1, kind, first + 1);
      Success([DecodeIndex(s[pos .. pos + 24])] + rest)
  }

  /** Reads one table: a `uint32` count, then that many records. */
  function ReadTable(s: seq<byte>, pos: nat, kind: Kind): (r: Result<seq<FileIndex>>)
    requires pos <= |s|
    ensures r.Success? ==> pos + 4 + 24 * |r.value| <= |s|
    ensures |s| < pos + 4 ==> r == Failure(ShortRead(TableCount(kind)))
  {
    if |s| - pos < 4 then Failure(ShortRead(TableCount(kind)))
    else ParseRecords(s, pos + 4, DecodeU32(s[pos .. pos + 4]), kind, 0)
  }

  /** The layout a byte sequence announces through its own counts fits in it. */
  ghost predicate LayoutFits(s: seq<byte>, unknownSize: nat) {
    && 12 + unknownSize <= |s|
    && var bnkEnd := 12 + unknownSize + 24 * DecodeU32(s[8 + unknownSize .. 12 + unknownSize]);
    && bnkEnd + 4 <= |s|
    && bnkEnd + 4 + 24 * DecodeU32(s[bnkEnd .. bnkEnd + 4]) <= |s|
  }

  /** The file a parse builds from a header and two tables: one view per
      record, in table order. */
  function MakeFile(h: Header, bnk: seq<FileIndex>, wem: seq<FileIndex>): File {
    File(h, bnk, wem, Views(bnk, Bnk), Views(wem, Wem))
  }

  /** Parses a package whose opaque header region has `unknownSize` bytes. */
  function NewFile(s: seq<byte>, unknownSize: nat): (r: Result<File>)
    ensures r.Success? ==> r.value == MakeFile(r.value.header, r.value.bnkIndexes, r.value.wemIndexes)
  {
    var header :- ParseHeader(s, unknownSize);
    var bnkIndexes :- ReadTable(s, 8 + unknownSize, Bnk);
    var wemIndexes :- ReadTable(s, 12 + unknownSize + 24 * |bnkIndexes|, Wem);
    Success(MakeFile(header, bnkIndexes, wemIndexes))
  }

  /** The first short record of a run is the one the bytes run out in. */
  lemma {:induction false} ParseRecordsShort(s: seq<byte>, pos: nat, n: nat, kind: Kind, first: nat)
    requires pos <= |s|
    requires |s| < pos + 24 * n
    ensures ParseRecords(s, pos, n, kind, first) == Failure(ShortRead(TableRecord(kind, first + (|s| - pos) / 24)))
    decreases n
  {
    if |s| - pos >= 24 {
      ParseRecordsShort(s, pos + 24, n - 1, kind, first + 1);
      assert (|s| - pos) / 24 == 1 + (|s| - (pos + 24)) / 24;
    }
  }

  /** A parse succeeds exactly when the layout fits; every failure is a
      short read, and it names the element the bytes run out in: a header
      field, a table count, or the first record that is cut short. */
  lemma NewFileOutcome(s: seq<byte>, u: nat)
    ensures NewFile(s, u).Success? <==> LayoutFits(s, u)
    ensures NewFile(s, u).Failure? ==> NewFile(s, u).error.ShortRead?
    ensures |s| < 4 ==> NewFile(s, u) == Failure(ShortRead(IdentifierBytes))
    ensures 4 <= |s| < 8 ==> NewFile(s, u) == Failure(ShortRead(LengthField))
    ensures 8 <= |s| < 8 + u ==> NewFile(s, u) == Failure(ShortRead(UnknownRegion))
    ensures 8 + u <= |s| < 12 + u ==> NewFile(s, u) == Failure(ShortRead(TableCount(Bnk)))
    ensures 12 + u <= |s| < 12 + u + 24 * DecodeU32(s[8 + u .. 12 + u]) ==>
      NewFile(s, u) == Failure(ShortRead(TableRecord(Bnk, (|s| - (12 + u)) / 24)))
    ensures 12 + u <= |s| ==>
      var wemAt := 12 + u + 24 * DecodeU32(s[8 + u .. 12 + u]);
      && (wemAt <= |s| < wemAt + 4 ==> NewFile(s, u) == Failure(ShortRead(TableCount(Wem))))
      && (wemAt + 4 <= |s| < wemAt + 4 + 24 * DecodeU32(s[wemAt .. wemAt + 4]) ==>
            NewFile(s, u) == Failure(ShortRead(TableRecord(Wem, (|s| - (wemAt + 4)) / 24))))
    ensures NewFile(s, u).Success? ==>
      && |NewFile(s, u).value.header.unknown| == u
      && |NewFile(s, u).value.bnkIndexes| == DecodeU32(s[8 + u .. 12 + u])
  {
    if 12 + u <= |s| {
      var bnkCount: nat := DecodeU32(s[8 + u .. 12 + u]);
      var wemAt := 12 + u + 24 * bnkCount;
      if |s| < wemAt {
        ParseRecordsShort(s, 12 + u, bnkCount, Bnk, 0);
      } else if wemAt + 4 <= |s| {
        var wemCount: nat := DecodeU32(s[wemAt .. wemAt + 4]);
        if |s| < wemAt + 4 + 24 * wemCount {
          ParseRecordsShort(s, wemAt + 4, wemCount, Wem, 0);
        }
      }
    }
  }

  function LowerAscii(c: char): char {
    if 'A' <= c <= 'Z' then (c as int + 32) as char else c
  }

  /** `strings.ToLower`, on the ASCII letters. */
  function ToLower(s: string): (r: string)
    ensures |r| == |s|
    ensures forall i :: 0 <= i < |s| ==> r[i] == LowerAscii(s[i])
  {
    seq(|s|, i requires 0 <= i < |s| => LowerAscii(s[i]))
  }

  predicate HasSuffix(s: string, suffix: string) {
    |suffix| <= |s| && s[|s| - |suffix|..] == suffix
  }

  /** The size of the opaque header region, chosen from the file name. */
  function UnknownSize(path: string): Result<nat> {
    var lower := ToLower(path);
    if HasSuffix(lower, "sfx.pck") then Success(36)
    else if HasSuffix(lower, "english(us).pck") then Success(68)
    else Failure(UnsupportedFile)
  }

  /** Opens the package named `path` whose contents are `s`: an unsupported
      name fails before anything is read. */
  function Open(path: string, s: seq<byte>): (r: Result<File>)
    ensures r == Failure(UnsupportedFile) <==> UnknownSize(path).Failure?
    ensures UnknownSize(path).Success? ==> r == NewFile(s, UnknownSize(path).value)
  {
    var size :- UnknownSize(path);
    NewFile(s, size)
  }

  lemma SuffixChar(s: string, suffix: string, k: nat)
    requires k < |suffix|
    ensures HasSuffix(s, suffix) ==> s[|s| - |suffix| + k] == suffix[k]
  {
  }

  /** The suffix rule: 36 bytes for `sfx.pck`, 68 for `english(us).pck`,
      anything else unsupported. No name has both suffixes, so the order of
      the two tests never matters. */
  lemma UnknownSizeRule(path: string)
    ensures !(HasSuffix(ToLower(path), "sfx.pck") && HasSuffix(ToLower(path), "english(us).pck"))
    ensures UnknownSize(path) == Success(36) <==> HasSuffix(ToLower(path), "sfx.pck")
    ensures UnknownSize(path) == Success(68) <==> HasSuffix(ToLower(path), "english(us).pck")
    ensures UnknownSize(path).Failure? <==>
      !HasSuffix(ToLower(path), "sfx.pck") && !HasSuffix(ToLower(path), "english(us).pck")
  {
    var lower := ToLower(path);
    SuffixChar(lower, "sfx.pck", 0);
    SuffixChar(lower, "english(us).pck", 8);
  }

  /** The rule ignores the case of ASCII letters in the name. */
  lemma UnknownSizeIgnoresCase(path: string)
    ensures UnknownSize(ToLower(path)) == UnknownSize(path)
  {
    assert ToLower(ToLower(path)) == ToLower(path);
  }

  /** Bytes that begin with an encoded header read back as that header. */
  lemma HeaderEncoded(s: seq<byte>, h: Header)
    requires 8 + |h.unknown| <= |s|
    requires s[..8 + |h.unknown|] == EncodeHeader(h)
    ensures ParseHeader(s, |h.unknown|) == Success(h)
  {
    var p := s[..8 + |h.unknown|];
    assert s[..4] == p[..4] == h.identifier;
    assert s[4..8] == p[4..8] == EncodeU32(h.headerAndIndexesLength);
    assert s[8 .. 8 + |h.unknown|] == p[8..] == h.unknown;
    DecodeEncodeU32(h.headerAndIndexesLength);
  }

  /** A header that was read writes back as the bytes it was read from. */
  lemma HeaderConsumed(s: seq<byte>, u: nat)
    requires ParseHeader(s, u).Success?
    ensures EncodeHeader(ParseHeader(s, u).value) == s[..8 + u]
  {
    EncodeDecodeU32(s[4..8]);
    assert s[..8 + u] == s[..4] + s[4..8] + s[8 .. 8 + u];
  }

  /** Record `i` of a parsed run is decoded from the `i`-th 24-byte chunk. */
  lemma {:induction false} ParsedRecordAt(s: seq<byte>, pos: nat, n: nat, kind: Kind, first: nat, i: nat)
    requires pos <= |s|
    requires ParseRecords(s, pos, n, kind, first).Success?
    requires i < n
    ensures ParseRecords(s, pos, n, kind, first).value[i] == DecodeIndex(s[pos + 24 * i .. pos + 24 * i + 24])
    decreases n
  {
    if i > 0 {
      ParsedRecordAt(s, pos + 24, n - 1, kind, first + 1, i - 1);
    }
  }

  /** Records read from bytes that hold an encoded table are that table. */
  lemma {:induction false} ParseRecordsEncoded(s: seq<byte>, pos: nat, xs: seq<FileIndex>, kind: Kind, first: nat)
    requires pos + 24 * |xs| <= |s|
    requires s[pos .. pos + 24 * |xs|] == EncodeTable(xs)
    ensures ParseRecords(s, pos, |xs|, kind, first) == Success(xs)
    decreases |xs|
  {
    if |xs| > 0 {
      var t := s[pos .. pos + 24 * |xs|];
      assert t == EncodeIndex(xs[0]) + EncodeTable(xs[1..]);
      assert s[pos .. pos + 24] == t[..24];
      assert s[pos + 24 .. pos + 24 + 24 * |xs[1..]|] == t[24..];
      ParseRecordsEncoded(s, pos + 24, xs[1..], kind, first + 1);
      DecodeEncodeIndex(xs[0]);
      assert xs == [xs[0]] + xs[1..];
    }
  }

  /** Records read from bytes, encoded again, are those bytes. */
  lemma {:induction false} ParseRecordsEncodes(s: seq<byte>, pos: nat, n: nat, kind: Kind, first: nat)
    requires pos <= |s|
    requires ParseRecords(s, pos, n, kind, first).Success?
    ensures EncodeTable(ParseRecords(s, pos, n, kind, first).value) == s[pos .. pos + 24 * n]
    decreases n
  {
    if n > 0 {
      var xs := ParseRecords(s, pos, n, kind, first).value;
      ParseRecordsEncodes(s, pos + 24, n - 1, kind, first + 1);
      EncodeDecodeIndex(s[pos .. pos + 24]);
      assert xs[1..] == ParseRecords(s, pos + 24, n - 1, kind, first + 1).value;
      assert s[pos .. pos + 24 * n] == s[pos .. pos + 24] + s[pos + 24 .. pos + 24 * n];
    }
  }

  /** A table read from bytes that hold its encoded count and records. */
  lemma ReadTableEncoded(s: seq<byte>, pos: nat, xs: seq<FileIndex>, kind: Kind)
    requires |xs| < 0x1_0000_0000
    requires pos + 4 + 24 * |xs| <= |s|
    requires s[pos .. pos + 4 + 24 * |xs|] == EncodeCountedTable(xs)
    ensures ReadTable(s, pos, kind) == Success(xs)
  {
    var t := s[pos .. pos + 4 + 24 * |xs|];
    assert s[pos .. pos + 4] == t[..4] == EncodeU32(|xs|);
    assert s[pos + 4 .. pos + 4 + 24 * |xs|] == t[4..] == EncodeTable(xs);
    DecodeEncodeU32(|xs|);
    ParseRecordsEncoded(s, pos + 4, xs, kind, 0);
  }

  /** A table that was read writes back as the bytes it was read from. */
  lemma ReadTableConsumed(s: seq<byte>, pos: nat, kind: Kind)
    requires pos <= |s|
    requires ReadTable(s, pos, kind).Success?
    ensures |ReadTable(s, pos, kind).value| < 0x1_0000_0000
    ensures var xs := ReadTable(s, pos, kind).value;
      EncodeCountedTable(xs) == s[pos .. pos + 4 + 24 * |xs|]
  {
    var xs := ReadTable(s, pos, kind).value;
    var n: nat := DecodeU32(s[pos .. pos + 4]);
    ParseRecordsEncodes(s, pos + 4, n, kind, 0);
    EncodeDecodeU32(s[pos .. pos + 4]);
    assert s[pos .. pos + 4 + 24 * n] == s[pos .. pos + 4] + s[pos + 4 .. pos + 4 + 24 * n];
  }

  /** Bytes that hold an encoded header and two encoded tables at the
      places a parse looks for them parse as that header and those tables. */
  lemma ParseStaged(s: seq<byte>, h: Header, bnk: seq<FileIndex>, wem: seq<FileIndex>)
    requires |bnk| < 0x1_0000_0000 && |wem| < 0x1_0000_0000
    requires DataAreaStart(|h.unknown|, |bnk|, |wem|) <= |s|
    requires s[..8 + |h.unknown|] == EncodeHeader(h)
    requires s[8 + |h.unknown| .. 12 + |h.unknown| + 24 * |bnk|] == EncodeCountedTable(bnk)
    requires s[12 + |h.unknown| + 24 * |bnk| .. DataAreaStart(|h.unknown|, |bnk|, |wem|)] == EncodeCountedTable(wem)
    ensures NewFile(s, |h.unknown|) == Success(MakeFile(h, bnk, wem))
  {
    HeaderEncoded(s, h);
    ReadTableEncoded(s, 8 + |h.unknown|, bnk, Bnk);
    ReadTableEncoded(s, 12 + |h.unknown| + 24 * |bnk|, wem, Wem);
    StagesParse(s, |h.unknown|, h, bnk, wem);
  }

  /** Three successful stages make a successful parse of their results. */
  lemma StagesParse(s: seq<byte>, u: nat, h: Header, bnk: seq<FileIndex>, wem: seq<FileIndex>)
    requires ParseHeader(s, u) == Success(h)
    requires 8 + u <= |s| && ReadTable(s, 8 + u, Bnk) == Success(bnk)
    requires 12 + u + 24 * |bnk| <= |s| && ReadTable(s, 12 + u + 24 * |bnk|, Wem) == Success(wem)
    ensures NewFile(s, u) == Success(MakeFile(h, bnk, wem))
  {
  }

  /** Parsing the encoded header and tables gives them back, whatever
      follows them: the prefix half of the round trip. */
  lemma ParseEncoded(h: Header, bnk: seq<FileIndex>, wem: seq<FileIndex>, rest: seq<byte>)
    requires |bnk| < 0x1_0000_0000 && |wem| < 0x1_0000_0000
    ensures NewFile(EncodeContainer(h, bnk, wem) + rest, |h.unknown|) == Success(MakeFile(h, bnk, wem))
  {
    ThreeParts(EncodeHeader(h), EncodeCountedTable(bnk), EncodeCountedTable(wem), rest);
    ParseStaged(EncodeContainer(h, bnk, wem) + rest, h, bnk, wem);
  }

  /** The three stages of a successful parse, each with what it returned. */
  lemma NewFileStages(s: seq<byte>, u: nat)
    requires NewFile(s, u).Success?
    ensures var f := NewFile(s, u).value;
      var p1 := 12 + u + 24 * |f.bnkIndexes|;
      && ParseHeader(s, u) == Success(f.header)
      && 8 + u <= |s| && ReadTable(s, 8 + u, Bnk) == Success(f.bnkIndexes)
      && p1 <= |s| && ReadTable(s, p1, Wem) == Success(f.wemIndexes)
  {
  }

  lemma StagesPrefix(s: seq<byte>, u: nat, h: Header, bnk: seq<FileIndex>, wem: seq<FileIndex>)
    requires ParseHeader(s, u) == Success(h)
    requires 8 + u <= |s| && ReadTable(s, 8 + u, Bnk) == Success(bnk)
    requires 12 + u + 24 * |bnk| <= |s| && ReadTable(s, 12 + u + 24 * |bnk|, Wem) == Success(wem)
    ensures |bnk| < 0x1_0000_0000 && |wem| < 0x1_0000_0000
    ensures DataAreaStart(u, |bnk|, |wem|) <= |s|
    ensures EncodeContainer(h, bnk, wem) == s[..DataAreaStart(u, |bnk|, |wem|)]
  {
    var p1 := 12 + u + 24 * |bnk|;
    HeaderConsumed(s, u);
    ReadTableConsumed(s, 8 + u, Bnk);
    ReadTableConsumed(s, p1, Wem);
    PrefixOfThree(s, 8 + u, p1, p1 + 4 + 24 * |wem|, EncodeHeader(h), EncodeCountedTable(bnk), EncodeCountedTable(wem));
  }

  /** A successful parse consumed exactly the encoding of what it returned:
      header and tables written back reproduce the source's first
      `DataAreaStart` bytes. */
  lemma ParsedPrefix(s: seq<byte>, u: nat)
    requires NewFile(s, u).Success?
    ensures var f := NewFile(s, u).value;
      && |f.bnkIndexes| < 0x1_0000_0000 && |f.wemIndexes| < 0x1_0000_0000
      && DataAreaStart(u, |f.bnkIndexes|, |f.wemIndexes|) <= |s|
      && EncodeContainer(f.header, f.bnkIndexes, f.wemIndexes) == s[..DataAreaStart(u, |f.bnkIndexes|, |f.wemIndexes|)]
  {
    var f := NewFile(s, u).value;
    NewFileStages(s, u);
    StagesPrefix(s, u, f.header, f.bnkIndexes, f.wemIndexes);
  }

  lemma PrefixOfThree(s: seq<byte>, i: nat, j: nat, k: nat, a: seq<byte>, b: seq<byte>, c: seq<byte>)
    requires i <= j <= k <= |s|
    requires a == s[..i] && b == s[i..j] && c == s[j..k]
    ensures a + b + c == s[..k]
  {
    SliceSplit(s, j, k);
    SliceSplit(s, i, j);
  }

  lemma ThreeParts<T>(a: seq<T>, b: seq<T>, c: seq<T>, rest: seq<T>)
    ensures var s := a + b + c + rest;
      && s[..|a|] == a
      && s[|a| .. |a| + |b|] == b
      && s[|a| + |b| .. |a| + |b| + |c|] == c
  {
  }
}
