/** The top-level walk of findExtraBytes and the classification of what it
    leaves over. `Walk` follows the source loop branch for branch; `Run`
    and `Classify` describe the same outcome declaratively: the longest
    run of well-formed chunks from offset 0 fixes the result. */
module Scanner {
  import opened Wrappers
  import opened Bytes
  import opened Formats
  import opened ChunkHeader

  /** One entry of the chunk inventory. */
  datatype Chunk = Chunk(offset: nat, length: nat, chunkType: ChunkType)

  datatype ScanResult = ScanResult(
    fileType: Format,
    fileSize: nat,
    extraBytes: nat,
    isClean: bool,
    falsePositive: bool,
    chunks: seq<Chunk>)

  /** The result object as findExtraBytes creates it, before the loop. */
  function Initial(fmt: Format, fileSize: nat): ScanResult {
    ScanResult(fmt, fileSize, 0, true, false, [])
  }

  /** No break has been taken yet: only the inventory has grown. */
  predicate Unclassified(result: ScanResult) {
    result.extraBytes == 0 && result.isClean && !result.falsePositive
  }

  /** What the loop sees of a file: its format, its size, and the header
      it reads and decodes at each offset. */
  datatype FileView = FileView(fileType: Format, fileSize: nat, header: nat -> Header)

  /** The view of the bytes f scanned as format fmt: every header is a
      zero-filled read of ChunkMin(fmt) bytes decoded by decodeChunkTypeLength. */
  function ViewOf(fmt: Format, f: seq<byte>): (v: FileView)
    ensures v.fileType == fmt && v.fileSize == |f|
    ensures forall pos: nat :: v.header(pos) == HeaderAt(fmt, f, pos)
  {
    FileView(fmt, |f|, (pos: nat) => HeaderAt(fmt, f, pos))
  }

  /** The inventory entry the walker records for the header read at pos. */
  function ChunkAt(v: FileView, pos: nat): Chunk {
    Chunk(pos, v.header(pos).chunkLength, v.header(pos).chunkType)
  }

  /** The header at pos can be read and its declared length passes both
      tests of the loop: at least ChunkMin and no more than what is left. */
  predicate Accepts(v: FileView, pos: nat) {
    && pos + ChunkMin(v.fileType) <= v.fileSize
    && ChunkMin(v.fileType) <= v.header(pos).chunkLength <= v.fileSize - pos
  }

  /** The loop of findExtraBytes from position pos, result being the
      result object so far. The `chunkLength == 0` break is kept although
      a zero length has already failed the `< ChunkMin` test. */
  function Walk(v: FileView, pos: nat, result: ScanResult): (r: ScanResult)
    requires pos <= v.fileSize
    requires result.fileType == v.fileType && result.fileSize == v.fileSize && Unclassified(result)
    ensures r.fileType == v.fileType && r.fileSize == v.fileSize
    ensures r.isClean <==> r.extraBytes == 0
    ensures r.extraBytes <= MaxExtraBytes && r.extraBytes <= v.fileSize - pos
    ensures r.falsePositive ==> r.isClean
    decreases v.fileSize - pos
  {
    if pos >= v.fileSize then result
    else
      var remainingBytes := v.fileSize - pos;
      if remainingBytes < ChunkMin(v.fileType) then
        result.(extraBytes := remainingBytes, isClean := false)
      else
        var h := v.header(pos);
        var result := result.(chunks := result.chunks + [Chunk(pos, h.chunkLength, h.chunkType)]);
        if h.chunkLength < ChunkMin(v.fileType) || h.chunkLength > remainingBytes then
          if remainingBytes > MaxExtraBytes then result.(falsePositive := true)
          else result.(extraBytes := remainingBytes, isClean := false)
        else if h.chunkLength == 0 then result
        else Walk(v, pos + h.chunkLength, result)
  }

  /** findExtraBytes: sniff the format, then walk from offset 0. A large
      unparsed tail sets falsePositive and leaves isClean true. */
  function FindExtraBytes(f: seq<byte>): (r: Result<ScanResult, CleanerError>)
    ensures r.Failure? <==> GetFileType(f).Failure?
    ensures r.Failure? ==> r.error == UnsupportedFileType
    ensures r.Success? ==>
      && r.value.fileType == GetFileType(f).value
      && r.value.fileSize == |f|
      && (r.value.isClean <==> r.value.extraBytes == 0)
      && r.value.extraBytes <= MaxExtraBytes
      && (r.value.falsePositive ==> r.value.isClean && r.value.extraBytes == 0)
  {
    var fileType :- GetFileType(f);
    Success(Walk(ViewOf(fileType, f), 0, Initial(fileType, |f|)))
  }

  /** cs is a run of accepted chunks, each where the previous one ends,
      covering exactly [start, end). */
  predicate Run(v: FileView, cs: seq<Chunk>, start: nat, end: nat)
    decreases |cs|
  {
    if |cs| == 0 then start == end
    else
      && Accepts(v, start)
      && cs[0] == ChunkAt(v, start)
      && Run(v, cs[1..], start + cs[0].length, end)
  }

  /** A run ending at end cannot be extended: the file ends there, or the
      header there is short, unreadable or self-contradictory. */
  predicate Maximal(v: FileView, end: nat) {
    end == v.fileSize || !Accepts(v, end)
  }

  /** The boundary classifier: what the scan reports when the longest run
      of well-formed chunks is cs and ends at end. */
  function Classify(v: FileView, cs: seq<Chunk>, end: nat): (r: ScanResult)
    requires end <= v.fileSize
  {
    var remaining := v.fileSize - end;
    var clean := Initial(v.fileType, v.fileSize).(chunks := cs);
    if remaining == 0 then clean
    else if remaining < ChunkMin(v.fileType) then clean.(extraBytes := remaining, isClean := false)
    else
      var stopped := clean.(chunks := cs + [ChunkAt(v, end)]);
      if remaining > MaxExtraBytes then stopped.(falsePositive := true)
      else stopped.(extraBytes := remaining, isClean := false)
  }

  /** The shape of a run: it starts at start, every chunk starts where its
      predecessor ends, every chunk was accepted where it lies, and the run
      stays inside the file. */
  lemma {:induction false} RunFacts(v: FileView, cs: seq<Chunk>, start: nat, end: nat)
    requires start <= v.fileSize && Run(v, cs, start, end)
    ensures start <= end <= v.fileSize
    ensures |cs| > 0 ==> cs[0].offset == start && cs[|cs| - 1].offset + cs[|cs| - 1].length == end
    ensures forall i :: 0 <= i < |cs| - 1 ==> cs[i + 1].offset == cs[i].offset + cs[i].length
    ensures forall i :: 0 <= i < |cs| ==>
      && start <= cs[i].offset
      && cs[i].offset + cs[i].length <= end
      && Accepts(v, cs[i].offset)
      && cs[i] == ChunkAt(v, cs[i].offset)
    decreases |cs|
  {
    if |cs| > 0 {
      var next := start + cs[0].length;
      RunFacts(v, cs[1..], next, end);
      assert forall i :: 1 <= i < |cs| ==> cs[i] == cs[1..][i - 1];
    }
  }

  /** One turn of the loop on an accepted header: record it, move on by
      its declared length. */
  lemma WalkStep(v: FileView, pos: nat, result: ScanResult)
    requires pos <= v.fileSize
    requires result.fileType == v.fileType && result.fileSize == v.fileSize && Unclassified(result)
    requires Accepts(v, pos)
    ensures pos + ChunkAt(v, pos).length <= v.fileSize
    ensures Walk(v, pos, result)
            == Walk(v, pos + ChunkAt(v, pos).length, result.(chunks := result.chunks + [ChunkAt(v, pos)]))
  {
  }

  /** The loop at the end of a maximal run stops as the classifier says. */
  lemma WalkStop(v: FileView, pos: nat, result: ScanResult)
    requires pos <= v.fileSize
    requires result.fileType == v.fileType && result.fileSize == v.fileSize && Unclassified(result)
    requires Maximal(v, pos)
    ensures Walk(v, pos, result) == Classify(v, result.chunks, pos)
  {
  }

  lemma AppendAfterOne<T>(a: seq<T>, x: T, rest: seq<T>, s: seq<T>)
    requires |s| > 0 && s[0] == x && s[1..] == rest
    ensures (a + [x]) + rest == a + s
  {
    assert s == [x] + rest;
  }

  /** The loop, started at the head of a maximal run, returns exactly what
      the classifier says for that run. */
  lemma {:induction false} WalkFollowsRun(v: FileView, pos: nat, result: ScanResult, cs: seq<Chunk>, end: nat)
    requires pos <= v.fileSize
    requires result.fileType == v.fileType && result.fileSize == v.fileSize && Unclassified(result)
    requires Run(v, cs, pos, end) && end <= v.fileSize && Maximal(v, end)
    ensures Walk(v, pos, result) == Classify(v, result.chunks + cs, end)
    decreases |cs|
  {
    if |cs| == 0 {
      assert result.chunks + cs == result.chunks;
      WalkStop(v, pos, result);
    } else {
      var c := ChunkAt(v, pos);
      var rest := cs[1..];
      var next := result.(chunks := result.chunks + [c]);
      WalkStep(v, pos, result);
      WalkFollowsRun(v, pos + c.length, next, rest, end);
      AppendAfterOne(result.chunks, c, rest, cs);
    }
  }

  /** Every file has a maximal run from any position: the one the walk follows. */
  lemma MaximalRunExists(v: FileView, pos: nat) returns (cs: seq<Chunk>, end: nat)
    requires pos <= v.fileSize
    ensures Run(v, cs, pos, end) && end <= v.fileSize && Maximal(v, end)
    decreases v.fileSize - pos
  {
    if pos == v.fileSize || !Accepts(v, pos) {
      cs, end := [], pos;
    } else {
      var c := ChunkAt(v, pos);
      var rest, e := MaximalRunExists(v, pos + c.length);
      cs, end := [c] + rest, e;
      assert cs[1..] == rest;
    }
  }

  /** The scan of a supported file is the classification of its maximal run. */
  lemma ScanIsClassifiedRun(f: seq<byte>, fmt: Format, cs: seq<Chunk>, end: nat)
    requires GetFileType(f) == Success(fmt)
    requires Run(ViewOf(fmt, f), cs, 0, end) && end <= |f| && Maximal(ViewOf(fmt, f), end)
    ensures FindExtraBytes(f) == Success(Classify(ViewOf(fmt, f), cs, end))
  {
    WalkFollowsRun(ViewOf(fmt, f), 0, Initial(fmt, |f|), cs, end);
    assert [] + cs == cs;
  }

  /** The four outcomes of a scan, in terms of where the maximal run ends:
      clean exactly when the run reaches the end of the file; a false
      positive exactly when more than MaxExtraBytes are left; otherwise the
      bytes after the run are the extra bytes. The header that stopped the
      walk is recorded exactly when at least ChunkMin bytes were left. */
  lemma ScanOutcome(f: seq<byte>, fmt: Format, cs: seq<Chunk>, end: nat)
    requires GetFileType(f) == Success(fmt)
    requires Run(ViewOf(fmt, f), cs, 0, end) && end <= |f| && Maximal(ViewOf(fmt, f), end)
    ensures FindExtraBytes(f).Success?
    ensures var r := FindExtraBytes(f).value;
      && |cs| <= |r.chunks| && r.chunks[..|cs|] == cs
      && (r.isClean && !r.falsePositive <==> end == |f|)
      && (r.falsePositive <==> |f| - end > MaxExtraBytes)
      && (!r.falsePositive ==> r.fileSize - r.extraBytes == end)
      && (0 < r.extraBytes < ChunkMin(fmt) <==> 0 < |f| - end < ChunkMin(fmt))
      && (|r.chunks| == |cs| + 1 <==> end + ChunkMin(fmt) <= |f|)
      && (|r.chunks| != |cs| + 1 ==> r.chunks == cs)
      && (|r.chunks| == |cs| + 1 ==>
            r.chunks[|cs|] == ChunkAt(ViewOf(fmt, f), end) && !Accepts(ViewOf(fmt, f), end))
  {
    ScanIsClassifiedRun(f, fmt, cs, end);
    var r := FindExtraBytes(f).value;
    assert r.chunks[..|cs|] == cs;
  }

  /** The inventory the classifier reports for a run from offset 0: it
      starts at 0, is contiguous, lies inside the file, records the header
      at each offset, and all entries but possibly the last were accepted. */
  lemma ClassifyInventory(v: FileView, cs: seq<Chunk>, end: nat)
    requires Run(v, cs, 0, end) && end <= v.fileSize
    ensures var r := Classify(v, cs, end).chunks;
      && (|r| > 0 ==> r[0].offset == 0)
      && (forall i :: 0 <= i < |r| - 1 ==> r[i + 1].offset == r[i].offset + r[i].length)
      && (forall i :: 0 <= i < |r| ==> r[i] == ChunkAt(v, r[i].offset) && r[i].offset < v.fileSize)
      && (forall i :: 0 <= i < |r| - 1 ==> Accepts(v, r[i].offset))
  {
    RunFacts(v, cs, 0, end);
    var r := Classify(v, cs, end).chunks;
    if |r| == |cs| + 1 {
      assert r == cs + [ChunkAt(v, end)];
      assert forall i :: 0 <= i < |cs| ==> r[i] == cs[i];
      if |cs| > 0 {
        assert r[|cs|].offset == cs[|cs| - 1].offset + cs[|cs| - 1].length;
      }
    }
  }

  /** The inventory of any scan: it starts at offset 0, is contiguous,
      lies inside the file, records the decoded header at each offset, and
      all entries but possibly the last were accepted. */
  lemma ScanInventory(f: seq<byte>)
    requires FindExtraBytes(f).Success?
    ensures var r := FindExtraBytes(f).value;
      && (|r.chunks| > 0 ==> r.chunks[0].offset == 0)
      && (forall i :: 0 <= i < |r.chunks| - 1 ==> r.chunks[i + 1].offset == r.chunks[i].offset + r.chunks[i].length)
      && (forall i :: 0 <= i < |r.chunks| ==>
            && r.chunks[i].offset < |f|
            && r.chunks[i].length == HeaderAt(r.fileType, f, r.chunks[i].offset).chunkLength
            && r.chunks[i].chunkType == HeaderAt(r.fileType, f, r.chunks[i].offset).chunkType)
      && (forall i :: 0 <= i < |r.chunks| - 1 ==> Accepts(ViewOf(r.fileType, f), r.chunks[i].offset))
  {
    var fmt := GetFileType(f).value;
    var v := ViewOf(fmt, f);
    var cs, end := MaximalRunExists(v, 0);
    ScanIsClassifiedRun(f, fmt, cs, end);
    ClassifyInventory(v, cs, end);
  }

  /** A file tiled exactly by well-formed chunks scans as clean, with those
      chunks as its inventory. */
  lemma WellFormedIsClean(f: seq<byte>, fmt: Format, cs: seq<Chunk>)
    requires GetFileType(f) == Success(fmt)
    requires Run(ViewOf(fmt, f), cs, 0, |f|)
    ensures FindExtraBytes(f) == Success(ScanResult(fmt, |f|, 0, true, false, cs))
  {
    ScanIsClassifiedRun(f, fmt, cs, |f|);
  }

  /** A header with size field 1 is accepted with its 64-bit largesize as
      its length, so WalkStep moves the walk on by the largesize: not by 1,
      and not by the 16 bytes of the header. */
  lemma LargeSizeAdvancesByLargeSize(fmt: Format, f: seq<byte>, before: seq<byte>, largeSize: nat, name: seq<byte>, after: seq<byte>)
    requires fmt != Wmv && |name| == 4 && largeSize < Pow256(8)
    requires f == before + EncodeLargeBoxHeader(largeSize, name) + after
    requires ChunkMin(fmt) <= largeSize <= |f| - |before|
    ensures Accepts(ViewOf(fmt, f), |before|)
    ensures ChunkAt(ViewOf(fmt, f), |before|) == Chunk(|before|, largeSize, BoxType(Ascii(name)))
  {
    LargeBoxHeaderRoundTrip(fmt, before, largeSize, name, after);
  }

  /** Every header of cs reads only bytes inside its own chunk (a largesize
      box is at least 16 bytes long). */
  predicate HeadersFit(fmt: Format, f: seq<byte>, cs: seq<Chunk>) {
    forall i :: 0 <= i < |cs| ==> HeaderSpan(fmt, f, cs[i].offset) <= cs[i].length
  }

  /** A run depends on the view only through the size and the headers at
      its own offsets. */
  lemma {:induction false} RunTransfers(v: FileView, w: FileView, cs: seq<Chunk>, start: nat, end: nat)
    requires start <= v.fileSize && Run(v, cs, start, end)
    requires w.fileType == v.fileType && end <= w.fileSize
    requires forall i :: 0 <= i < |cs| ==> w.header(cs[i].offset) == v.header(cs[i].offset)
    ensures Run(w, cs, start, end)
    decreases |cs|
  {
    if |cs| > 0 {
      RunFacts(v, cs, start, end);
      assert w.header(start) == v.header(start) by { assert cs[0].offset == start; }
      assert forall i :: 0 <= i < |cs| - 1 ==> cs[1..][i] == cs[i + 1];
      RunTransfers(v, w, cs[1..], start + cs[0].length, end);
    }
  }

  /** A header whose bytes lie before end decodes the same in any file
      that agrees with f on the bytes before end. */
  lemma HeaderBeforeEnd(fmt: Format, f: seq<byte>, g: seq<byte>, pos: nat, end: nat)
    requires pos + HeaderSpan(fmt, f, pos) <= end
    requires end <= |g| && end <= |f| && f[..end] == g[..end]
    ensures HeaderAt(fmt, g, pos) == HeaderAt(fmt, f, pos)
  {
    var span := HeaderSpan(fmt, f, pos);
    assert f[pos..pos + span] == f[..end][pos..pos + span];
    assert g[pos..pos + span] == g[..end][pos..pos + span];
    HeaderIsLocal(fmt, f, g, pos);
  }

  /** A run whose headers fit its chunks survives any change to the file
      after the run's end: truncation there, or appended bytes. */
  lemma RunSurvivesChangeAfterEnd(fmt: Format, f: seq<byte>, g: seq<byte>, cs: seq<Chunk>, end: nat)
    requires Run(ViewOf(fmt, f), cs, 0, end) && HeadersFit(fmt, f, cs)
    requires end <= |g| && end <= |f| && f[..end] == g[..end]
    ensures Run(ViewOf(fmt, g), cs, 0, end)
  {
    var v, w := ViewOf(fmt, f), ViewOf(fmt, g);
    RunFacts(v, cs, 0, end);
    forall i | 0 <= i < |cs|
      ensures w.header(cs[i].offset) == v.header(cs[i].offset)
    {
      HeaderBeforeEnd(fmt, f, g, cs[i].offset, end);
    }
    RunTransfers(v, w, cs, 0, end);
  }

  /** A well-formed file with k bytes appended, the appended bytes not
      forming an acceptable chunk: the scan reports exactly k extra bytes
      when k <= MaxExtraBytes, and a false positive otherwise. */
  lemma AppendedTrailer(fmt: Format, g: seq<byte>, cs: seq<Chunk>, junk: seq<byte>)
    requires GetFileType(g) == Success(fmt)
    requires Run(ViewOf(fmt, g), cs, 0, |g|) && HeadersFit(fmt, g, cs)
    requires 0 < |junk| && (|junk| < ChunkMin(fmt) || !Accepts(ViewOf(fmt, g + junk), |g|))
    ensures FindExtraBytes(g + junk).Success?
    ensures var r := FindExtraBytes(g + junk).value;
      && r.fileType == fmt
      && |cs| <= |r.chunks| && r.chunks[..|cs|] == cs
      && (|junk| <= MaxExtraBytes ==> r.extraBytes == |junk| && !r.isClean && !r.falsePositive)
      && (|junk| > MaxExtraBytes ==> r.falsePositive && r.extraBytes == 0)
  {
    var f := g + junk;
    RunFacts(ViewOf(fmt, g), cs, 0, |g|);
    assert 12 <= |g| by {
      if fmt == Wmv {
        assert 0 < |g|;
        assert 24 <= cs[0].length <= |g|;
      }
    }
    assert f[..12] == g[..12];
    SniffReadsTwelveBytes(f, g);
    assert f[..|g|] == g[..|g|];
    RunSurvivesChangeAfterEnd(fmt, g, f, cs, |g|);
    ScanOutcome(f, fmt, cs, |g|);
  }
}
