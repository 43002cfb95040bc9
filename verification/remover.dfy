/** removeExtraBytes: rescan the file, back the extra bytes up to a
    sidecar when asked, then truncate. The file system is a value: the
    bytes of the file and of its sidecar `<path>.txt`; the two writes that
    can fail are given as parameters. */
module Remover {
  import opened Wrappers
  import opened Bytes
  import opened Formats
  import opened Scanner

  /** What is stored at the file's path and at the sidecar's path. */
  datatype Disk = Disk(file: seq<byte>, sidecar: Option<seq<byte>>)

  /** Which of the two mutating calls fail when they are made. */
  datatype Faults = Faults(backupWriteFails: bool, truncateFails: bool)

  /** The object removeExtraBytes returns: the scan plus cleaned/backupPath. */
  datatype Removal = Removal(scan: ScanResult, cleaned: bool, backupPath: Option<string>)

  /** The disk after the call, and what the call returned or threw. */
  datatype Effect = Effect(disk: Disk, outcome: Result<Removal, CleanerError>)

  const BackupSuffix: string := ".txt"

  /** The remover acts only on a scan that found extra bytes and is not a
      false positive. */
  predicate ShouldRemove(result: ScanResult) {
    result.extraBytes > 0 && !result.falsePositive
  }

  function RemoveExtraBytes(filePath: string, disk: Disk, backupData: bool, faults: Faults): (e: Effect)
    // the returned object carries the remover's own scan of the file
    ensures e.outcome.Success? ==>
      FindExtraBytes(disk.file).Success? && e.outcome.value.scan == FindExtraBytes(disk.file).value
    // a failed scan is rethrown with nothing written; any other failure
    // is a failed write
    ensures FindExtraBytes(disk.file).Failure? ==>
      e.disk == disk && e.outcome == Failure(FindExtraBytes(disk.file).error)
    ensures FindExtraBytes(disk.file).Success? && e.outcome.Failure? ==> e.outcome.error == IoFailure
    // every failure leaves the original file as it was
    ensures e.outcome.Failure? ==> e.disk.file == disk.file
    // cleaned exactly when the scan asks for removal and neither write fails
    ensures (e.outcome.Success? && e.outcome.value.cleaned) <==>
      && FindExtraBytes(disk.file).Success?
      && ShouldRemove(FindExtraBytes(disk.file).value)
      && !(backupData && faults.backupWriteFails)
      && !faults.truncateFails
    // a removal cuts exactly the extra bytes; with backup on, the sidecar
    // holds them and the two files concatenated give the original back
    ensures e.outcome.Success? && e.outcome.value.cleaned ==>
      && |e.disk.file| == |disk.file| - e.outcome.value.scan.extraBytes
      && disk.file[..|e.disk.file|] == e.disk.file
      && (backupData ==>
            && e.disk.sidecar.Some?
            && e.disk.file + e.disk.sidecar.value == disk.file
            && e.outcome.value.backupPath == Some(filePath + BackupSuffix))
      && (!backupData ==> e.disk.sidecar == disk.sidecar && e.outcome.value.backupPath.None?)
    // when nothing is removed, nothing is written
    ensures e.outcome.Success? && !e.outcome.value.cleaned ==>
      e.disk == disk && e.outcome.value.backupPath.None?
    // the sidecar is touched only by a backup that was asked for
    ensures e.disk.sidecar != disk.sidecar ==> backupData
    // a failed backup write happens before truncation, so nothing changes
    ensures backupData && faults.backupWriteFails ==> e.disk == disk
    // the backup is written before the truncation, so once it succeeds the
    // sidecar holds the tail whether or not the truncation then fails
    ensures (&& FindExtraBytes(disk.file).Success? && ShouldRemove(FindExtraBytes(disk.file).value)
             && backupData && !faults.backupWriteFails) ==>
      e.disk.sidecar == Some(disk.file[|disk.file| - FindExtraBytes(disk.file).value.extraBytes..])
  {
    match FindExtraBytes(disk.file)
    case Failure(err) => Effect(disk, Failure(err))
    case Success(result) =>
      if ShouldRemove(result) then
        var newSize := result.fileSize - result.extraBytes;
        if backupData && faults.backupWriteFails then
          Effect(disk, Failure(IoFailure))
        else
          var extraBuffer := ReadPadded(disk.file, newSize, result.extraBytes);
          var sidecar := if backupData then Some(extraBuffer) else disk.sidecar;
          var backupPath := if backupData then Some(filePath + BackupSuffix) else None;
          assert disk.file[..newSize] + extraBuffer == disk.file;
          if faults.truncateFails then
            Effect(Disk(disk.file, sidecar), Failure(IoFailure))
          else
            Effect(Disk(disk.file[..newSize], sidecar), Success(Removal(result, true, backupPath)))
      else
        Effect(disk, Success(Removal(result, false, None)))
  }

  /** What a successful, unfaulted removal leaves behind, in terms of the
      maximal run of well-formed chunks cs ending at end: unless the scan
      was a false positive, the file becomes exactly the first end bytes,
      and when those bytes hold at least the sniffed prefix and every
      header of cs lies inside its chunk, a rescan finds it clean with the
      same inventory. */
  lemma RescanAfterClean(filePath: string, disk: Disk, backupData: bool, faults: Faults,
                         fmt: Format, cs: seq<Chunk>, end: nat)
    requires GetFileType(disk.file) == Success(fmt)
    requires Run(ViewOf(fmt, disk.file), cs, 0, end) && end <= |disk.file| && Maximal(ViewOf(fmt, disk.file), end)
    requires HeadersFit(fmt, disk.file, cs) && 12 <= end
    requires !faults.truncateFails && !(backupData && faults.backupWriteFails)
    ensures var e := RemoveExtraBytes(filePath, disk, backupData, faults);
      && e.outcome.Success?
      && (!e.outcome.value.scan.falsePositive ==>
            && e.disk.file == disk.file[..end]
            && FindExtraBytes(e.disk.file) == Success(ScanResult(fmt, end, 0, true, false, cs)))
  {
    var f := disk.file;
    ScanOutcome(f, fmt, cs, end);
    var g := f[..end];
    assert g[..12] == f[..12];
    SniffReadsTwelveBytes(f, g);
    assert f[..end] == g[..end];
    RunSurvivesChangeAfterEnd(fmt, f, g, cs, end);
    WellFormedIsClean(g, fmt, cs);
    if end == |f| {
      assert g == f;
    }
  }

  /** Under the same conditions a second removal changes nothing: after a
      removal the file rescans clean, and after a false positive the file
      was left alone and scans as a false positive again. */
  lemma SecondRemovalIsNoOp(filePath: string, disk: Disk, backupData: bool, faults: Faults,
                            fmt: Format, cs: seq<Chunk>, end: nat, backupAgain: bool, faultsAgain: Faults)
    requires GetFileType(disk.file) == Success(fmt)
    requires Run(ViewOf(fmt, disk.file), cs, 0, end) && end <= |disk.file| && Maximal(ViewOf(fmt, disk.file), end)
    requires HeadersFit(fmt, disk.file, cs) && 12 <= end
    requires !faults.truncateFails && !(backupData && faults.backupWriteFails)
    ensures var d := RemoveExtraBytes(filePath, disk, backupData, faults).disk;
      var e := RemoveExtraBytes(filePath, d, backupAgain, faultsAgain);
      && e.disk == d
      && e.outcome.Success? && !e.outcome.value.cleaned
  {
    RescanAfterClean(filePath, disk, backupData, faults, fmt, cs, end);
  }

  /** The sniffed prefix is needed: a 12-byte file holding only an 8-byte
      `ftyp` header and its brand has 4 extra bytes, and cutting them makes
      the file unsupported, because the brand is then read as zero bytes. */
  lemma CleaningCanLoseTheBrand(filePath: string, disk: Disk, backupData: bool)
    requires |disk.file| == 12 && BigEndian(disk.file[..4]) == 8
    requires Ascii(disk.file[4..8]) == FtypTag
    requires Ascii(disk.file[8..12]) in Mp4Brands || Ascii(disk.file[8..12]) == MovBrand
    ensures var e := RemoveExtraBytes(filePath, disk, backupData, Faults(false, false));
      && e.outcome.Success? && e.outcome.value.cleaned
      && e.outcome.value.scan.extraBytes == 4
      && e.disk.file == disk.file[..8]
      && FindExtraBytes(e.disk.file) == Failure(UnsupportedFileType)
  {
    var f := disk.file;
    var sniffed := ReadPadded(f, 0, SniffLength);
    assert sniffed[4..8] == f[4..8] && sniffed[8..12] == f[8..12];
    var fmt := GetFileType(f).value;
    assert fmt != Wmv;
    var v := ViewOf(fmt, f);
    assert ReadPadded(f, 0, 8) == f[..8];
    assert ReadPadded(f, 0, 8)[..4] == f[..4];
    assert Accepts(v, 0);
    var c := ChunkAt(v, 0);
    assert Run(v, [c], 0, 8) by {
      assert [c][1..] == [];
    }
    ScanOutcome(f, fmt, [c], 8);
    var g := f[..8];
    var buffer := ReadPadded(g, 0, SniffLength);
    assert buffer[4..8] == f[4..8];
    assert buffer[8..12] == [0, 0, 0, 0];
    assert Ascii(buffer[8..12])[0] == AsciiChar(0);
  }

  /** A 16-byte `ftyp` box of a supported brand, followed at offset 16 by
      a box header with size field 1. */
  predicate FtypThenLargeBox(f: seq<byte>) {
    && 24 <= |f|
    && f[..4] == [0, 0, 0, 16] && Ascii(f[4..8]) == FtypTag
    && (Ascii(f[8..12]) in Mp4Brands || Ascii(f[8..12]) == MovBrand)
    && f[16..20] == [0, 0, 0, 1]
  }

  /** The first 16 bytes of such a file form an accepted chunk. */
  lemma FtypChunkAccepted(f: seq<byte>) returns (fmt: Format)
    requires FtypThenLargeBox(f)
    ensures GetFileType(f) == Success(fmt) && fmt != Wmv
    ensures Accepts(ViewOf(fmt, f), 0) && ChunkAt(ViewOf(fmt, f), 0).length == 16
  {
    var sniffed := ReadPadded(f, 0, SniffLength);
    assert sniffed[4..8] == f[4..8] && sniffed[8..12] == f[8..12];
    fmt := GetFileType(f).value;
    assert ReadPadded(f, 0, 8)[..4] == f[..4];
    BigEndianLowByte(f[..4]);
  }

  /** With the largesize 12 present the scan accepts both boxes and finds
      the last 4 bytes extra. */
  lemma FtypThenLargeBoxScan(f: seq<byte>)
    requires |f| == 32 && FtypThenLargeBox(f) && f[24..32] == [0, 0, 0, 0, 0, 0, 0, 12]
    ensures FindExtraBytes(f).Success?
    ensures FindExtraBytes(f).value.extraBytes == 4 && !FindExtraBytes(f).value.falsePositive
  {
    var fmt := FtypChunkAccepted(f);
    var v := ViewOf(fmt, f);
    assert ReadPadded(f, 16, 8)[..4] == f[16..20];
    assert ReadPadded(f, 24, 8) == f[24..32];
    BigEndianLowByte(f[16..20]);
    BigEndianLowByte(f[24..32]);
    assert Accepts(v, 16);
    var c0, c1 := ChunkAt(v, 0), ChunkAt(v, 16);
    assert Run(v, [c0, c1], 0, 28) by {
      assert [c0, c1][1..] == [c1];
      assert [c1][1..] == [];
    }
    ScanOutcome(f, fmt, [c0, c1], 28);
  }

  /** Without it the largesize reads as 0, the second box is rejected, and
      everything after the `ftyp` box is extra. */
  lemma FtypThenCutLargeBoxScan(g: seq<byte>)
    requires |g| == 28 && FtypThenLargeBox(g) && g[24..28] == [0, 0, 0, 0]
    ensures FindExtraBytes(g).Success?
    ensures FindExtraBytes(g).value.extraBytes == 12 && !FindExtraBytes(g).value.isClean
  {
    var fmt := FtypChunkAccepted(g);
    var w := ViewOf(fmt, g);
    assert ReadPadded(g, 16, 8)[..4] == g[16..20];
    BigEndianLowByte(g[16..20]);
    assert ReadPadded(g, 24, 8) == [0, 0, 0, 0, 0, 0, 0, 0];
    BigEndianLowByte(ReadPadded(g, 24, 8));
    assert w.header(16).chunkLength == 0;
    var c0 := ChunkAt(w, 0);
    assert Run(w, [c0], 0, 16) by {
      assert [c0][1..] == [];
    }
    ScanOutcome(g, fmt, [c0], 16);
  }

  /** The headers must fit their chunks: a largesize box of 12 bytes has a
      16-byte header, so cutting the file at the box's end cuts its
      largesize, which then reads as 0; the rescan rejects the box and
      reports more extra bytes than the first scan did. */
  lemma CleaningCanCutALargeSize(filePath: string, disk: Disk, backupData: bool)
    requires |disk.file| == 32 && FtypThenLargeBox(disk.file)
    requires disk.file[24..32] == [0, 0, 0, 0, 0, 0, 0, 12]
    ensures var e := RemoveExtraBytes(filePath, disk, backupData, Faults(false, false));
      && e.outcome.Success? && e.outcome.value.cleaned
      && e.outcome.value.scan.extraBytes == 4
      && e.disk.file == disk.file[..28]
      && FindExtraBytes(e.disk.file).Success?
      && FindExtraBytes(e.disk.file).value.extraBytes == 12
      && !FindExtraBytes(e.disk.file).value.isClean
  {
    var f := disk.file;
    FtypThenLargeBoxScan(f);
    var g := f[..28];
    assert g[..4] == f[..4] && g[4..8] == f[4..8] && g[8..12] == f[8..12] && g[16..20] == f[16..20];
    assert g[24..28] == f[24..32][..4];
    FtypThenCutLargeBoxScan(g);
  }
}
