/**
 * The file-wipe flow of the home page: hash the chosen file, wipe it, and only when the wipe
 * succeeds, write the signed reports, append a record to the wipe history and remember the hash.
 */
module HomePage {
  import opened Common
  import opened Json
  import Hex
  import OsPath
  import opened Signing
  import opened Reports
  import opened WipeHistory
  import opened WipeFile
  import opened VerifyPage

  /** `compute_file_hash` reads the file this many bytes at a time. */
  const ChunkSize: nat := 4096

  /** Every chunk holds 1 to `ChunkSize` bytes, and every chunk but the last holds exactly `ChunkSize`. */
  ghost predicate Chunked(chunks: seq<seq<byte>>)
  {
    forall i :: 0 <= i < |chunks| ==>
      0 < |chunks[i]| <= ChunkSize && (i + 1 < |chunks| ==> |chunks[i]| == ChunkSize)
  }

  /** Chunked data of `n` bytes is spread over `ceil(n / ChunkSize)` chunks. */
  lemma ChunkCount(chunks: seq<seq<byte>>)
    requires Chunked(chunks)
    ensures |chunks| == (|Concat(chunks)| + ChunkSize - 1) / ChunkSize
  {
    ChunkedLength(chunks);
    var n, m := |Concat(chunks)|, |chunks|;
    if m > 0 {
      assert ChunkSize * m <= n + ChunkSize - 1 < ChunkSize * (m + 1);
    }
  }

  lemma {:induction false} ChunkedLength(chunks: seq<seq<byte>>)
    requires Chunked(chunks)
    ensures chunks == [] ==> |Concat(chunks)| == 0
    ensures chunks != [] ==> ChunkSize * (|chunks| - 1) < |Concat(chunks)| <= ChunkSize * |chunks|
    decreases |chunks|
  {
    if chunks != [] {
      var front := chunks[..|chunks| - 1];
      assert Chunked(front);
      ChunkedLength(front);
      assert front != [] ==> |front[|front| - 1]| == ChunkSize;
      assert front != [] ==> |Concat(front)| == ChunkSize * |front| by {
        if front != [] {
          var ff := front[..|front| - 1];
          assert Chunked(ff);
          ChunkedLength(ff);
          assert Concat(front) == Concat(ff) + front[|front| - 1];
          assert forall i :: 0 <= i < |ff| ==> |ff[i]| == ChunkSize;
          AllFull(ff);
        }
      }
    }
  }

  lemma {:induction false} AllFull(chunks: seq<seq<byte>>)
    requires forall i :: 0 <= i < |chunks| ==> |chunks[i]| == ChunkSize
    ensures |Concat(chunks)| == ChunkSize * |chunks|
    decreases |chunks|
  {
    if chunks != [] {
      AllFull(chunks[..|chunks| - 1]);
    }
  }

  /**
   * `compute_file_hash(path)`: feed the file to SHA-256 in chunks of `ChunkSize` bytes until a
   * read comes back empty, and return the hex digest. `digest` stands for SHA-256 over all the
   * bytes fed. The result is `None` when the call raises: opening raises when the path is not a
   * regular file, and `readable` is false when `open` or a read raises on a regular file (no read
   * permission, an I/O error). `chunks` are the arguments of the successive `update` calls.
   */
  method ComputeFileHash(file: DiskFile, readable: bool, digest: seq<byte> -> seq<byte>)
    returns (hash: Option<string>, chunks: seq<seq<byte>>)
    ensures hash.Some? <==> file.IsFile() && readable
    ensures hash.Some? ==> hash.value == Hex.Encode(digest(file.data[..]))
    ensures hash.Some? ==> Concat(chunks) == file.data[..] && Chunked(chunks)
    ensures !file.IsFile() ==> chunks == []
  {
    chunks := [];
    if !file.IsFile() || !readable {
      return None, chunks;
    }
    var fed: seq<byte> := [];
    var pos := 0;
    while true
      invariant 0 <= pos <= file.data.Length
      invariant fed == file.data[..pos] && Concat(chunks) == fed && Chunked(chunks)
      invariant chunks != [] && |chunks[|chunks| - 1]| < ChunkSize ==> pos == file.data.Length
      decreases file.data.Length - pos
    {
      var end := if pos + ChunkSize <= file.data.Length then pos + ChunkSize else file.data.Length;
      var chunk := file.data[pos..end];
      if chunk == [] {
        break;
      }
      ConcatAppend(chunks, chunk);
      chunks := chunks + [chunk];
      fed := fed + chunk;
      assert file.data[..end] == file.data[..pos] + chunk;
      pos := end;
    }
    assert file.data[..pos] == file.data[..];
    hash := Some(Hex.Encode(digest(fed)));
  }

  /** The five fields of a history record, in the order the record literal lists them. */
  function RecordFields(name: string, hash: string, deletedAt: string, jsonPath: string, pdfPath: string): Object
  {
    [Field("file_name", name), Field("file_hash", hash), Field("deleted_at", deletedAt),
     Field("json_report_path", jsonPath), Field("pdf_report_path", pdfPath)]
  }

  lemma RecordKeys(name: string, hash: string, deletedAt: string, jsonPath: string, pdfPath: string)
    ensures Keys(RecordFields(name, hash, deletedAt, jsonPath, pdfPath))
         == ["file_name", "file_hash", "deleted_at", "json_report_path", "pdf_report_path"]
  {
  }

  lemma RecordLookups(name: string, hash: string, deletedAt: string, jsonPath: string, pdfPath: string)
    ensures var r := RecordFields(name, hash, deletedAt, jsonPath, pdfPath);
      Get(r, "file_name") == Some(name) && Get(r, "file_hash") == Some(hash) && Get(r, "deleted_at") == Some(deletedAt)
  {
    var r := RecordFields(name, hash, deletedAt, jsonPath, pdfPath);
    GetFirst(r, 0);
    GetFirst(r, 1);
    GetFirst(r, 2);
  }

  lemma RecordUnsigned(name: string, hash: string, deletedAt: string, jsonPath: string, pdfPath: string)
    ensures Get(RecordFields(name, hash, deletedAt, jsonPath, pdfPath), "signature").None?
  {
  }

  /** The record `select_and_wipe_file` saves: the file's base name, its pre-wipe hash, the time, and the report paths. */
  function WipeRecord(filePath: string, fileHash: string, utcIso: string, jsonPath: string, pdfPath: string): Object
  {
    RecordFields(OsPath.Basename(filePath), fileHash, Timestamp(utcIso), jsonPath, pdfPath)
  }

  /**
   * The saved record has the five keys in the order the record literal lists them, the file's
   * basename, the given hash, a time ending in `Z`, and no signature.
   */
  lemma WipeRecordFields(filePath: string, fileHash: string, utcIso: string, jsonPath: string, pdfPath: string)
    ensures var r := WipeRecord(filePath, fileHash, utcIso, jsonPath, pdfPath);
      Keys(r) == ["file_name", "file_hash", "deleted_at", "json_report_path", "pdf_report_path"]
      && Get(r, "file_name") == Some(OsPath.Basename(filePath))
      && Get(r, "file_hash") == Some(fileHash)
      && Get(r, "deleted_at").Some? && EndsWith(Get(r, "deleted_at").value, "Z")
      && Get(r, "signature").None?
  {
    var name, deletedAt := OsPath.Basename(filePath), Timestamp(utcIso);
    RecordKeys(name, fileHash, deletedAt, jsonPath, pdfPath);
    RecordLookups(name, fileHash, deletedAt, jsonPath, pdfPath);
    RecordUnsigned(name, fileHash, deletedAt, jsonPath, pdfPath);
  }

  /** What a click on "Wipe File" ends in. */
  datatype Outcome =
    | Cancelled                      // the dialog returned no path
    | HashFailed                     // opening or reading the file raised; nothing else happens
    | WipeFailed(hash: string)       // `wipe_file` returned `False`
    | ReportFailed(hash: string)     // the wipe succeeded but loading the signing key raised
    | Wiped(hash: string, jsonPath: string, pdfPath: string)

  lemma HexDigitPlain(c: char)
    requires Hex.IsLowerHexDigit(c)
    ensures !IsSpace(c) && LowerChar(c) == c
  {
  }

  /** A lower-case hex string is its own normal form. */
  lemma HexIsNormalized(s: string)
    requires Hex.IsLowerHex(s)
    ensures Normalize(s) == s
  {
    if s != [] {
      HexDigitPlain(s[0]);
      HexDigitPlain(s[|s| - 1]);
    }
    StripStripped(s);
    forall i | 0 <= i < |s|
      ensures LowerChar(s[i]) == s[i]
    {
      HexDigitPlain(s[i]);
    }
    assert Lower(s) == s;
  }

  /**
   * After a successful wipe the Verify page finds the hash it showed: looking up the hex digest
   * in the history with the new record appended reports a match (the new record, or an earlier
   * record of the same hash).
   */
  lemma SavedHashIsFound(history: seq<Object>, filePath: string, content: seq<byte>, digest: seq<byte> -> seq<byte>,
                         utcIso: string, jsonPath: string, pdfPath: string, toIst: string -> Option<string>)
    requires digest(content) != []
    ensures var hash := Hex.Encode(digest(content));
      VerifyHash(hash, history + [WipeRecord(filePath, hash, utcIso, jsonPath, pdfPath)], toIst).Verified?
  {
    var hash := Hex.Encode(digest(content));
    var record := WipeRecord(filePath, hash, utcIso, jsonPath, pdfPath);
    WipeRecordFields(filePath, hash, utcIso, jsonPath, pdfPath);
    var h := history + [record];
    HexIsNormalized(hash);
    assert RecordHash(record) == hash by {
      assert GetOr(record, "file_hash", "") == hash;
    }
    assert h[|history|] == record;
    MatchIsFound(hash, h, toIst, |history|);
  }

  /**
   * The branch `select_and_wipe_file` takes once `wipe_file` returned `True`: write the signed
   * reports, then append the history record that points at them.
   */
  method RecordWipe(filePath: string, hash: string, reports: ReportStore, ledger: WipeLedger, key: PrivateKey,
                    serialize: Object -> seq<byte>, reportClock: string, recordClock: string)
    returns (jsonPath: string, pdfPath: string)
    modifies reports, ledger
    ensures jsonPath == JsonReportPath(reports.dir, filePath) && pdfPath == PdfReportPath(reports.dir, filePath)
    ensures var report := SignedReport(filePath, hash, Timestamp(reportClock), key, serialize);
      reports.json == old(reports.json)[jsonPath := report]
      && reports.pdf == old(reports.pdf)[pdfPath := [PdfTitle] + PdfLines(report)]
    ensures ledger.Contents() == old(ledger.Contents()) + [WipeRecord(filePath, hash, recordClock, jsonPath, pdfPath)]
  {
    jsonPath, pdfPath := reports.GenerateReport(filePath, hash, reportClock, key, serialize);
    ledger.Save(WipeRecord(filePath, hash, recordClock, jsonPath, pdfPath));
  }

  class HomePage {
    /** `self.file_hash`: the hash of the last file wiped. */
    var fileHash: string
    /** The text of the hash display, once a hash has been shown. */
    var shownHash: Option<string>

    constructor ()
      ensures fileHash == "" && shownHash == None
    {
      fileHash := "";
      shownHash := None;
    }

    /**
     * `select_and_wipe_file()` for the file the dialog returned (`file.path == ""` when it was
     * cancelled). `readable` is false when opening or reading the file for its hash raises. The
     * history record's time is `recordClock`, read after the report's `reportClock`; `key` is the
     * loaded private key, `None` when loading it raises.
     */
    method SelectAndWipeFile(file: DiskFile, readable: bool, reports: ReportStore, ledger: WipeLedger, ok: nat -> bool,
                             rand: (nat, nat) -> byte, digest: seq<byte> -> seq<byte>, key: Option<PrivateKey>,
                             serialize: Object -> seq<byte>, reportClock: string, recordClock: string)
      returns (outcome: Outcome)
      modifies this, file, file.data, reports, ledger
      ensures file.path == "" || !old(file.IsFile()) || !readable ==>
        outcome == (if file.path == "" then Cancelled else HashFailed)
        && file.log == old(file.log) && file.data[..] == old(file.data[..]) && shownHash == old(shownHash)
        && file.linked == old(file.linked) && file.regular == old(file.regular)
      ensures file.path != "" && old(file.IsFile()) && readable ==>
        var hash := Hex.Encode(digest(old(file.data[..])));
        var plan := Plan(DefaultPasses);
        var k := Completed(ok, |plan|);
        shownHash == Some(hash)
        && file.log == old(file.log) + plan[..k]
        && outcome == (if k < |plan| then WipeFailed(hash)
                       else if key.None? then ReportFailed(hash)
                       else Wiped(hash, JsonReportPath(reports.dir, file.path), PdfReportPath(reports.dir, file.path)))
      ensures !outcome.Wiped? ==>
        reports.json == old(reports.json) && reports.pdf == old(reports.pdf)
        && ledger.Contents() == old(ledger.Contents()) && ledger.writes == old(ledger.writes)
        && fileHash == old(fileHash)
      ensures outcome.Wiped? ==>
        var report := SignedReport(file.path, outcome.hash, Timestamp(reportClock), key.value, serialize);
        AllZero(file.data[..]) && !file.linked
        && reports.json == old(reports.json)[outcome.jsonPath := report]
        && reports.pdf == old(reports.pdf)[outcome.pdfPath := [PdfTitle] + PdfLines(report)]
        && ledger.Contents() == old(ledger.Contents())
             + [WipeRecord(file.path, outcome.hash, recordClock, outcome.jsonPath, outcome.pdfPath)]
        && fileHash == outcome.hash
    {
      if file.path == "" {
        return Cancelled;
      }
      var hash, _ := ComputeFileHash(file, readable, digest);
      if hash.None? {
        return HashFailed;
      }
      shownHash := hash;
      ghost var plan, log0 := Plan(DefaultPasses), file.log;
      var success := file.WipeFile(DefaultPasses, ok, rand);
      ghost var k := Completed(ok, |plan|);
      assert file.log == log0 + plan[..k] && success == (k == |plan|);
      if !success {
        return WipeFailed(hash.value);
      }
      if key.None? {
        return ReportFailed(hash.value);
      }
      var jsonPath, pdfPath := RecordWipe(file.path, hash.value, reports, ledger, key.value, serialize,
                                          reportClock, recordClock);
      fileHash := hash.value;
      return Wiped(hash.value, jsonPath, pdfPath);
    }
  }
}
