/**
 * Report construction: a three-field record is serialized and signed, and only then is the
 * lowercase hex signature attached as a fourth field; the record is saved as JSON under a
 * name derived from the wiped file's basename, together with a rendered page.
 */
module Reports {
  import opened Common
  import opened Json
  import Hex
  import OsPath
  import opened Signing

  const JsonSuffix: string := "_wipe_report.json"
  const PdfSuffix: string := "_wipe_report.pdf"
  const PdfTitle: string := "Secure Wipe Report"

  /** `datetime.utcnow().isoformat() + "Z"`, the clock reading being `utcIso`. */
  function Timestamp(utcIso: string): (t: string)
    ensures |t| == |utcIso| + 1 && t[..|utcIso|] == utcIso && t[|utcIso|] == 'Z'
  {
    utcIso + "Z"
  }

  /** `json.dumps(record, indent=4).encode("utf-8")` is one-to-one on records. */
  ghost predicate Injective(serialize: Object -> seq<byte>)
  {
    forall a, b :: serialize(a) == serialize(b) ==> a == b
  }

  /** The record before signing: `file_name`, `file_hash`, `deleted_at`, in that order. */
  function UnsignedReport(filePath: string, fileHash: string, deletedAt: string): (o: Object)
  {
    [Field("file_name", OsPath.Basename(filePath)), Field("file_hash", fileHash), Field("deleted_at", deletedAt)]
  }

  /** The signature over exactly the bytes of the unsigned record. */
  function ReportSignature(unsigned: Object, key: PrivateKey, serialize: Object -> seq<byte>): seq<byte>
  {
    SignData(key, serialize(unsigned))
  }

  /**
   * The saved record: the unsigned record, then `signature`, the hex of the signature over the
   * serialization of the unsigned record.
   */
  function SignedReport(filePath: string, fileHash: string, deletedAt: string, key: PrivateKey,
                        serialize: Object -> seq<byte>): (r: Object)
    ensures |r| == 4
    ensures r[..3] == UnsignedReport(filePath, fileHash, deletedAt)
    ensures Get(r[..3], "signature").None?
    ensures r[3].key == "signature"
    ensures Hex.IsLowerHex(r[3].value)
    ensures Hex.Decode(r[3].value) == Some(SignData(key, serialize(r[..3])))
  {
    var unsigned := UnsignedReport(filePath, fileHash, deletedAt);
    var sig := ReportSignature(unsigned, key, serialize);
    assert Get(unsigned, "signature").None?;
    Hex.DecodeEncode(sig);
    var r := Put(unsigned, "signature", Hex.Encode(sig));
    assert r[..3] == unsigned;
    r
  }

  /** `<dir>/<basename>_wipe_report.json`. */
  function JsonReportPath(dir: string, filePath: string): (r: string)
    ensures EndsWith(r, JsonSuffix)
  {
    OsPath.Join(dir, OsPath.Basename(filePath) + JsonSuffix)
  }

  /** `<dir>/<basename>_wipe_report.pdf`. */
  function PdfReportPath(dir: string, filePath: string): (r: string)
    ensures EndsWith(r, PdfSuffix)
  {
    OsPath.Join(dir, OsPath.Basename(filePath) + PdfSuffix)
  }

  /** The lines drawn under the title of the rendered page. */
  function PdfLines(report: Object): seq<string>
    requires |report| == 4
  {
    ["File Name: " + report[0].value, "File SHA256 Hash: " + report[1].value,
     "Deleted At (UTC): " + report[2].value, "", "SHA256 Hash Signature (hex):", report[3].value]
  }

  /** A reports directory (absolute, without a trailing slash, as `os.path.join(os.getcwd(), "reports")` is). */
  predicate IsReportsDir(dir: string)
  {
    |dir| > 0 && dir[|dir| - 1] != '/'
  }

  /**
   * Whatever the reports directory, a report's own basename is the wiped file's basename followed
   * by the suffix, so the report names the file it is about.
   */
  lemma ReportPathBasename(dir: string, filePath: string)
    ensures OsPath.Basename(JsonReportPath(dir, filePath)) == OsPath.Basename(filePath) + JsonSuffix
    ensures OsPath.Basename(PdfReportPath(dir, filePath)) == OsPath.Basename(filePath) + PdfSuffix
  {
    var b := OsPath.Basename(filePath);
    SlashFreeAppend(b, JsonSuffix);
    SlashFreeAppend(b, PdfSuffix);
    OsPath.BasenameOfJoin(dir, b + JsonSuffix);
    OsPath.BasenameOfJoin(dir, b + PdfSuffix);
  }

  lemma SlashFreeAppend(a: string, b: string)
    requires '/' !in a && '/' !in b
    ensures '/' !in a + b
  {
  }

  /**
   * Report paths are `<dir>/<basename><suffix>`: the file's directory plays no part, and the
   * JSON and PDF paths never coincide.
   */
  lemma ReportPathShape(dir: string, filePath: string)
    requires IsReportsDir(dir)
    ensures JsonReportPath(dir, filePath) == dir + "/" + OsPath.Basename(filePath) + JsonSuffix
    ensures PdfReportPath(dir, filePath) == dir + "/" + OsPath.Basename(filePath) + PdfSuffix
    ensures JsonReportPath(dir, filePath) != PdfReportPath(dir, filePath)
  {
    var b := OsPath.Basename(filePath);
    JoinRelative(dir, b, JsonSuffix);
    JoinRelative(dir, b, PdfSuffix);
    var json, pdf := JsonReportPath(dir, filePath), PdfReportPath(dir, filePath);
    assert json[|json| - 2] == 'o' && pdf[|pdf| - 2] == 'd';
  }

  /** A name that starts with a slash-free basename is joined below the directory with one `/`. */
  lemma JoinRelative(dir: string, b: string, suffix: string)
    requires IsReportsDir(dir) && '/' !in b && |suffix| > 0 && suffix[0] != '/'
    ensures OsPath.Join(dir, b + suffix) == dir + "/" + b + suffix
  {
    var name := b + suffix;
    assert name[0] != '/' by {
      if b != [] {
        assert name[0] == b[0];
      }
    }
  }

  /** Two files get the same report paths exactly when their basenames are equal. */
  lemma SameReportPathIffSameBasename(dir: string, p: string, q: string)
    requires IsReportsDir(dir)
    ensures JsonReportPath(dir, p) == JsonReportPath(dir, q) <==> OsPath.Basename(p) == OsPath.Basename(q)
    ensures PdfReportPath(dir, p) == PdfReportPath(dir, q) <==> OsPath.Basename(p) == OsPath.Basename(q)
  {
    ReportPathShape(dir, p);
    ReportPathShape(dir, q);
    var bp, bq := OsPath.Basename(p), OsPath.Basename(q);
    if JsonReportPath(dir, p) == JsonReportPath(dir, q) {
      var a, b := dir + "/" + bp + JsonSuffix, dir + "/" + bq + JsonSuffix;
      assert |bp| == |bq|;
      assert bp == a[|dir| + 1..|a| - |JsonSuffix|];
      assert bq == b[|dir| + 1..|b| - |JsonSuffix|];
    }
    if PdfReportPath(dir, p) == PdfReportPath(dir, q) {
      var a, b := dir + "/" + bp + PdfSuffix, dir + "/" + bq + PdfSuffix;
      assert |bp| == |bq|;
      assert bp == a[|dir| + 1..|a| - |PdfSuffix|];
      assert bq == b[|dir| + 1..|b| - |PdfSuffix|];
    }
  }

  /**
   * Anyone holding the public key can check a saved report: decode its `signature` field and
   * verify it over the serialization of the other three fields.
   */
  lemma SavedReportVerifies(filePath: string, fileHash: string, deletedAt: string, priv: PrivateKey,
                            pub: PublicKey, serialize: Object -> seq<byte>)
    requires IsKeyPair(priv, pub)
    ensures var r := SignedReport(filePath, fileHash, deletedAt, priv, serialize);
      Hex.Decode(r[3].value).Some? &&
      VerifySignature(pub, Hex.Decode(r[3].value).value, serialize(r[..3])) == Returned(true)
  {
    var r := SignedReport(filePath, fileHash, deletedAt, priv, serialize);
    SignThenVerify(priv, pub, serialize(r[..3]));
  }

  /**
   * A saved report whose name, hash or time was altered after signing no longer verifies:
   * verification of its signature over the altered fields returns `False`.
   */
  lemma AlteredReportFails(filePath: string, fileHash: string, deletedAt: string, priv: PrivateKey,
                           pub: PublicKey, serialize: Object -> seq<byte>, altered: Object)
    requires IsBinding(priv, pub)
    requires Injective(serialize)
    requires altered != UnsignedReport(filePath, fileHash, deletedAt)
    ensures var r := SignedReport(filePath, fileHash, deletedAt, priv, serialize);
      VerifySignature(pub, Hex.Decode(r[3].value).value, serialize(altered)) == Returned(false)
  {
    var unsigned := UnsignedReport(filePath, fileHash, deletedAt);
    assert serialize(unsigned) != serialize(altered);
    TamperedDataFails(priv, pub, serialize(unsigned), serialize(altered));
  }

  /** The reports directory: saved JSON records and rendered pages, by path. */
  class ReportStore {
    const dir: string
    var json: map<string, Object>
    var pdf: map<string, seq<string>>

    constructor (dir: string)
      ensures this.dir == dir && json == map[] && pdf == map[]
    {
      this.dir := dir;
      json := map[];
      pdf := map[];
    }

    /**
     * `generate_report(file_path, file_hash, ...)` at clock reading `utcIso`, with the loaded
     * private key `key`. A report already saved under the same paths is replaced.
     */
    method GenerateReport(filePath: string, fileHash: string, utcIso: string, key: PrivateKey,
                          serialize: Object -> seq<byte>)
      returns (jsonPath: string, pdfPath: string)
      modifies this
      ensures jsonPath == JsonReportPath(dir, filePath) && pdfPath == PdfReportPath(dir, filePath)
      ensures json == old(json)[jsonPath := SignedReport(filePath, fileHash, Timestamp(utcIso), key, serialize)]
      ensures pdf == old(pdf)[pdfPath := [PdfTitle] + PdfLines(json[jsonPath])]
    {
      var filename := OsPath.Basename(filePath);
      var timestamp := utcIso + "Z";
      var reportData := [Field("file_name", filename), Field("file_hash", fileHash), Field("deleted_at", timestamp)];
      assert reportData == UnsignedReport(filePath, fileHash, Timestamp(utcIso));
      var reportBytes := serialize(reportData);
      var signature := SignData(key, reportBytes);
      var signatureHex := Hex.Encode(signature);
      reportData := Put(reportData, "signature", signatureHex);
      assert reportData == SignedReport(filePath, fileHash, Timestamp(utcIso), key, serialize);
      jsonPath := OsPath.Join(dir, filename + JsonSuffix);
      json := json[jsonPath := reportData];
      pdfPath := OsPath.Join(dir, filename + PdfSuffix);
      pdf := pdf[pdfPath := [PdfTitle] + PdfLines(reportData)];
    }
  }
}
