# Secure Wipe 2.0: erase strategies, signed reports, wipe history and hash lookup

This project models the core of Secure Wipe 2.0 in Dafny and proves what that core promises.
The core erases files, directory trees and devices, and signs a report of each file wipe.
It keeps an append-only history of wipes, and it finds a wiped file again by its SHA-256 hash.

- `wipe_file.dfy`, module `WipeFile`: `wipe_file`. The file is a class `DiskFile` over a byte
  array. The I/O steps are a plan (open, `passes` durable random passes, reopen, a durable
  zero pass, remove). The first step that raises ends the wipe with `False`. A step that raises
  is taken to have had no effect, so the file is left as the completed prefix of the plan left it.
- `wipe_partition.dfy`, module `WipePartition`: `wipe_partition`. The tree is a datatype, and
  `os.walk(..., topdown=False)` is the function `Walk`. The filesystem is a class `Volume` that
  holds the set of present paths.
- `device_wipe.dfy`, module `DeviceWipe`: `wipe_os`, `wipe_disk_nist_compliant` and
  `secure_erase_ssd_nist`. Each is the sequence of processes it launches; `run(i)` says how the
  `i`-th process ends.
- `wipe_history.dfy`, module `WipeHistory`: `save_wipe_record` and `load_wipe_history`, as a
  class `WipeLedger` that holds the stored list and every rewrite of the file.
- `reports.dfy`, `signing.dfy`, `hex.dfy`, `os_path.dfy` and `json.dfy`: `generate_report`,
  `sign_data`, `verify_signature`, `bytes.hex()`, `os.path.basename`/`join`, and dicts as
  ordered field lists.
- `verify_page.dfy`, module `VerifyPage`: the lookup of `verify_hash`.
- `home_page.dfy`, module `HomePage`: `compute_file_hash` (the 4096-byte chunk loop) and the
  gating in `select_and_wipe_file`. The report and the history record are written only after
  a successful wipe.

External effects are parameters:

| parameter | stands for |
|---|---|
| `ok(k)` | whether the `k`-th I/O step of a call completes instead of raising |
| `rand(p, i)` | byte `i` of `os.urandom` in random pass `p` |
| `run(i)` | how the `i`-th subprocess ends |
| `digest` | SHA-256 |
| `serialize` | `json.dumps(..., indent=4).encode()` |
| `PrivateKey` / `PublicKey` | the library's `sign` / `verify` operations |
| `toIst` | the IST conversion |
| `reportClock`, `recordClock` | the two `utcnow()` readings |

The model follows the code, which:

- makes no attempt to clear the SSD's temporary password after a failed erase;
- only deletes entries in the partition wipe, overwriting nothing;
- catches nothing in `wipe_disk_nist_compliant`, which never returns `False`: a failing pass raises;
- reports failures as Python booleans and exceptions, not typed error results;
- turns only `InvalidSignature` into `False` in `verify_signature`; any other error raises;
- stores the report paths in a history record, not the signature, and takes the record's
  `deleted_at` from a second clock reading, not the signed report's.

## Model

| member | source | states |
|---|---|---|
| Common.Completed | src/wipe_utils.py:46-63 | the number of steps done before the first one that raises: every earlier step succeeded, and the step at that index failed when it is not the end |
| Json.Get | ui/verify_page.py:90 | `dict.get`: absent exactly when no field has the key, otherwise the value of a field with that key |
| Json.GetOrDefault | ui/verify_page.py:90 | `dict.get(k, default)`: the default exactly when no field has the key, otherwise the value of a field with that key |
| Json.Put | src/reports.py:80 | `d[k] = v`: `k` now maps to `v`; a new key is appended at the end; an existing key keeps its place; every other key keeps its value |
| Hex.Encode | src/reports.py:77 | `signature.hex()` is twice as long as the bytes and consists of lower-case hex digits only |
| Hex.DecodeEncode | src/reports.py:77 | decoding the hex of any byte string gives the bytes back |
| Hex.EncodeDecode | src/reports.py:77 | every even-length lower-case hex string decodes, and re-encoding it gives it back |
| Hex.EncodeInjective | src/reports.py:77 | different signatures have different hex strings |
| OsPath.Basename | src/reports.py:64 | the basename holds no `/`, is a suffix of the path, and is preceded by `/` unless it is the whole path |
| OsPath.Join | src/reports.py:83 | `os.path.join`: an absolute second part replaces the first; otherwise one `/` separates them unless the first is empty or already ends in `/`; the result ends with the second part |
| OsPath.BasenameOfJoin | src/reports.py:83-88 | a slash-free name joined onto any directory is the basename of the joined path |
| OsPath.BasenameOfJoined | src/reports.py:83 | the basename of `dir + "/" + name` is `name` for a slash-free name |
| Signing.VerifySignature | src/reports.py:46-59 | `True` exactly when the library accepts, `False` exactly on `InvalidSignature`, and any other library error propagates |
| Signing.SignThenVerify | src/reports.py:34-59 | signing and verifying use the same PSS/MGF1-SHA-256/max-salt parameters, so a signature made with a key pair always verifies as `True` |
| Signing.TamperedDataFails | src/reports.py:46-59 | a signature checked against any other data gives `False`, not an exception |
| Reports.Timestamp | src/reports.py:65 | `deleted_at` is the ISO clock reading followed by exactly one `Z` |
| Reports.SignedReport | src/reports.py:66-80 | the saved record has four fields; the first three are `file_name` (the basename), `file_hash` and `deleted_at`, in that order, and hold no signature; the fourth is `signature`, lower-case hex that decodes to the signature over the serialization of those three |
| Reports.JsonReportPath | src/reports.py:83 | the JSON report path ends in `_wipe_report.json` |
| Reports.PdfReportPath | src/reports.py:88 | the PDF report path ends in `_wipe_report.pdf` |
| Reports.ReportPathBasename | src/reports.py:83-88 | whatever the reports directory, each report's basename is the wiped file's basename followed by its suffix |
| Reports.ReportPathShape | src/reports.py:83-88 | the report paths are `<dir>/<basename>_wipe_report.json` and `.pdf`, and they never coincide |
| Reports.SameReportPathIffSameBasename | src/reports.py:83-88 | two files get the same report path exactly when their basenames are equal |
| Reports.SavedReportVerifies | src/reports.py:74-80 | a saved report's decoded signature verifies against the serialization of its first three fields |
| Reports.AlteredReportFails | src/reports.py:74-80 | with an injective serialization and a binding key pair, any altered three-field record fails verification with `False` |
| Reports.ReportStore.GenerateReport | src/reports.py:62-112 | `generate_report` returns the basename-derived paths, stores the signed report under the JSON path (replacing an older one), and stores the title plus the six lines of that report under the PDF path; nothing else changes |
| WipeHistory.WipeLedger.Contents | src/wipe_history.py:22-26 | with no history file, the history is empty |
| WipeHistory.WipeLedger.Load | src/wipe_history.py:22-26 | `load_wipe_history` returns the stored list, or `[]` when the file is absent |
| WipeHistory.WipeLedger.Save | src/wipe_history.py:10-20 | `save_wipe_record` adds exactly one record at the end; earlier records are unchanged and keep their order; an absent history becomes `[r]`; the whole new list is written |
| WipeHistory.SaveAll | src/wipe_history.py:10-26 | `N` saves leave the old history followed by the `N` records in the order they were saved, with one whole-file write per save |
| VerifyPage.StripLeft | ui/verify_page.py:83 | the left strip removes exactly the leading whitespace, as `str.isspace` defines it |
| VerifyPage.StripRight | ui/verify_page.py:83 | the right strip removes exactly the trailing whitespace |
| VerifyPage.Strip | ui/verify_page.py:83 | `strip()` leaves a string that neither starts nor ends with whitespace |
| VerifyPage.StripEmptyIffBlank | ui/verify_page.py:83-84 | `strip()` leaves nothing exactly when the input is all whitespace |
| VerifyPage.Lower | ui/verify_page.py:83 | `lower()` keeps the length and maps each character through the ASCII lower-case mapping |
| VerifyPage.NormalizeShape | ui/verify_page.py:83-90 | `strip().lower()` is empty exactly for an all-whitespace input, so only such a query is rejected, and it leaves no upper-case ASCII letter |
| VerifyPage.FirstMatch | ui/verify_page.py:89-91 | finds the first index at or after `from` whose hash equals the query, or reports that none does |
| VerifyPage.ReplaceZ | ui/verify_page.py:93 | after `replace("Z", "+00:00")` no `Z` remains, a string without `Z` is unchanged, and nothing gets shorter |
| VerifyPage.ReplaceZAppend | ui/verify_page.py:93 | the replacement works piece by piece: replacing in `a + b` is replacing in `a`, then in `b` |
| VerifyPage.ReplaceTrailingZ | ui/verify_page.py:93 | a stamp `t + "Z"` with no other `Z` becomes `t + "+00:00"` |
| VerifyPage.ShowTime | ui/verify_page.py:92-98 | a record without `deleted_at` shows `None`; otherwise the IST text when the conversion of the stored value (with `Z` replaced) succeeds, and the stored value unchanged when it fails |
| VerifyPage.VerifyHash | ui/verify_page.py:82-103 | an empty normalised query is rejected before any lookup; otherwise the result is not found exactly when no record's normalised hash equals the query, and a verified result reports the first such record in history order, with its name and shown time |
| VerifyPage.MatchIsFound | ui/verify_page.py:89-101 | any record with a matching hash makes the lookup succeed |
| VerifyPage.RecordWithoutHashNeverMatches | ui/verify_page.py:84-90 | a record without `file_hash` compares as `""` and is never the match |
| VerifyPage.StripSurrounding | ui/verify_page.py:83 | whitespace before and after a string does not change its strip |
| VerifyPage.QueryCaseAndSpaceInsensitive | ui/verify_page.py:83 | an upper-cased query padded with whitespace gets the same verdict as the query |
| VerifyPage.NormalizeIdempotent | ui/verify_page.py:90 | normalising twice equals normalising once, so stored and typed hashes compare in the same normal form |
| WipeFile.Plan | src/wipe_utils.py:47-58 | the plan has `4 * max(passes, 0) + 7` steps |
| WipeFile.Effect | src/wipe_utils.py:50-55 | no step changes the file's length |
| WipeFile.ContentAfter | src/wipe_utils.py:45-57 | the file keeps its length through any prefix of the plan |
| WipeFile.RandomPassCount | src/wipe_utils.py:48-52 | the plan makes exactly `max(passes, 0)` random writes |
| WipeFile.EveryWriteIsSynced | src/wipe_utils.py:50-57 | every write, random or zero, is followed at once by `flush` and `fsync` |
| WipeFile.PlanOrder | src/wipe_utils.py:48-58 | random pass `p` is the `p`-th write; the zero write is the last write; the removal is the last step and occurs nowhere else |
| WipeFile.FinishOps | src/wipe_utils.py:53-58 | the plan opens first, and ends with reopen, seek, zero write, flush, fsync, remove |
| WipeFile.ZerosBeforeRemove | src/wipe_utils.py:53-58 | immediately before the removal, the file holds only zeros, whatever it held |
| WipeFile.DiskFile.Overwrite | src/wipe_utils.py:50-55 | a whole-extent write sets every byte to its pattern |
| WipeFile.DiskFile.Perform | src/wipe_utils.py:46-63 | a step completes exactly when the oracle allows it; a completed step is logged and has its effect; a raising one changes nothing |
| WipeFile.DiskFile.DurableWrite | src/wipe_utils.py:50-52 | write, flush, fsync: all three complete, or the wipe stops at the first that raises |
| WipeFile.DiskFile.RandomPass | src/wipe_utils.py:49-52 | one iteration: seek, then a durable random write |
| WipeFile.DiskFile.RandomPasses | src/wipe_utils.py:48-52 | the loop completes the random-pass part of the plan, or stops at its first failing step |
| WipeFile.DiskFile.ZeroPass | src/wipe_utils.py:53-57 | reopen, seek and a durable zero write complete, or the wipe stops at the first failure |
| WipeFile.DiskFile.Unlink | src/wipe_utils.py:58 | the removal unlinks the entry, leaves the bytes alone, and completes exactly when the oracle allows |
| WipeFile.DiskFile.Overwrites | src/wipe_utils.py:47-57 | every step before the removal completes, or the wipe stops at the first failure |
| WipeFile.DiskFile.RunPlan | src/wipe_utils.py:46-63 | all steps complete, leaving the entry removed and the bytes all zero, or the wipe stops at the first failure |
| WipeFile.DiskFile.WipeFile | src/wipe_utils.py:40-63 | a path that is not a regular file gives `False` and nothing is touched; otherwise exactly the steps before the first failure are performed, in plan order; `True` exactly when all complete, and then the file is all zeros and unlinked |
| DeviceWipe.CheckRun | src/wipe_utils.py:99-109 | `check=True` returns exactly when the process exits with status 0 and raises otherwise |
| DeviceWipe.WipeOs | src/wipe_utils.py:79-121 | the `dd` passes launch in the order urandom, zero, urandom; a pass starts only after every earlier pass succeeded; `True` exactly when all three succeed; `False` at the first failure, with no later pass |
| DeviceWipe.WipeDiskNist | src/wipe_utils.py:4-18 | the same three passes, in the same order, via `sudo dd`; it never returns `False`: `True` after all three, or the failing pass's exception |
| DeviceWipe.SecureEraseSsd | src/wipe_utils.py:20-38 | the erase is launched only after setting the password succeeded; `True` exactly when both succeed; nothing else is launched |
| DeviceWipe.DdArgvs | src/wipe_utils.py:99-107 | a `dd` pass reads the pattern's source and writes the device; `wipe_os` runs `dd` directly with `conv=fsync`, the NIST wipe runs `sudo dd` without it |
| DeviceWipe.HdparmArgvs | src/wipe_utils.py:25-33 | both `hdparm` calls run under `sudo` on the device with the temporary password; the first only sets it, the second only erases |
| DeviceWipe.SamePassOrder | src/wipe_utils.py:6-13 | both device wipes give `dd` the same source and target for pass `i`, and pass 1 is the zero pass |
| DeviceWipe.ErasePasswordIsSetPassword | src/wipe_utils.py:25-33 | the erase uses the password that was just set |
| WipePartition.StepRemovals | src/wipe_utils.py:69-72 | one walk step removes each of its files, then each of its directories |
| WipePartition.OwnStep | src/wipe_utils.py:69-72 | a directory's own step removes distinct paths, each one level below it |
| WipePartition.WalkBottomUp | src/wipe_utils.py:68-72 | the removals never touch a path twice and never remove a directory before anything beneath it; every removal is strictly below the walked directory |
| WipePartition.WalkCovers | src/wipe_utils.py:68-72 | the walk from a directory removes exactly the paths of its tree |
| WipePartition.RootCovers | src/wipe_utils.py:68-72 | from the partition directory, the removals are exactly the entries of the tree; the directory itself is not among them |
| WipePartition.StepReady | src/wipe_utils.py:68-72 | when the earlier removals are done, the next path is still there; for a directory, nothing beneath it remains |
| WipePartition.OnlyRootLeft | src/wipe_utils.py:65-76 | once every removal is done, only the partition directory remains |
| WipePartition.Volume.Remove | src/wipe_utils.py:70-72 | `os.remove`/`os.rmdir` succeeds exactly when allowed, the path exists and (for a directory) nothing beneath it exists; a success removes just that path |
| WipePartition.Volume.Attempt | src/wipe_utils.py:70-72 | in walk order, each removal succeeds exactly when the oracle allows it |
| WipePartition.Volume.RemoveFiles | src/wipe_utils.py:69-70 | removes a step's files in order up to the first failure |
| WipePartition.Volume.RemoveDirs | src/wipe_utils.py:71-72 | removes a step's subdirectories in order up to the first failure |
| WipePartition.Volume.RemoveStep | src/wipe_utils.py:69-72 | one step's files, then its directories, up to the first failure |
| WipePartition.Volume.RemoveWalk | src/wipe_utils.py:68-72 | all walk steps in order, stopping at the first failed removal |
| WipePartition.Volume.WipePartition | src/wipe_utils.py:65-76 | exactly the removals before the first failure are done, bottom-up, and stay done; `True` exactly when all are done, and then only the partition directory remains; the directory itself is never removed |
| HomePage.ChunkCount | ui/home_page.py:183-184 | the file is fed in `ceil(size / 4096)` chunks |
| HomePage.ComputeFileHash | ui/home_page.py:179-185 | the chunks hold 1 to 4096 bytes, all but the last exactly 4096, and concatenate to the whole file; the result is the hex SHA-256 of the file's bytes, or an exception when the path is not a regular file or opening or reading it raises |
| HomePage.WipeRecordFields | ui/home_page.py:130-136 | the history record has keys `file_name`, `file_hash`, `deleted_at`, `json_report_path`, `pdf_report_path`; its name is the basename, its hash the given one, its time ends in `Z`, and it holds no signature |
| HomePage.HexIsNormalized | ui/home_page.py:185 | a hex digest is already stripped and lower-case |
| HomePage.SavedHashIsFound | ui/home_page.py:130-139 | once a wipe's record is saved, the Verify page finds the hash the home page showed |
| HomePage.HomePage.constructor | ui/home_page.py:16 | the page starts with an empty `file_hash` |
| HomePage.RecordWipe | ui/home_page.py:119-137 | once the wipe succeeded: the signed report and its page are stored under the basename-derived paths, then exactly one record pointing at them is appended to the history |
| HomePage.HomePage.SelectAndWipeFile | ui/home_page.py:101-145 | a cancelled dialog or a hash whose `open` or read raises changes nothing: the file keeps its log, bytes, link and kind, and the shown hash stays as it was; the hash of the untouched file is shown before the wipe; a failed wipe or a failed key load writes no report and no record and keeps `file_hash`; after a successful wipe, the file is zeroed and unlinked, both reports are stored, exactly one record holding the pre-wipe hash is appended, and `file_hash` is that hash |

## Left out

- The Qt user interface is not modelled: widgets, dialogs, message boxes, the clipboard, the progress bar, status texts and `show_message`. The lookup's message is the `Verdict` datatype.
- `src/wipe_engine.py` is not part of this model. The `wipe_utils` functions are modelled directly. `wipe_os()` is called without an argument, so it erases `DefaultOsDevice` (`/dev/sda`).
- `ui/main.py`, `ui/navigation.py` and `ui/settings_page.py` are not part of this model. They only switch pages.
- The model does not include what `dd` and `hdparm` do to a device. Each process is only a `RunResult`.
- The `print` calls are not modelled. The prints at src/wipe_utils.py:34, 59, 67, 87, 97, 110 and 112 sit inside `try` blocks, so a print that raises (a path the console cannot encode) would turn a completed step into `False`; the model takes every print to succeed.
- WipeFile.DiskFile.Perform: a step that raises is taken to have changed nothing. A `f.write` that raises partway (a full disk, an I/O error) can leave part of the buffer written, so after a failed wipe the file's bytes are only known up to that partial write.
- RSA-PSS, SHA-256 and `os.urandom` are left as the parameters `PrivateKey`/`PublicKey`, `digest` and `rand`. The key-pair and binding properties of the signature scheme are hypotheses (`IsKeyPair`, `IsBinding`), not proved facts.
- `load_private_key` and `load_public_key` are left out, since PEM parsing belongs to the library. The home page's key is an `Option`, which is `None` when loading raises. `generate_report` never uses its `public_key_path` argument.
- JSON syntax is not modelled. Neither is a malformed history file, where `json.load` raises. Records hold string values; `json.dumps` is the parameter `serialize`, assumed one-to-one where that matters.
- The PDF drawing is left out (fonts, positions, page size). The rendered page is its title followed by its six lines.
- The IST conversion is the parameter `toIst`. Only its success or failure matters to the lookup.
- VerifyPage.Lower: lower-cases ASCII letters only, while Python's `str.lower` also folds non-ASCII letters. Stored hashes are lower-case hex, where the two agree.
- `os.path.getsize` sits outside the `try` in `wipe_file` and could raise if the file vanished between the check and the call. The model has no such race.
- The file handles and their closing by `with` are not modelled. Reopening is one `Open` step.
- Durability is not modelled: `flush` and `fsync` are logged steps with no effect of their own.
- `wipe_partition` leaves out symlinks, `os.walk`'s silent skipping of unreadable directories, and entries that are neither files nor directories. The order among siblings is the tree's listing order. The tree is assumed to have distinct names within each directory (`WellFormed`).
- WipePartition.Volume.WipePartition: requires an existing directory at the path. On a missing path or a regular file, `os.walk` yields nothing and `wipe_partition` returns `True` having removed nothing; the model does not cover that case, which the callers never reach.
- HomePage.ComputeFileHash: treats every path that is not a regular file as one whose `open` raises. A device node that opens would in fact be read; that case is left out.
- The source lets an exception from `compute_file_hash` or `generate_report` leave the Qt slot. The model turns this into the `HashFailed` and `ReportFailed` outcomes, which change nothing further. A failure while writing the report files or the history file is not modelled.
- There is no concurrency in the code, and none is modelled.
