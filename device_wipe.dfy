/**
 * Whole-device erasure through external tools. Each tool invocation is `subprocess.run(argv,
 * check=True)`: it either exits with status 0, exits with another status (raising
 * `CalledProcessError`), or cannot be started at all (raising an `OSError`). What the tools do
 * to the device is theirs and is not modelled; the order of invocations and the stop rules are.
 */
module DeviceWipe {
  import opened Common

  type Argv = seq<string>

  /** The source a `dd` pass copies from. */
  datatype Pattern = Urandom | Zero

  function Source(p: Pattern): string
  {
    match p
    case Urandom => "/dev/urandom"
    case Zero => "/dev/zero"
  }

  /**
   * The three passes of the Clear method of NIST SP 800-88 Rev. 1 (section 2.5) as both device
   * wipes run them: random data, zeros, random data again.
   */
  const ClearPatterns: seq<Pattern> := [Urandom, Zero, Urandom]

  /** The device `wipe_os()` erases when called without an argument, as the engine calls it. */
  const DefaultOsDevice: string := "/dev/sda"

  /** The temporary password the SSD erase sets and then erases with. */
  const SsdPassword: string := "ByteShift"

  /** A pass of `wipe_disk_nist_compliant`: `sudo dd`, no forced sync. */
  function NistDdArgv(p: Pattern, device: string): Argv
  {
    ["sudo", "dd", "if=" + Source(p), "of=" + device, "bs=1M", "status=progress"]
  }

  /** A pass of `wipe_os`: `dd` with `conv=fsync`, so the pass ends only once its writes are on disk. */
  function OsDdArgv(p: Pattern, device: string): Argv
  {
    ["dd", "if=" + Source(p), "of=" + device, "bs=1M", "status=progress", "conv=fsync"]
  }

  /** `hdparm --security-set-pass` with the temporary password, on the device. */
  function SetPasswordArgv(device: string): Argv
  {
    ["sudo", "hdparm", "--user-master", "u", "--security-set-pass", SsdPassword, device]
  }

  /** `hdparm --security-erase` with the temporary password, on the device. */
  function EraseArgv(device: string): Argv
  {
    ["sudo", "hdparm", "--security-erase", SsdPassword, device]
  }

  /** How a launched process ended. */
  datatype RunResult = Exited(code: int) | NotStarted(reason: string)

  /** The exceptions `subprocess.run(argv, check=True)` raises. */
  datatype ProcessError = CalledProcessError(returncode: int, cmd: Argv) | OSError(reason: string)

  predicate Succeeds(r: RunResult)
  {
    r == Exited(0)
  }

  /** `subprocess.run(argv, check=True)`: `None` when it returns, the exception it raises otherwise. */
  function CheckRun(argv: Argv, r: RunResult): (e: Option<ProcessError>)
    ensures e.None? <==> Succeeds(r)
  {
    match r
    case Exited(code) => if code == 0 then None else Some(CalledProcessError(code, argv))
    case NotStarted(reason) => Some(OSError(reason))
  }

  /**
   * `wipe_os(device)`. The `i`-th process it launches ends as `run(i)`. Passes run in the order
   * urandom, zero, urandom; the first pass that fails ends the wipe with `False`, and no later
   * pass is launched. `True` only after all three passes succeeded.
   */
  method WipeOs(device: string, run: nat -> RunResult) returns (wiped: bool, launched: seq<Argv>)
    ensures 1 <= |launched| <= |ClearPatterns|
    ensures forall i :: 0 <= i < |launched| ==> launched[i] == OsDdArgv(ClearPatterns[i], device)
    ensures forall i :: 0 <= i < |launched| - 1 ==> Succeeds(run(i))
    ensures wiped <==> |launched| == |ClearPatterns| && Succeeds(run(|ClearPatterns| - 1))
    ensures !wiped ==> !Succeeds(run(|launched| - 1))
  {
    launched := [];
    var idx := 0;
    while idx < |ClearPatterns|
      invariant 0 <= idx <= |ClearPatterns| && |launched| == idx
      invariant forall i :: 0 <= i < idx ==> launched[i] == OsDdArgv(ClearPatterns[i], device)
      invariant forall i :: 0 <= i < idx ==> Succeeds(run(i))
    {
      var argv := OsDdArgv(ClearPatterns[idx], device);
      launched := launched + [argv];
      var error := CheckRun(argv, run(idx));
      if error.Some? {
        return false, launched;
      }
      idx := idx + 1;
    }
    wiped := true;
  }

  /**
   * `wipe_disk_nist_compliant(device)`: the same three passes, but nothing is caught. It returns
   * `True` after all three passes, or raises the exception of the first failing pass; it never
   * returns `False`.
   */
  method WipeDiskNist(device: string, run: nat -> RunResult)
    returns (outcome: Raising<bool, ProcessError>, launched: seq<Argv>)
    ensures 1 <= |launched| <= |ClearPatterns|
    ensures forall i :: 0 <= i < |launched| ==> launched[i] == NistDdArgv(ClearPatterns[i], device)
    ensures forall i :: 0 <= i < |launched| - 1 ==> Succeeds(run(i))
    ensures outcome != Returned(false)
    ensures outcome == Returned(true) <==> |launched| == |ClearPatterns| && Succeeds(run(|ClearPatterns| - 1))
    ensures outcome.Raised? ==> Some(outcome.error) == CheckRun(launched[|launched| - 1], run(|launched| - 1))
  {
    launched := [];
    for idx := 0 to |ClearPatterns|
      invariant |launched| == idx
      invariant forall i :: 0 <= i < idx ==> launched[i] == NistDdArgv(ClearPatterns[i], device)
      invariant forall i :: 0 <= i < idx ==> Succeeds(run(i))
    {
      var argv := NistDdArgv(ClearPatterns[idx], device);
      launched := launched + [argv];
      var error := CheckRun(argv, run(idx));
      if error.Some? {
        return Raised(error.value), launched;
      }
    }
    outcome := Returned(true);
  }

  /**
   * `secure_erase_ssd_nist(device)`: set the temporary password, then erase with it. The erase is
   * launched only after the password was set; `True` exactly when both succeed. Nothing is
   * launched after a failure: the password is not cleared.
   */
  method SecureEraseSsd(device: string, run: nat -> RunResult) returns (erased: bool, launched: seq<Argv>)
    ensures |launched| == (if Succeeds(run(0)) then 2 else 1)
    ensures launched[0] == SetPasswordArgv(device)
    ensures |launched| == 2 ==> launched[1] == EraseArgv(device)
    ensures erased <==> Succeeds(run(0)) && Succeeds(run(1))
  {
    launched := [SetPasswordArgv(device)];
    var error := CheckRun(SetPasswordArgv(device), run(0));
    if error.Some? {
      return false, launched;
    }
    launched := launched + [EraseArgv(device)];
    error := CheckRun(EraseArgv(device), run(1));
    erased := error.None?;
  }

  /** Both device wipes write the Clear patterns in the same order, to the same device. */
  lemma SamePassOrder(device: string, i: nat)
    requires i < |ClearPatterns|
    ensures NistDdArgv(ClearPatterns[i], device)[2..4] == OsDdArgv(ClearPatterns[i], device)[1..3]
    ensures ClearPatterns[i] == (if i == 1 then Zero else Urandom)
  {
  }

  /** The password the erase is given is the one set just before. */
  lemma ErasePasswordIsSetPassword(device: string)
    ensures SetPasswordArgv(device)[5] == EraseArgv(device)[3] == SsdPassword
  {
  }

  /**
   * A `dd` pass of either wipe copies from the pattern's source onto the device. `wipe_os` runs
   * `dd` directly and forces every write to disk (`conv=fsync`); the NIST wipe runs it under
   * `sudo` and does not force a sync.
   */
  lemma DdArgvs(p: Pattern, device: string)
    ensures var os := OsDdArgv(p, device);
      os[0] == "dd" && "sudo" !in os && "if=" + Source(p) in os && "of=" + device in os && "conv=fsync" in os
    ensures var nist := NistDdArgv(p, device);
      nist[..2] == ["sudo", "dd"] && "if=" + Source(p) in nist && "of=" + device in nist && "conv=fsync" !in nist
  {
    var target := "of=" + device;
    assert target[0] == 'o';
  }

  /**
   * Both `hdparm` calls run under `sudo` on the device with the temporary password: the first
   * only sets it, the second only erases.
   */
  lemma HdparmArgvs(device: string)
    ensures var setPass := SetPasswordArgv(device);
      setPass[..2] == ["sudo", "hdparm"] && setPass[|setPass| - 1] == device && SsdPassword in setPass
      && "--security-set-pass" in setPass && "--security-erase" !in setPass[..|setPass| - 1]
    ensures var erase := EraseArgv(device);
      erase[..2] == ["sudo", "hdparm"] && erase[|erase| - 1] == device && SsdPassword in erase
      && "--security-erase" in erase && "--security-set-pass" !in erase[..|erase| - 1]
  {
  }
}
