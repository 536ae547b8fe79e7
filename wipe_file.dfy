/**
 * `wipe_file`: overwrite a regular file `passes` times with random bytes and once with zeros,
 * forcing every write to disk, then remove it. Each I/O call is an abstract step that succeeds
 * or raises; the first one that raises ends the wipe with `False`.
 */
module WipeFile {
  import opened Common

  /** The number of random passes `wipe_file` makes when none is given. */
  const DefaultPasses: int := 3

  /** The file operations `wipe_file` performs, in the order it performs them. */
  datatype FileOp =
    | Open            // open(file_path, "r+b")
    | Seek            // f.seek(0)
    | WriteRandom(pass: nat)  // f.write(os.urandom(file_size)) in random pass `pass`
    | WriteZeros      // f.write(b"\x00" * file_size)
    | Flush           // f.flush()
    | Fsync           // os.fsync(f.fileno())
    | Remove          // os.remove(file_path)

  /** The number of random passes `range(passes)` makes. */
  function PassCount(passes: int): nat
  {
    if passes < 0 then 0 else passes
  }

  /** Step `k` (0 to 3) of random pass `p`. */
  function PassOp(p: nat, k: int): FileOp
  {
    if k == 0 then Seek else if k == 1 then WriteRandom(p) else if k == 2 then Flush else Fsync
  }

  /** The zero pass after reopening, then the removal. */
  const Finish: seq<FileOp> := [Open, Seek, WriteZeros, Flush, Fsync, Remove]

  /** Operation `i` of the plan for `n` random passes. */
  function PlanOp(n: nat, i: nat): FileOp
  {
    if i == 0 then Open
    else if i < 1 + 4 * n then PassOp((i - 1) / 4, (i - 1) % 4)
    else if i - 1 - 4 * n < |Finish| then Finish[i - 1 - 4 * n]
    else Remove
  }

  /** Everything `wipe_file(path, passes)` does to a regular file when no step raises. */
  function Plan(passes: int): (plan: seq<FileOp>)
    ensures |plan| == 4 * PassCount(passes) + 7
  {
    var n := PassCount(passes);
    seq(4 * n + 7, i requires 0 <= i < 4 * n + 7 => PlanOp(n, i))
  }

  /** What one operation does to the file's bytes: the two writes cover its whole extent from offset 0. */
  function Effect(content: seq<byte>, op: FileOp, rand: (nat, nat) -> byte): (r: seq<byte>)
    ensures |r| == |content|
  {
    match op
    case WriteRandom(p) => seq(|content|, i requires 0 <= i < |content| => rand(p, i))
    case WriteZeros => seq(|content|, i requires 0 <= i < |content| => 0)
    case _ => content
  }

  /** The file's bytes after `ops`, starting from `content`. */
  function ContentAfter(content: seq<byte>, ops: seq<FileOp>, rand: (nat, nat) -> byte): (r: seq<byte>)
    ensures |r| == |content|
    decreases |ops|
  {
    if ops == [] then content
    else Effect(ContentAfter(content, ops[..|ops| - 1], rand), ops[|ops| - 1], rand)
  }

  /** The number of random writes in `ops`. */
  function RandomWrites(ops: seq<FileOp>): nat
    decreases |ops|
  {
    if ops == [] then 0
    else RandomWrites(ops[..|ops| - 1]) + (if ops[|ops| - 1].WriteRandom? then 1 else 0)
  }

  lemma {:induction false} RandomWritesAppend(a: seq<FileOp>, b: seq<FileOp>)
    ensures RandomWrites(a + b) == RandomWrites(a) + RandomWrites(b)
    decreases |b|
  {
    if b == [] {
      assert a + b == a;
    } else {
      assert (a + b)[..|a + b| - 1] == a + b[..|b| - 1];
      RandomWritesAppend(a, b[..|b| - 1]);
    }
  }

  /** The plan makes exactly `max(passes, 0)` random passes. */
  lemma RandomPassCount(passes: int)
    ensures RandomWrites(Plan(passes)) == PassCount(passes)
  {
    var plan, n := Plan(passes), PassCount(passes);
    PassesBefore(passes, n);
    FinishAt(passes);
    assert plan == plan[..1 + 4 * n] + Finish;
    RandomWritesAppend(plan[..1 + 4 * n], Finish);
    NoPassInFinish();
  }

  /** Before random pass `p` starts, the plan has made `p` random writes. */
  lemma {:induction false} PassesBefore(passes: int, p: nat)
    requires p <= PassCount(passes)
    ensures RandomWrites(Plan(passes)[..1 + 4 * p]) == p
  {
    var plan := Plan(passes);
    if p == 0 {
      assert plan[..1] == [Open] && [Open][..0] == [];
    } else {
      PassesBefore(passes, p - 1);
      var pass := [Seek, WriteRandom(p - 1), Flush, Fsync];
      PassSlice(passes, p - 1);
      RandomWritesAppend(plan[..1 + 4 * (p - 1)], pass);
      OnePass(p - 1);
    }
  }

  /** The plan up to the end of random pass `p` is the plan up to its start followed by its four steps. */
  lemma PassSlice(passes: int, p: nat)
    requires p < PassCount(passes)
    ensures Plan(passes)[..5 + 4 * p] == Plan(passes)[..1 + 4 * p] + [Seek, WriteRandom(p), Flush, Fsync]
  {
    PassAt(passes, p);
  }

  lemma RandomWritesSnoc(s: seq<FileOp>, op: FileOp)
    ensures RandomWrites(s + [op]) == RandomWrites(s) + (if op.WriteRandom? then 1 else 0)
  {
    assert (s + [op])[..|s|] == s;
  }

  lemma OnePass(p: nat)
    ensures RandomWrites([Seek, WriteRandom(p), Flush, Fsync]) == 1
  {
    RandomWritesSnoc([], Seek);
    assert [] + [Seek] == [Seek];
    RandomWritesSnoc([Seek], WriteRandom(p));
    assert [Seek] + [WriteRandom(p)] == [Seek, WriteRandom(p)];
    RandomWritesSnoc([Seek, WriteRandom(p)], Flush);
    assert [Seek, WriteRandom(p)] + [Flush] == [Seek, WriteRandom(p), Flush];
    RandomWritesSnoc([Seek, WriteRandom(p), Flush], Fsync);
    assert [Seek, WriteRandom(p), Flush] + [Fsync] == [Seek, WriteRandom(p), Flush, Fsync];
  }

  lemma NoPassInFinish()
    ensures RandomWrites(Finish) == 0
  {
    RandomWritesSnoc([], Open);
    assert [] + [Open] == [Open];
    RandomWritesSnoc([Open], Seek);
    assert [Open] + [Seek] == [Open, Seek];
    RandomWritesSnoc([Open, Seek], WriteZeros);
    assert [Open, Seek] + [WriteZeros] == [Open, Seek, WriteZeros];
    RandomWritesSnoc([Open, Seek, WriteZeros], Flush);
    assert [Open, Seek, WriteZeros] + [Flush] == [Open, Seek, WriteZeros, Flush];
    RandomWritesSnoc([Open, Seek, WriteZeros, Flush], Fsync);
    assert [Open, Seek, WriteZeros, Flush] + [Fsync] == [Open, Seek, WriteZeros, Flush, Fsync];
    RandomWritesSnoc([Open, Seek, WriteZeros, Flush, Fsync], Remove);
    assert [Open, Seek, WriteZeros, Flush, Fsync] + [Remove] == [Open, Seek, WriteZeros, Flush, Fsync, Remove];
  }

  /** Every write in the plan is followed by a flush and an fsync. */
  lemma EveryWriteIsSynced(passes: int, i: nat)
    requires i < |Plan(passes)| && (Plan(passes)[i].WriteRandom? || Plan(passes)[i] == WriteZeros)
    ensures i + 2 < |Plan(passes)| && Plan(passes)[i + 1] == Flush && Plan(passes)[i + 2] == Fsync
  {
  }

  /** Where the four steps of random pass `p` sit in the plan. */
  lemma PassAt(passes: int, p: nat)
    requires p < PassCount(passes)
    ensures var plan := Plan(passes);
      plan[1 + 4 * p] == Seek && plan[2 + 4 * p] == WriteRandom(p) && plan[3 + 4 * p] == Flush && plan[4 + 4 * p] == Fsync
  {
    var i := 1 + 4 * p;
    assert (i - 1) / 4 == p && (i - 1) % 4 == 0;
    assert (i + 1 - 1) / 4 == p && (i + 1 - 1) % 4 == 1;
    assert (i + 2 - 1) / 4 == p && (i + 2 - 1) % 4 == 2;
    assert (i + 3 - 1) / 4 == p && (i + 3 - 1) % 4 == 3;
  }

  /** The plan opens the file first and ends with the zero pass and the removal. */
  lemma FinishAt(passes: int)
    ensures var n := PassCount(passes); var plan := Plan(passes);
      plan[0] == Open && plan[1 + 4 * n..] == Finish
  {
    var n := PassCount(passes);
    var plan := Plan(passes);
    var tail := plan[1 + 4 * n..];
    assert forall i :: 0 <= i < |Finish| ==> tail[i] == PlanOp(n, 1 + 4 * n + i);
  }

  /** Where the steps of the final zero pass and the removal sit in the plan. */
  lemma FinishOps(passes: int)
    ensures var n := PassCount(passes); var plan := Plan(passes);
      plan[0] == Open
      && plan[1 + 4 * n] == Open && plan[2 + 4 * n] == Seek && plan[3 + 4 * n] == WriteZeros
      && plan[4 + 4 * n] == Flush && plan[5 + 4 * n] == Fsync && plan[6 + 4 * n] == Remove
  {
    FinishAt(passes);
    var n := PassCount(passes);
    var tail := Plan(passes)[1 + 4 * n..];
    assert tail[0] == Open && tail[1] == Seek && tail[2] == WriteZeros;
    assert tail[3] == Flush && tail[4] == Fsync && tail[5] == Remove;
  }

  /** The random passes come first, in order; the zero pass is the last write and is followed by the removal. */
  lemma PlanOrder(passes: int)
    ensures forall p :: 0 <= p < PassCount(passes) ==> Plan(passes)[2 + 4 * p] == WriteRandom(p)
    ensures var plan := Plan(passes);
      plan[|plan| - 4] == WriteZeros && plan[|plan| - 1] == Remove
      && forall i :: 0 <= i < |plan| - 1 ==> plan[i] != Remove
  {
  }

  predicate AllZero(s: seq<byte>)
  {
    forall i :: 0 <= i < |s| ==> s[i] == 0
  }

  /** Immediately before the removal the file holds only zeros, whatever it held before. */
  lemma ZerosBeforeRemove(content: seq<byte>, passes: int, rand: (nat, nat) -> byte)
    ensures var plan := Plan(passes); AllZero(ContentAfter(content, plan[..|plan| - 1], rand))
  {
    var plan := Plan(passes);
    var m := |plan|;
    FinishOps(passes);
    assert plan[..m - 1][..m - 2] == plan[..m - 2] && plan[..m - 1][m - 2] == Fsync;
    assert plan[..m - 2][..m - 3] == plan[..m - 3] && plan[..m - 2][m - 3] == Flush;
    assert plan[..m - 3][..m - 4] == plan[..m - 4] && plan[..m - 3][m - 4] == WriteZeros;
    assert ContentAfter(content, plan[..m - 1], rand) == ContentAfter(content, plan[..m - 3], rand);
  }

  /** A file on disk, as `wipe_file` sees it through its path. */
  class DiskFile {
    const path: string
    /** The path names a directory entry. */
    var linked: bool
    /** The entry is a regular file (not a directory or device). */
    var regular: bool
    /** The file's bytes; writes at offset 0 of `file_size` bytes never change its length. */
    const data: array<byte>
    /** The operations performed on the file so far, each one that completed. */
    var log: seq<FileOp>

    constructor (path: string, regular: bool, content: seq<byte>)
      ensures this.path == path && linked && this.regular == regular
      ensures data[..] == content && fresh(data) && log == []
    {
      this.path := path;
      linked := true;
      this.regular := regular;
      data := new byte[|content|](i requires 0 <= i < |content| => content[i]);
      log := [];
    }

    /** `os.path.isfile(path)`. */
    predicate IsFile()
      reads this
    {
      linked && regular
    }

    /** The state `wipe_file` has reached after the first `step` operations of `plan`, all of which completed. */
    ghost predicate Reached(log0: seq<FileOp>, content0: seq<byte>, plan: seq<FileOp>, step: nat,
                            ok: nat -> bool, rand: (nat, nat) -> byte)
      reads this, data
    {
      step <= |plan| && log == log0 + plan[..step] && data[..] == ContentAfter(content0, plan[..step], rand)
      && (forall j :: 0 <= j < step ==> ok(j)) && linked && regular
    }

    /** `wipe_file` stopped because step `step` raised, after the steps before it completed. */
    ghost predicate Stopped(log0: seq<FileOp>, content0: seq<byte>, plan: seq<FileOp>, step: nat,
                            ok: nat -> bool, rand: (nat, nat) -> byte)
      reads this, data
    {
      Reached(log0, content0, plan, step, ok, rand) && step < |plan| && !ok(step)
    }

    /** Write `pattern(i)` over every byte, in place. */
    method Overwrite(pattern: nat -> byte)
      modifies data
      ensures forall i :: 0 <= i < data.Length ==> data[i] == pattern(i)
    {
      for i := 0 to data.Length
        invariant forall j :: 0 <= j < i ==> data[j] == pattern(j)
      {
        data[i] := pattern(i);
      }
    }

    /**
     * Perform `op`, step `step` of `plan`, which succeeds exactly when `ok(step)`. A step that
     * raises changes nothing; one that completes is logged and has its effect.
     */
    method Perform(op: FileOp, ghost log0: seq<FileOp>, ghost content0: seq<byte>, ghost plan: seq<FileOp>,
                   step: nat, ok: nat -> bool, rand: (nat, nat) -> byte) returns (done: bool)
      requires Reached(log0, content0, plan, step, ok, rand)
      requires step < |plan| && plan[step] == op && op != Remove
      modifies this, data
      ensures done == ok(step)
      ensures done ==> Reached(log0, content0, plan, step + 1, ok, rand)
      ensures !done ==> Stopped(log0, content0, plan, step, ok, rand)
    {
      if !ok(step) {
        return false;
      }
      ghost var before := data[..];
      match op {
        case WriteRandom(p) => Overwrite(i => rand(p, i));
        case WriteZeros => Overwrite(i => 0);
        case _ =>
      }
      log := log + [op];
      assert plan[..step + 1][..step] == plan[..step];
      assert data[..] == Effect(before, op, rand);
      done := true;
    }

    /** A write of the whole extent followed by `flush` and `fsync`: steps `step` to `step + 2`. */
    method DurableWrite(write: FileOp, ghost log0: seq<FileOp>, ghost content0: seq<byte>, ghost plan: seq<FileOp>,
                        step: nat, ok: nat -> bool, rand: (nat, nat) -> byte) returns (done: bool, ghost stop: nat)
      requires Reached(log0, content0, plan, step, ok, rand)
      requires step + 2 < |plan| && plan[step] == write && plan[step + 1] == Flush && plan[step + 2] == Fsync
      requires write.WriteRandom? || write.WriteZeros?
      modifies this, data
      ensures done ==> Reached(log0, content0, plan, step + 3, ok, rand)
      ensures !done ==> Stopped(log0, content0, plan, stop, ok, rand)
    {
      done := Perform(write, log0, content0, plan, step, ok, rand);
      if !done { return false, step; }
      done := Perform(Flush, log0, content0, plan, step + 1, ok, rand);
      if !done { return false, step + 1; }
      done := Perform(Fsync, log0, content0, plan, step + 2, ok, rand);
      if !done { return false, step + 2; }
      return true, 0;
    }

    /** `os.remove(path)`, the last step `step` of `plan`: it unlinks the entry and leaves the bytes alone. */
    method Unlink(ghost log0: seq<FileOp>, ghost content0: seq<byte>, ghost plan: seq<FileOp>,
                  step: nat, ok: nat -> bool, rand: (nat, nat) -> byte) returns (done: bool)
      requires Reached(log0, content0, plan, step, ok, rand)
      requires step + 1 == |plan| && plan[step] == Remove
      modifies this
      ensures done == ok(step) && regular == old(regular)
      ensures data[..] == old(data[..])
      ensures done ==> log == log0 + plan[..step + 1] && data[..] == ContentAfter(content0, plan[..step + 1], rand)
                       && !linked
      ensures !done ==> Stopped(log0, content0, plan, step, ok, rand)
    {
      if !ok(step) {
        return false;
      }
      linked := false;
      log := log + [Remove];
      assert plan[..step + 1] == plan[..step] + [Remove];
      done := true;
    }

    /** One iteration of the random-pass loop: `f.seek(0)`, then a durable write of `os.urandom(file_size)`. */
    method RandomPass(p: nat, step: nat, ghost log0: seq<FileOp>, ghost content0: seq<byte>, ghost passes: int,
                      ok: nat -> bool, rand: (nat, nat) -> byte) returns (done: bool, ghost stop: nat)
      requires p < PassCount(passes) && step == 1 + 4 * p
      requires Reached(log0, content0, Plan(passes), step, ok, rand)
      modifies this, data
      ensures done ==> Reached(log0, content0, Plan(passes), step + 4, ok, rand)
      ensures !done ==> Stopped(log0, content0, Plan(passes), stop, ok, rand)
    {
      PassAt(passes, p);
      done := Perform(Seek, log0, content0, Plan(passes), step, ok, rand);
      if !done { return false, step; }
      done, stop := DurableWrite(WriteRandom(p), log0, content0, Plan(passes), step + 1, ok, rand);
    }

    /** The `for p in range(passes)` loop: seek, then a durable random write, `n` times. */
    method RandomPasses(n: nat, ghost log0: seq<FileOp>, ghost content0: seq<byte>, ghost passes: int,
                        ok: nat -> bool, rand: (nat, nat) -> byte) returns (done: bool, ghost stop: nat)
      requires n == PassCount(passes)
      requires Reached(log0, content0, Plan(passes), 1, ok, rand)
      modifies this, data
      ensures done ==> Reached(log0, content0, Plan(passes), 1 + 4 * n, ok, rand)
      ensures !done ==> Stopped(log0, content0, Plan(passes), stop, ok, rand)
    {
      ghost var plan := Plan(passes);
      var step := 1;
      var p := 0;
      while p < n
        invariant 0 <= p <= n && step == 1 + 4 * p
        invariant Reached(log0, content0, plan, step, ok, rand)
      {
        done, stop := RandomPass(p, step, log0, content0, passes, ok, rand);
        if !done { return; }
        step := step + 4;
        p := p + 1;
      }
      return true, 0;
    }

    /** The second `with` block: reopen, seek, then a durable write of zeros. */
    method ZeroPass(n: nat, ghost log0: seq<FileOp>, ghost content0: seq<byte>, ghost passes: int,
                    ok: nat -> bool, rand: (nat, nat) -> byte) returns (done: bool, ghost stop: nat)
      requires n == PassCount(passes)
      requires Reached(log0, content0, Plan(passes), 1 + 4 * n, ok, rand)
      modifies this, data
      ensures done ==> Reached(log0, content0, Plan(passes), 6 + 4 * n, ok, rand)
      ensures !done ==> Stopped(log0, content0, Plan(passes), stop, ok, rand)
    {
      ghost var plan := Plan(passes);
      var step := 1 + 4 * n;
      FinishOps(passes);
      done := Perform(Open, log0, content0, plan, step, ok, rand);
      if !done { return false, step; }
      done := Perform(Seek, log0, content0, plan, step + 1, ok, rand);
      if !done { return false, step + 1; }
      done, stop := DurableWrite(WriteZeros, log0, content0, plan, step + 2, ok, rand);
    }

    /** Open, the random passes, then the zero pass: every step of the plan before the removal. */
    method Overwrites(n: nat, ghost log0: seq<FileOp>, ghost content0: seq<byte>, ghost passes: int,
                      ok: nat -> bool, rand: (nat, nat) -> byte) returns (done: bool, ghost stop: nat)
      requires n == PassCount(passes)
      requires Reached(log0, content0, Plan(passes), 0, ok, rand)
      modifies this, data
      ensures done ==> Reached(log0, content0, Plan(passes), 6 + 4 * n, ok, rand)
      ensures !done ==> Stopped(log0, content0, Plan(passes), stop, ok, rand)
    {
      FinishOps(passes);
      done := Perform(Open, log0, content0, Plan(passes), 0, ok, rand);
      if !done { return false, 0; }
      done, stop := RandomPasses(n, log0, content0, passes, ok, rand);
      if !done { return; }
      done, stop := ZeroPass(n, log0, content0, passes, ok, rand);
    }

    /** The body of `wipe_file` for a regular file: every step of the plan in order, until one raises. */
    method RunPlan(ghost log0: seq<FileOp>, ghost content0: seq<byte>, passes: int,
                   ok: nat -> bool, rand: (nat, nat) -> byte) returns (done: bool, ghost stop: nat)
      requires Reached(log0, content0, Plan(passes), 0, ok, rand)
      modifies this, data
      ensures regular == old(regular)
      ensures done ==> var plan := Plan(passes);
        log == log0 + plan[..|plan|] && data[..] == ContentAfter(content0, plan[..|plan|], rand) && !linked
        && (forall j :: 0 <= j < |plan| ==> ok(j)) && AllZero(data[..])
      ensures !done ==> Stopped(log0, content0, Plan(passes), stop, ok, rand)
    {
      var n := PassCount(passes);
      ghost var plan := Plan(passes);
      done, stop := Overwrites(n, log0, content0, passes, ok, rand);
      if !done { return; }
      FinishOps(passes);
      ZerosBeforeRemove(content0, passes, rand);
      done := Unlink(log0, content0, plan, 6 + 4 * n, ok, rand);
      stop := 6 + 4 * n;
    }

    /**
     * `wipe_file(path, passes)`. Step `k` of the plan succeeds exactly when `ok(k)`; random pass
     * `p` writes `rand(p, i)` at offset `i`. On `True` every step completed, the file was left
     * all zeros and its entry is gone; on `False` nothing after the failing step was attempted.
     */
    method WipeFile(passes: int, ok: nat -> bool, rand: (nat, nat) -> byte) returns (wiped: bool)
      modifies this, data
      ensures !old(IsFile()) ==> !wiped && log == old(log) && data[..] == old(data[..]) && linked == old(linked)
      ensures old(IsFile()) ==>
        var plan := Plan(passes);
        var k := Completed(ok, |plan|);
        log == old(log) + plan[..k] && data[..] == ContentAfter(old(data[..]), plan[..k], rand)
        && wiped == (k == |plan|) && linked == !wiped
      ensures wiped ==> AllZero(data[..])
      ensures regular == old(regular)
    {
      if !(linked && regular) {
        return false;
      }
      ghost var plan := Plan(passes);
      ghost var log0, content0 := log, data[..];
      assert plan[..0] == [];
      var done;
      ghost var stop;
      done, stop := RunPlan(log0, content0, passes, ok, rand);
      if done {
        assert plan[..|plan|] == plan;
      } else {
        CompletedAt(ok, |plan|, stop);
      }
      wiped := done;
    }
  }
}
