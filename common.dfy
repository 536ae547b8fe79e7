/** Small shared vocabulary: bytes, optional values and Python-style outcomes. */
module Common {

  /** A byte, as Python's `bytes` holds them. */
  type byte = x: int | 0 <= x < 256

  datatype Option<+T> = None | Some(value: T)

  /** What a Python call does: return a value or raise an exception. */
  datatype Raising<+T, +E> = Returned(value: T) | Raised(error: E)

  /** Concatenation of a list of byte strings (`b"".join(chunks)`). */
  function Concat(chunks: seq<seq<byte>>): (r: seq<byte>)
    decreases |chunks|
  {
    if chunks == [] then [] else Concat(chunks[..|chunks| - 1]) + chunks[|chunks| - 1]
  }

  lemma {:induction false} ConcatAppend(chunks: seq<seq<byte>>, c: seq<byte>)
    ensures Concat(chunks + [c]) == Concat(chunks) + c
  {
    assert (chunks + [c])[..|chunks|] == chunks;
  }

  /** `s` ends with `suffix` (Python's `str.endswith`). */
  predicate EndsWith<T(==)>(s: seq<T>, suffix: seq<T>)
  {
    |suffix| <= |s| && s[|s| - |suffix|..] == suffix
  }

  /**
   * How many of `n` consecutive steps complete when step `k` succeeds exactly when `ok(k)`
   * and the first failure stops the sequence.
   */
  function Completed(ok: nat -> bool, n: nat): (k: nat)
    ensures k <= n
    ensures forall j :: 0 <= j < k ==> ok(j)
    ensures k < n ==> !ok(k)
    decreases n
  {
    if n == 0 then 0
    else if Completed(ok, n - 1) == n - 1 && ok(n - 1) then n
    else Completed(ok, n - 1)
  }

  /** If every step before `s` succeeds and step `s` fails, exactly `s` steps complete. */
  lemma CompletedAt(ok: nat -> bool, n: nat, s: nat)
    requires s < n && !ok(s) && forall j :: 0 <= j < s ==> ok(j)
    ensures Completed(ok, n) == s
  {
  }
}
