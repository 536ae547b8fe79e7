/**
 * The lookup behind the Verify button: normalise the query, reject it when empty, and report the
 * first history record whose normalised `file_hash` equals it, with its time for display.
 */
module VerifyPage {
  import opened Common
  import opened Json

  /** The characters Python's `str.strip()` removes: those for which `str.isspace()` holds. */
  predicate IsSpace(c: char)
  {
    c == ' ' || '\t' <= c <= '\r' || '\U{1c}' <= c <= '\U{1f}' || c == '\U{85}' || c == '\U{a0}'
    || c == '\U{1680}' || '\U{2000}' <= c <= '\U{200a}' || c == '\U{2028}' || c == '\U{2029}'
    || c == '\U{202f}' || c == '\U{205f}' || c == '\U{3000}'
  }

  function StripLeft(s: string): (r: string)
    ensures EndsWith(s, r)
    ensures r == [] || !IsSpace(r[0])
    ensures forall i :: 0 <= i < |s| - |r| ==> IsSpace(s[i])
    decreases |s|
  {
    if s != [] && IsSpace(s[0]) then StripLeft(s[1..]) else s
  }

  function StripRight(s: string): (r: string)
    ensures |r| <= |s| && r == s[..|r|]
    ensures r == [] || !IsSpace(r[|r| - 1])
    ensures forall i :: |r| <= i < |s| ==> IsSpace(s[i])
    decreases |s|
  {
    if s != [] && IsSpace(s[|s| - 1]) then StripRight(s[..|s| - 1]) else s
  }

  /** `s.strip()`: drops the leading and the trailing whitespace, so neither end is whitespace. */
  function Strip(s: string): (r: string)
    ensures r == [] || (!IsSpace(r[0]) && !IsSpace(r[|r| - 1]))
  {
    var l := StripLeft(s);
    var r := StripRight(l);
    assert r != [] ==> r[0] == l[0];
    r
  }

  /** `strip` leaves nothing exactly when the string is all whitespace. */
  lemma StripEmptyIffBlank(s: string)
    ensures Strip(s) == [] <==> forall i :: 0 <= i < |s| ==> IsSpace(s[i])
  {
    var l := StripLeft(s);
    var lo := |s| - |l|;
    assert l == s[lo..];
    if StripRight(l) == [] {
      assert l == [];
    } else {
      var r := StripRight(l);
      assert !IsSpace(s[lo + |r| - 1]) by {
        assert s[lo + |r| - 1] == l[|r| - 1];
      }
    }
  }

  function LowerChar(c: char): char
  {
    if 'A' <= c <= 'Z' then (c as int - 'A' as int + 'a' as int) as char else c
  }

  /** `s.lower()` on the ASCII letters. */
  function Lower(s: string): (r: string)
    ensures |r| == |s| && forall i :: 0 <= i < |s| ==> r[i] == LowerChar(s[i])
  {
    seq(|s|, i requires 0 <= i < |s| => LowerChar(s[i]))
  }

  function UpperChar(c: char): char
  {
    if 'a' <= c <= 'z' then (c as int - 'a' as int + 'A' as int) as char else c
  }

  /** `s.upper()` on the ASCII letters. */
  function Upper(s: string): (r: string)
    ensures |r| == |s| && forall i :: 0 <= i < |s| ==> r[i] == UpperChar(s[i])
  {
    seq(|s|, i requires 0 <= i < |s| => UpperChar(s[i]))
  }

  /** `s.strip().lower()`, applied to the query and to every stored hash. */
  function Normalize(s: string): string
  {
    Lower(Strip(s))
  }

  /**
   * The normal form is empty exactly when `s` is all whitespace (so such a query is rejected),
   * and it holds no upper-case ASCII letter.
   */
  lemma NormalizeShape(s: string)
    ensures Normalize(s) == [] <==> forall i :: 0 <= i < |s| ==> IsSpace(s[i])
    ensures forall i :: 0 <= i < |Normalize(s)| ==> !('A' <= Normalize(s)[i] <= 'Z')
  {
    StripEmptyIffBlank(s);
  }

  /** The hash a record is compared by: `record.get("file_hash", "").strip().lower()`. */
  function RecordHash(record: Object): string
  {
    Normalize(GetOr(record, "file_hash", ""))
  }

  /** The normalised hashes of the records, in history order. */
  function RecordHashes(history: seq<Object>): (hs: seq<string>)
    ensures |hs| == |history| && forall i :: 0 <= i < |history| ==> hs[i] == RecordHash(history[i])
  {
    seq(|history|, i requires 0 <= i < |history| => RecordHash(history[i]))
  }

  /** Index of the first of `hashes` equal to `query`, searching from `from`. */
  function FirstMatch(hashes: seq<string>, query: string, from: nat): (r: Option<nat>)
    requires from <= |hashes|
    ensures r.Some? ==> from <= r.value < |hashes| && hashes[r.value] == query
    ensures r.Some? ==> forall j :: from <= j < r.value ==> hashes[j] != query
    ensures r.None? ==> forall j :: from <= j < |hashes| ==> hashes[j] != query
    decreases |hashes| - from
  {
    if from == |hashes| then None
    else if hashes[from] == query then Some(from)
    else FirstMatch(hashes, query, from + 1)
  }

  /** How the deletion time is shown: converted to IST, or the stored value as it is (`None` if absent). */
  datatype ShownTime = Ist(text: string) | Raw(stored: Option<string>)

  /** The message the page shows. */
  datatype Verdict =
    | InputRequired
    | Verified(fileName: Option<string>, deletedAt: ShownTime)
    | NotFound

  /** `value.replace("Z", "+00:00")`. */
  function ReplaceZ(s: string): (r: string)
    ensures 'Z' !in r
    ensures 'Z' !in s ==> r == s
    ensures |r| >= |s|
    decreases |s|
  {
    if s == "" then ""
    else (if s[0] == 'Z' then "+00:00" else [s[0]]) + ReplaceZ(s[1..])
  }

  /** `replace` works character by character, so it distributes over concatenation. */
  lemma {:induction false} ReplaceZAppend(a: string, b: string)
    ensures ReplaceZ(a + b) == ReplaceZ(a) + ReplaceZ(b)
    decreases |a|
  {
    if a != "" {
      var t := a[1..];
      var head := if a[0] == 'Z' then "+00:00" else [a[0]];
      assert (a + b)[0] == a[0] && (a + b)[1..] == t + b;
      assert ReplaceZ(a + b) == head + ReplaceZ(t + b);
      assert ReplaceZ(a) == head + ReplaceZ(t);
      ReplaceZAppend(t, b);
    } else {
      assert a + b == b;
    }
  }

  /** Each `Z` becomes `+00:00`, so a UTC stamp `t + "Z"` with no other `Z` reads as `t + "+00:00"`. */
  lemma ReplaceTrailingZ(t: string)
    requires 'Z' !in t
    ensures ReplaceZ(t + "Z") == t + "+00:00"
  {
    ReplaceZAppend(t, "Z");
  }

  /**
   * The displayed time of a matching record. `toIst` stands for `fromisoformat`, the IST
   * conversion and `strftime`; `None` when any of them raises, and then the stored value is shown.
   * A record without `deleted_at` makes `.replace` raise, so it shows as the raw `None`.
   */
  function ShowTime(record: Object, toIst: string -> Option<string>): (t: ShownTime)
    ensures Get(record, "deleted_at").None? ==> t == Raw(None)
    ensures t.Raw? && t.stored.Some? ==> Get(record, "deleted_at") == t.stored
    ensures Get(record, "deleted_at").Some? ==>
      var stamp := Get(record, "deleted_at").value;
      t == (match toIst(ReplaceZ(stamp))
            case Some(text) => Ist(text)
            case None => Raw(Some(stamp)))
  {
    match Get(record, "deleted_at")
    case None => Raw(None)
    case Some(stamp) =>
      match toIst(ReplaceZ(stamp))
      case Some(text) => Ist(text)
      case None => Raw(Some(stamp))
  }

  /** `verify_hash()` with `input` in the text box and `history` as `load_wipe_history()` returns it. */
  function VerifyHash(input: string, history: seq<Object>, toIst: string -> Option<string>): (v: Verdict)
    ensures v == InputRequired <==> Normalize(input) == ""
    ensures v.NotFound? <==> Normalize(input) != "" && forall j :: 0 <= j < |history| ==> RecordHash(history[j]) != Normalize(input)
    ensures v.Verified? ==>
      exists i :: (0 <= i < |history| && RecordHash(history[i]) == Normalize(input)
                   && (forall j :: 0 <= j < i ==> RecordHash(history[j]) != Normalize(input))
                   && v == Verified(Get(history[i], "file_name"), ShowTime(history[i], toIst)))
  {
    var query := Normalize(input);
    if query == "" then InputRequired
    else
      FirstRecordMatch(history, query);
      match FirstMatch(RecordHashes(history), query, 0)
      case None => NotFound
      case Some(i) => Verified(Get(history[i], "file_name"), ShowTime(history[i], toIst))
  }

  /** The search over the normalised hashes, stated over the records themselves. */
  lemma FirstRecordMatch(history: seq<Object>, query: string)
    ensures var m := FirstMatch(RecordHashes(history), query, 0);
      (m.None? <==> forall j :: 0 <= j < |history| ==> RecordHash(history[j]) != query)
      && (m.Some? ==> m.value < |history| && RecordHash(history[m.value]) == query
                      && forall j :: 0 <= j < m.value ==> RecordHash(history[j]) != query)
  {
    var hs := RecordHashes(history);
    var m := FirstMatch(hs, query, 0);
    if m.Some? {
      assert hs[m.value] == query;
    }
  }

  /** Any record whose hash matches the query makes the lookup succeed. */
  lemma MatchIsFound(input: string, history: seq<Object>, toIst: string -> Option<string>, i: nat)
    requires i < |history| && Normalize(input) != "" && RecordHash(history[i]) == Normalize(input)
    ensures VerifyHash(input, history, toIst).Verified?
  {
  }

  /** A record without `file_hash` is never reported, whatever the query. */
  lemma RecordWithoutHashNeverMatches(input: string, history: seq<Object>, toIst: string -> Option<string>, i: nat)
    requires i < |history| && Get(history[i], "file_hash").None?
    ensures RecordHash(history[i]) == ""
    ensures VerifyHash(input, history, toIst).Verified? ==> RecordHash(history[i]) != Normalize(input)
  {
    assert RecordHash(history[i]) == Lower(Strip("")) == "";
  }

  lemma LowerUpper(s: string)
    ensures Lower(Upper(s)) == Lower(s)
  {
  }

  /** Whitespace around a string does not change what `strip` leaves. */
  lemma StripSurrounding(pre: string, s: string, post: string)
    requires forall i :: 0 <= i < |pre| ==> IsSpace(pre[i])
    requires forall i :: 0 <= i < |post| ==> IsSpace(post[i])
    ensures Strip(pre + s + post) == Strip(s)
  {
    assert pre + s + post == pre + (s + post);
    StripLeftPrependSpaces(pre, s + post);
    StripLeftAppendSpaces(s, post);
    if StripLeft(s) == "" {
      assert StripLeft(post) == "";
    } else {
      StripRightAppendSpaces(StripLeft(s), post);
    }
  }

  lemma {:induction false} StripLeftPrependSpaces(pre: string, s: string)
    requires forall i :: 0 <= i < |pre| ==> IsSpace(pre[i])
    ensures StripLeft(pre + s) == StripLeft(s)
    decreases |pre|
  {
    if pre != [] {
      assert (pre + s)[0] == pre[0] && (pre + s)[1..] == pre[1..] + s;
      assert forall i :: 0 <= i < |pre[1..]| ==> pre[1..][i] == pre[i + 1];
      StripLeftPrependSpaces(pre[1..], s);
    } else {
      assert pre + s == s;
    }
  }

  lemma {:induction false} StripRightAppendSpaces(s: string, post: string)
    requires forall i :: 0 <= i < |post| ==> IsSpace(post[i])
    ensures StripRight(s + post) == StripRight(s)
    decreases |post|
  {
    if post != [] {
      var p := post[..|post| - 1];
      assert (s + post)[|s + post| - 1] == post[|post| - 1];
      assert (s + post)[..|s + post| - 1] == s + p;
      assert forall i :: 0 <= i < |p| ==> p[i] == post[i];
      StripRightAppendSpaces(s, p);
    } else {
      assert s + post == s;
    }
  }

  lemma StripLeftAppendSpaces(s: string, post: string)
    requires forall i :: 0 <= i < |post| ==> IsSpace(post[i])
    ensures StripLeft(s + post) == (if StripLeft(s) == "" then StripLeft(post) else StripLeft(s) + post)
    decreases |s|
  {
    if s != [] {
      assert (s + post)[1..] == s[1..] + post;
      assert (s + post)[0] == s[0];
      if IsSpace(s[0]) {
        StripLeftAppendSpaces(s[1..], post);
      }
    }
  }

  /**
   * Matching ignores case and surrounding whitespace: a query written in upper case, padded with
   * whitespace, gets the same verdict as the query itself.
   */
  lemma QueryCaseAndSpaceInsensitive(pre: string, query: string, post: string, history: seq<Object>,
                                     toIst: string -> Option<string>)
    requires forall i :: 0 <= i < |pre| ==> IsSpace(pre[i])
    requires forall i :: 0 <= i < |post| ==> IsSpace(post[i])
    ensures VerifyHash(pre + Upper(query) + post, history, toIst) == VerifyHash(query, history, toIst)
  {
    StripSurrounding(pre, Upper(query), post);
    StripUpper(query);
    LowerUpper(Strip(query));
  }

  /** `strip` and `upper` commute: upper-casing neither creates nor removes whitespace. */
  lemma StripUpper(s: string)
    ensures Strip(Upper(s)) == Upper(Strip(s))
  {
    StripLeftUpper(s);
    StripRightUpper(StripLeft(s));
  }

  lemma UpperCharSpace(c: char)
    ensures IsSpace(UpperChar(c)) == IsSpace(c)
  {
  }

  lemma {:induction false} StripLeftUpper(s: string)
    ensures StripLeft(Upper(s)) == Upper(StripLeft(s))
    decreases |s|
  {
    if s != [] {
      UpperCharSpace(s[0]);
      assert Upper(s)[1..] == Upper(s[1..]);
      if IsSpace(s[0]) {
        StripLeftUpper(s[1..]);
      }
    }
  }

  lemma {:induction false} StripRightUpper(s: string)
    ensures StripRight(Upper(s)) == Upper(StripRight(s))
    decreases |s|
  {
    if s != [] {
      UpperCharSpace(s[|s| - 1]);
      assert Upper(s)[..|s| - 1] == Upper(s[..|s| - 1]);
      if IsSpace(s[|s| - 1]) {
        StripRightUpper(s[..|s| - 1]);
      }
    }
  }

  /** Normalising twice is normalising once. */
  lemma NormalizeIdempotent(s: string)
    ensures Normalize(Normalize(s)) == Normalize(s)
  {
    var t := Strip(s);
    var l := Lower(t);
    if t != [] {
      LowerCharSpace(t[0]);
      LowerCharSpace(t[|t| - 1]);
    }
    StripStripped(l);
    LowerLower(t);
  }

  lemma LowerCharSpace(c: char)
    ensures IsSpace(LowerChar(c)) == IsSpace(c)
  {
  }

  lemma LowerLower(s: string)
    ensures Lower(Lower(s)) == Lower(s)
  {
  }

  lemma StripStripped(s: string)
    requires s == [] || (!IsSpace(s[0]) && !IsSpace(s[|s| - 1]))
    ensures Strip(s) == s
  {
  }
}
