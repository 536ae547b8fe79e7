/**
 * The wipe history: one JSON file holding the list of saved records. Saving reads the whole
 * list, appends one record and writes the whole list back; there is no remove or edit.
 */
module WipeHistory {
  import opened Json

  class WipeLedger {
    /** Whether the history file exists. */
    var present: bool
    /** The list the file holds, when it exists. */
    var stored: seq<Object>
    /** Every write of the file, oldest first: each is the complete list written. */
    var writes: seq<seq<Object>>

    /** A ledger with no history file yet. */
    constructor ()
      ensures !present && writes == [] && Contents() == []
    {
      present := false;
      stored := [];
      writes := [];
    }

    /** What `load_wipe_history()` returns: the stored list, or `[]` when there is no file. */
    function Contents(): (h: seq<Object>)
      reads this
      ensures !present ==> h == []
    {
      if present then stored else []
    }

    /** `load_wipe_history()`. */
    method Load() returns (history: seq<Object>)
      ensures history == Contents()
      ensures !present ==> history == []
    {
      history := Contents();
    }

    /** `save_wipe_record(record)`: read all, append one, rewrite all. */
    method Save(record: Object)
      modifies this
      ensures present
      ensures Contents() == old(Contents()) + [record]
      ensures writes == old(writes) + [Contents()]
      ensures |Contents()| == |old(Contents())| + 1
      ensures forall i :: 0 <= i < |old(Contents())| ==> Contents()[i] == old(Contents())[i]
    {
      var history: seq<Object>;
      if present {
        history := stored;
      } else {
        history := [];
      }
      history := history + [record];
      stored := history;
      present := true;
      writes := writes + [history];
    }
  }

  /**
   * `save_wipe_record` called once for each of `records`, in order: the history afterwards is
   * the history before followed by all of them, in the order they were saved.
   */
  method SaveAll(ledger: WipeLedger, records: seq<Object>)
    modifies ledger
    ensures ledger.Contents() == old(ledger.Contents()) + records
    ensures |ledger.writes| == |old(ledger.writes)| + |records|
  {
    var i := 0;
    while i < |records|
      invariant 0 <= i <= |records|
      invariant ledger.Contents() == old(ledger.Contents()) + records[..i]
      invariant |ledger.writes| == |old(ledger.writes)| + i
    {
      ledger.Save(records[i]);
      assert records[..i + 1] == records[..i] + [records[i]];
      i := i + 1;
    }
    assert records[..i] == records;
  }
}
