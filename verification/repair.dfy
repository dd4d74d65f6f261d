/** The third stage of preprocessing: records are numbered from 1 (the header
    is line 1) and rewritten using the malformed map. Records not in the map
    are copied, zero-field records are dropped, and a record in the map is
    written joined with the record on the next line when that one is in the
    map too and the two field counts add up to the column count. */
module LineRepairer {
  import opened Common

  /** Dictionary lookup that yields nothing for a missing key. */
  function Get(m: map<int, Record>, k: int): Option<Record>
  {
    if k in m then Some(m[k]) else None
  }

  /** Truthiness of a looked-up record: present and non-empty. */
  predicate Truthy(o: Option<Record>)
  {
    o.Some? && |o.value| > 0
  }

  /** What the loop body writes for `line`, read at line number `idx`:
      nothing, or one row. The three branches are tried in the order the
      writer loop tries them. */
  function RowOutcome(line: Record, idx: int, corrupt: map<int, Record>, numCols: nat): (o: Option<Record>)
    ensures o.Some? ==> |o.value| > 0
    ensures o.Some? ==> (idx !in corrupt && o.value == line)
                        || (idx in corrupt && idx + 1 in corrupt
                            && o.value == corrupt[idx] + corrupt[idx + 1] && |o.value| == numCols)
  {
    if idx !in corrupt && |line| > 0 then Some(line)
    else if |line| == 0 then None
    else
      var thisLine := Get(corrupt, idx);
      var nextLine := Get(corrupt, idx + 1);
      if Truthy(thisLine) && Truthy(nextLine) && |thisLine.value| + |nextLine.value| == numCols
      then Some(thisLine.value + nextLine.value)
      else None
  }

  /** The rows written for one outcome. */
  function Emit(o: Option<Record>): seq<Record>
  {
    if o.Some? then [o.value] else []
  }

  /** The rewritten file: the outcomes of the records, in line order.
      Every written row is non-empty and is either a record of the file that
      is not in the map, or two adjacent entries of the map joined, holding
      exactly `numCols` fields. */
  function Repair(rows: seq<Record>, corrupt: map<int, Record>, numCols: nat): (out: seq<Record>)
    ensures |out| <= |rows|
    ensures forall j :: 0 <= j < |out| ==> |out[j]| > 0
    ensures forall j :: 0 <= j < |out| ==> out[j] in rows || |out[j]| == numCols
    decreases |rows|
  {
    if |rows| == 0 then []
    else
      var n := |rows|;
      Repair(rows[..n - 1], corrupt, numCols) + Emit(RowOutcome(rows[n - 1], n, corrupt, numCols))
  }

  /** The line numbers that produce a row, in increasing order: the j-th
      written row comes from line `Origins(..)[j]`. */
  function Origins(rows: seq<Record>, corrupt: map<int, Record>, numCols: nat): (src: seq<int>)
    ensures forall j :: 0 <= j < |src| ==> 1 <= src[j] <= |rows|
    ensures forall j, k :: 0 <= j < k < |src| ==> src[j] < src[k]
    ensures forall i :: 1 <= i <= |rows| ==>
              (i in src <==> RowOutcome(rows[i - 1], i, corrupt, numCols).Some?)
    decreases |rows|
  {
    if |rows| == 0 then []
    else
      var n := |rows|;
      var prior := Origins(rows[..n - 1], corrupt, numCols);
      if RowOutcome(rows[n - 1], n, corrupt, numCols).Some? then prior + [n] else prior
  }

  /** The j-th written row is the outcome of line `Origins(..)[j]`: the
      output is the sequence of outcomes taken in line order. */
  lemma {:induction false} RepairOrigins(rows: seq<Record>, corrupt: map<int, Record>, numCols: nat)
    ensures |Repair(rows, corrupt, numCols)| == |Origins(rows, corrupt, numCols)|
    ensures forall j :: 0 <= j < |Origins(rows, corrupt, numCols)| ==>
              RowOutcome(rows[Origins(rows, corrupt, numCols)[j] - 1], Origins(rows, corrupt, numCols)[j], corrupt, numCols)
              == Some(Repair(rows, corrupt, numCols)[j])
    decreases |rows|
  {
    if |rows| > 0 {
      var n := |rows|;
      var init := rows[..n - 1];
      RepairOrigins(init, corrupt, numCols);
      var src := Origins(rows, corrupt, numCols);
      var out := Repair(rows, corrupt, numCols);
      forall j | 0 <= j < |src|
        ensures RowOutcome(rows[src[j] - 1], src[j], corrupt, numCols) == Some(out[j])
      {
        if j < |Origins(init, corrupt, numCols)| {
          assert src[j] == Origins(init, corrupt, numCols)[j];
          assert rows[src[j] - 1] == init[src[j] - 1];
        }
      }
    }
  }

  /** The j-th written row is the outcome of line `Origins(..)[j]`. */
  lemma RepairOriginAt(rows: seq<Record>, corrupt: map<int, Record>, numCols: nat, j: int)
    requires 0 <= j < |Origins(rows, corrupt, numCols)|
    ensures |Repair(rows, corrupt, numCols)| == |Origins(rows, corrupt, numCols)|
    ensures RowOutcome(rows[Origins(rows, corrupt, numCols)[j] - 1], Origins(rows, corrupt, numCols)[j], corrupt, numCols)
            == Some(Repair(rows, corrupt, numCols)[j])
  {
    RepairOrigins(rows, corrupt, numCols);
  }

  /** Repairing one more line appends that line's outcome. */
  lemma RepairOneMore(rows: seq<Record>, corrupt: map<int, Record>, numCols: nat, k: nat)
    requires k < |rows|
    ensures Repair(rows[..k + 1], corrupt, numCols)
            == Repair(rows[..k], corrupt, numCols) + Emit(RowOutcome(rows[k], k + 1, corrupt, numCols))
  {
    assert rows[..k + 1][..k] == rows[..k];
  }

  /** The body of the writer loop: the rows written for `line`, read at
      line number `idx`. */
  method WriteLine(line: Record, idx: int, corrupt: map<int, Record>, numCols: nat) returns (written: seq<Record>)
    ensures written == Emit(RowOutcome(line, idx, corrupt, numCols))
  {
    written := [];
    if idx !in corrupt && |line| > 0 {
      written := [line];
    } else if |line| == 0 {
      // an empty row: nothing is written
    } else {
      var thisLine := Get(corrupt, idx);
      var nextLine := Get(corrupt, idx + 1);
      if Truthy(thisLine) && Truthy(nextLine) {
        if |thisLine.value| + |nextLine.value| == numCols {
          written := [thisLine.value + nextLine.value];
        }
      }
    }
  }

  /** The writer loop of the repair, line by line. */
  method FixBadLine(rows: seq<Record>, corrupt: map<int, Record>, numCols: nat) returns (out: seq<Record>)
    ensures out == Repair(rows, corrupt, numCols)
  {
    out := [];
    var idx := 1;
    while idx <= |rows|
      invariant 1 <= idx <= |rows| + 1
      invariant out == Repair(rows[..idx - 1], corrupt, numCols)
    {
      var written := WriteLine(rows[idx - 1], idx, corrupt, numCols);
      out := out + written;
      RepairOneMore(rows, corrupt, numCols, idx - 1);
      idx := idx + 1;
    }
    assert rows[..|rows|] == rows;
  }
}
