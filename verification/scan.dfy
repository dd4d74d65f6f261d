/** The second stage of preprocessing: the header fixes the column count and
    every later record is classified by how many of its fields are populated. */
module Scan {
  import opened Common

  /** Number of non-empty fields of a record. */
  function Populated(r: Record): (n: nat)
    ensures n <= |r|
  {
    if |r| == 0 then 0 else (if r[0] != "" then 1 else 0) + Populated(r[1..])
  }

  /** No field is populated exactly when every field is empty, and all are
      exactly when none is empty. */
  lemma {:induction false} PopulatedExtremes(r: Record)
    ensures Populated(r) == 0 <==> forall i :: 0 <= i < |r| ==> r[i] == ""
    ensures Populated(r) == |r| <==> forall i :: 0 <= i < |r| ==> r[i] != ""
    decreases |r|
  {
    if |r| > 0 {
      PopulatedExtremes(r[1..]);
      assert forall i :: 1 <= i < |r| ==> r[i] == r[1..][i - 1];
    }
  }

  /** Indices of the populated fields of a record. */
  function PopulatedIndices(r: Record): set<int>
  {
    set i | 0 <= i < |r| && r[i] != ""
  }

  /** The populated count of a record split in two is the sum of the counts
      of its parts. */
  lemma {:induction false} PopulatedAppend(a: Record, b: Record)
    ensures Populated(a + b) == Populated(a) + Populated(b)
    decreases |a|
  {
    if |a| == 0 {
      assert a + b == b;
    } else {
      assert (a + b)[1..] == a[1..] + b;
      PopulatedAppend(a[1..], b);
    }
  }

  /** The populated count is the number of positions holding a non-empty
      field. */
  lemma {:induction false} PopulatedIsCardinality(r: Record)
    ensures Populated(r) == |PopulatedIndices(r)|
    decreases |r|
  {
    if |r| > 0 {
      var n := |r| - 1;
      var init := r[..n];
      PopulatedIsCardinality(init);
      assert r == init + [r[n]];
      PopulatedAppend(init, [r[n]]);
      assert [r[n]][1..] == [];
      if r[n] != "" {
        assert PopulatedIndices(r) == PopulatedIndices(init) + {n};
      } else {
        assert PopulatedIndices(r) == PopulatedIndices(init);
      }
    }
  }

  /** The record at 1-based line number `i`; the header is line 1. */
  function Line(rows: seq<Record>, i: int): Record
    requires 1 <= i <= |rows|
  {
    rows[i - 1]
  }

  /** A record with some but not all of `length` fields populated. */
  predicate Malformed(r: Record, length: nat)
    ensures Malformed(r, length) ==> 0 < |r| && 2 <= length
  {
    0 < Populated(r) < length
  }

  /** The classification the scan is meant to compute: 1-based line number
      (the header is line 1) to record, for every data record that is
      malformed against the header's field count. */
  function MalformedIndex(rows: seq<Record>): (m: map<int, Record>)
    requires |rows| > 0
    ensures forall k :: k in m ==> 2 <= k <= |rows| && m[k] == Line(rows, k)
  {
    map i | 2 <= i <= |rows| && Malformed(Line(rows, i), |rows[0]|) :: Line(rows, i)
  }

  /** What the scan returns: the header's field count and the malformed map. */
  datatype ScanResult = ScanResult(length: nat, malformed: map<int, Record>)

  /** Reads the header, then numbers the data records from 2 and puts each
      malformed one in the map. A file with no record has no header to read. */
  method ScanRows(rows: seq<Record>) returns (r: Result<ScanResult, Error>)
    ensures r.Failure? <==> |rows| == 0
    ensures r.Failure? ==> r.error == MissingHeader
    ensures r.Success? ==> r.value.length == |rows[0]|
    ensures r.Success? ==> r.value.malformed == MalformedIndex(rows)
    ensures r.Success? ==> 1 !in r.value.malformed
    ensures r.Success? ==> forall k :: k in r.value.malformed ==>
              2 <= k <= |rows| && r.value.malformed[k] == rows[k - 1]
              && 0 < Populated(r.value.malformed[k]) < |rows[0]|
    ensures r.Success? ==> forall k :: 2 <= k <= |rows| && 0 < Populated(rows[k - 1]) < |rows[0]| ==>
              k in r.value.malformed
  {
    if |rows| == 0 {
      return Failure(MissingHeader);
    }
    var length := |rows[0]|;
    var malformed: map<int, Record> := map[];
    var idx := 2;
    while idx <= |rows|
      invariant 2 <= idx <= |rows| + 1
      invariant forall k :: k in malformed <==> 2 <= k < idx && Malformed(rows[k - 1], length)
      invariant forall k :: k in malformed ==> malformed[k] == rows[k - 1]
    {
      var line := rows[idx - 1];
      var check := Populated(line);
      if check < length && check > 0 {
        malformed := malformed[idx := line];
      }
      idx := idx + 1;
    }
    assert malformed == MalformedIndex(rows);
    return Success(ScanResult(length, malformed));
  }
}
