/** The per-file pipeline: NUL stripping, then the scan, then the repair when
    the scan found a malformed record; and the loop over the files. The
    lemmas here state what the pipeline does to the records of one file. */
module Preprocess {
  import opened Common
  import opened NulStrip
  import opened Scan
  import opened LineRepairer

  /** Some data record of the file is malformed, so the repair runs. */
  predicate NeedsRepair(rows: seq<Record>)
    requires |rows| > 0
  {
    exists i :: 2 <= i <= |rows| && Malformed(Line(rows, i), |rows[0]|)
  }

  /** The map the scan builds is non-empty exactly when some data record is
      malformed. */
  lemma NeedsRepairIffMapNonEmpty(rows: seq<Record>)
    requires |rows| > 0
    ensures NeedsRepair(rows) <==> |MalformedIndex(rows)| > 0
  {
    var m := MalformedIndex(rows);
    if NeedsRepair(rows) {
      var i :| 2 <= i <= |rows| && Malformed(Line(rows, i), |rows[0]|);
      assert i in m;
    } else {
      assert m == map[];
    }
  }

  /** Scan and, when some record is malformed, repair, for the records of
      one file. The header is always kept as the first row; a file without a
      malformed record is left exactly as it was. */
  function PreprocessRows(rows: seq<Record>): (r: Result<seq<Record>, Error>)
    ensures r.Failure? <==> |rows| == 0
    ensures r.Failure? ==> r.error == MissingHeader
    ensures r.Success? ==> |r.value| > 0 && r.value[0] == rows[0]
    ensures r.Success? && !NeedsRepair(rows) ==> r.value == rows
    ensures r.Success? && NeedsRepair(rows) ==> forall j :: 0 <= j < |r.value| ==> |r.value[j]| > 0
  {
    if |rows| == 0 then Failure(MissingHeader)
    else
      var length := |rows[0]|;
      var malformed := MalformedIndex(rows);
      NeedsRepairIffMapNonEmpty(rows);
      if |malformed| > 0 then
        HeaderWrittenFirst(rows);
        Success(Repair(rows, malformed, length))
      else Success(rows)
  }

  /** In a repair, line 1 (the header) is never in the map, so when it has a
      field it is the first row written. A header without fields gives a
      column count of 0, and then no record is malformed. */
  lemma HeaderWrittenFirst(rows: seq<Record>)
    requires |rows| > 0 && |MalformedIndex(rows)| > 0
    ensures |Repair(rows, MalformedIndex(rows), |rows[0]|)| > 0
    ensures Repair(rows, MalformedIndex(rows), |rows[0]|)[0] == rows[0]
  {
    var m := MalformedIndex(rows);
    var n := |rows[0]|;
    var k :| k in m;
    assert Malformed(Line(rows, k), n);
    assert |rows[0]| > 0;
    assert RowOutcome(rows[0], 1, m, n) == Some(rows[0]);
    RepairOrigins(rows, m, n);
    var src := Origins(rows, m, n);
    assert 1 in src;
    assert src[0] == 1;
  }

  /** The line each written row comes from, in order: the origins of the
      repair when it runs, and every line when it does not. */
  function Sources(rows: seq<Record>): seq<int>
    requires |rows| > 0
  {
    if NeedsRepair(rows) then Origins(rows, MalformedIndex(rows), |rows[0]|)
    else seq(|rows|, j => j + 1)
  }

  /** A line that the scan put in the malformed map. */
  predicate MalformedLine(rows: seq<Record>, i: int)
    requires |rows| > 0
  {
    2 <= i <= |rows| && Malformed(Line(rows, i), |rows[0]|)
  }

  /** Line `i` is malformed, line `i + 1` is malformed too, and their raw
      field counts add up to the header's: the two are written joined. */
  predicate Joins(rows: seq<Record>, i: int)
    requires |rows| > 0
  {
    MalformedLine(rows, i) && MalformedLine(rows, i + 1)
    && |Line(rows, i)| + |Line(rows, i + 1)| == |rows[0]|
  }

  /** What the repair writes for line `i`, stated with the classification:
      the header and every record that is not malformed are copied when they
      have a field and dropped when they have none; a malformed record is
      written joined with the next line when the two join, and otherwise
      nothing is written for it. */
  lemma ClassifiedOutcome(rows: seq<Record>, i: int)
    requires |rows| > 0 && 1 <= i <= |rows|
    ensures !MalformedLine(rows, i) ==>
              RowOutcome(Line(rows, i), i, MalformedIndex(rows), |rows[0]|)
              == (if |Line(rows, i)| > 0 then Some(Line(rows, i)) else None)
    ensures MalformedLine(rows, i) ==>
              RowOutcome(Line(rows, i), i, MalformedIndex(rows), |rows[0]|)
              == (if Joins(rows, i) then Some(Line(rows, i) + Line(rows, i + 1)) else None)
  {
    var m := MalformedIndex(rows);
    var n := |rows[0]|;
    if MalformedLine(rows, i) {
      assert i in m && m[i] == Line(rows, i);
      assert |Line(rows, i)| > 0;
      if i + 1 in m {
        assert MalformedLine(rows, i + 1) && m[i + 1] == Line(rows, i + 1);
        assert |Line(rows, i + 1)| > 0;
      } else {
        assert !MalformedLine(rows, i + 1);
      }
    } else {
      assert i !in m;
    }
  }

  /** Row `row`, written for line `i`, is that line unchanged (a line that
      is not malformed), or that line joined with the next (a malformed line
      that joins), and then it has exactly the header's field count. */
  predicate WrittenFrom(rows: seq<Record>, i: int, row: Record)
    requires |rows| > 0 && 1 <= i <= |rows|
  {
    || (!MalformedLine(rows, i) && row == Line(rows, i))
    || (Joins(rows, i) && row == Line(rows, i) + Line(rows, i + 1) && |row| == |rows[0]|)
  }

  /** When the repair runs, the j-th row it writes is written from line
      `Origins(..)[j]`. */
  lemma RepairedRowAt(rows: seq<Record>, j: int)
    requires |rows| > 0 && NeedsRepair(rows)
    requires 0 <= j < |Origins(rows, MalformedIndex(rows), |rows[0]|)|
    ensures |Repair(rows, MalformedIndex(rows), |rows[0]|)| == |Origins(rows, MalformedIndex(rows), |rows[0]|)|
    ensures WrittenFrom(rows, Origins(rows, MalformedIndex(rows), |rows[0]|)[j],
                        Repair(rows, MalformedIndex(rows), |rows[0]|)[j])
  {
    var m := MalformedIndex(rows);
    var n := |rows[0]|;
    var out := Repair(rows, m, n);
    var src := Origins(rows, m, n);
    RepairOriginAt(rows, m, n, j);
    OutcomeWrittenFrom(rows, src[j], out[j]);
  }

  /** A row the repair writes for line `i` is written from line `i`. */
  lemma OutcomeWrittenFrom(rows: seq<Record>, i: int, row: Record)
    requires |rows| > 0 && 1 <= i <= |rows|
    requires RowOutcome(rows[i - 1], i, MalformedIndex(rows), |rows[0]|) == Some(row)
    ensures WrittenFrom(rows, i, row)
  {
    ClassifiedOutcome(rows, i);
  }

  /** The j-th written row is written from line `Sources(rows)[j]`. */
  lemma OutputRowAt(rows: seq<Record>, j: int)
    requires |rows| > 0 && 0 <= j < |Sources(rows)|
    ensures PreprocessRows(rows).Success?
    ensures |PreprocessRows(rows).value| == |Sources(rows)|
    ensures 1 <= Sources(rows)[j] <= |rows|
    ensures WrittenFrom(rows, Sources(rows)[j], PreprocessRows(rows).value[j])
  {
    if NeedsRepair(rows) {
      NeedsRepairIffMapNonEmpty(rows);
      RepairedRowAt(rows, j);
    } else {
      assert Sources(rows)[j] == j + 1;
      assert !MalformedLine(rows, j + 1);
    }
  }

  /** The rows a successful preprocessing writes, line by line: the j-th row
      is written from line `Sources(rows)[j]`, and the line numbers increase,
      so rows keep the order of the lines they come from. */
  lemma OutputRows(rows: seq<Record>)
    requires |rows| > 0
    ensures PreprocessRows(rows).Success?
    ensures |PreprocessRows(rows).value| == |Sources(rows)|
    ensures forall j :: 0 <= j < |Sources(rows)| ==> 1 <= Sources(rows)[j] <= |rows|
    ensures forall j, k :: 0 <= j < k < |Sources(rows)| ==> Sources(rows)[j] < Sources(rows)[k]
    ensures forall j :: 0 <= j < |Sources(rows)| ==>
              WrittenFrom(rows, Sources(rows)[j], PreprocessRows(rows).value[j])
  {
    if NeedsRepair(rows) {
      NeedsRepairIffMapNonEmpty(rows);
      RepairOrigins(rows, MalformedIndex(rows), |rows[0]|);
    }
    forall j | 0 <= j < |Sources(rows)|
      ensures 1 <= Sources(rows)[j] <= |rows|
      ensures WrittenFrom(rows, Sources(rows)[j], PreprocessRows(rows).value[j])
    {
      OutputRowAt(rows, j);
    }
  }

  /** Which lines produce a row. When the repair runs: a line that is not
      malformed does exactly when it has a field, and a malformed line does
      exactly when it joins the next. When it does not run, every line does. */
  lemma LineWritten(rows: seq<Record>, i: int)
    requires |rows| > 0 && 1 <= i <= |rows|
    ensures NeedsRepair(rows) ==>
              (i in Sources(rows) <==>
                 (!MalformedLine(rows, i) && |Line(rows, i)| > 0) || Joins(rows, i))
    ensures !NeedsRepair(rows) ==> i in Sources(rows)
  {
    if NeedsRepair(rows) {
      ClassifiedOutcome(rows, i);
    } else {
      assert Sources(rows)[i - 1] == i;
    }
  }

  /** A record with no field at all is dropped whenever the repair runs. */
  lemma ZeroFieldRecordDropped(rows: seq<Record>, i: int)
    requires |rows| > 0 && 1 <= i <= |rows| && NeedsRepair(rows)
    requires |Line(rows, i)| == 0
    ensures i !in Sources(rows)
    ensures forall j :: 0 <= j < |PreprocessRows(rows).value| ==> |PreprocessRows(rows).value[j]| > 0
  {
    LineWritten(rows, i);
  }

  /** A record whose fields are all empty (`,,`) is not malformed, so it is
      copied unchanged, at the position its line number gives it. */
  lemma BlankRecordCopied(rows: seq<Record>, i: int)
    requires |rows| > 0 && 2 <= i <= |rows|
    requires |Line(rows, i)| > 0 && Populated(Line(rows, i)) == 0
    ensures |PreprocessRows(rows).value| == |Sources(rows)|
    ensures exists j :: 0 <= j < |Sources(rows)| && Sources(rows)[j] == i
              && PreprocessRows(rows).value[j] == Line(rows, i)
  {
    LineWritten(rows, i);
    var src := Sources(rows);
    var j :| 0 <= j < |src| && src[j] == i;
    OutputRowAt(rows, j);
    assert !MalformedLine(rows, i);
    assert PreprocessRows(rows).value[j] == Line(rows, i);
  }

  /** A malformed record that does not join the next line contributes no
      row of its own: its data is lost without notice. */
  lemma UnjoinedMalformedDropped(rows: seq<Record>, i: int)
    requires |rows| > 0 && MalformedLine(rows, i) && !Joins(rows, i)
    ensures i !in Sources(rows)
  {
    assert NeedsRepair(rows);
    LineWritten(rows, i);
  }

  /** No record is marked as consumed by a join: when lines i, i+1 and i+2
      are malformed and both neighbouring pairs join, line i+1 is written
      twice, once joined with line i and once joined with line i+2, as two
      consecutive rows. */
  lemma JoinedLineReexamined(rows: seq<Record>, i: int)
    requires |rows| > 0 && Joins(rows, i) && Joins(rows, i + 1)
    ensures exists j :: 0 <= j && j + 1 < |PreprocessRows(rows).value|
              && PreprocessRows(rows).value[j] == Line(rows, i) + Line(rows, i + 1)
              && PreprocessRows(rows).value[j + 1] == Line(rows, i + 1) + Line(rows, i + 2)
  {
    assert NeedsRepair(rows);
    var m := MalformedIndex(rows);
    var n := |rows[0]|;
    NeedsRepairIffMapNonEmpty(rows);
    var src := Origins(rows, m, n);
    var out := Repair(rows, m, n);
    assert PreprocessRows(rows).value == out;
    ClassifiedOutcome(rows, i);
    ClassifiedOutcome(rows, i + 1);
    assert i in src && i + 1 in src;
    var j :| 0 <= j < |src| && src[j] == i;
    var k :| 0 <= k < |src| && src[k] == i + 1;
    assert j < k;
    assert src[j] < src[j + 1] <= src[k];
    RepairedRowAt(rows, j);
    RepairedRowAt(rows, j + 1);
    assert out[j] == Line(rows, i) + Line(rows, i + 1);
    assert out[j + 1] == Line(rows, i + 1) + Line(rows, i + 2);
  }

  /** The three stages for one file: strip and decode the raw lines, parse
      the text into records, then scan and repair. A line that does not
      decode ends the file's processing and leaves the file as it was. */
  function PreprocessFile(raw: seq<seq<byte>>, decode: seq<byte> -> Option<string>,
                          parse: seq<string> -> seq<Record>): (r: Result<seq<Record>, Error>)
    ensures r.Success? ==> |r.value| > 0
    ensures r.Failure? ==> r.error.DecodeError? || r.error == MissingHeader
  {
    match SanitizeLines(raw, decode)
    case Failure(e) => Failure(e)
    case Success(texts) => PreprocessRows(parse(texts))
  }

  /** How a file's processing ends: with a DecodeError exactly when some
      line does not decode once stripped; with MissingHeader when everything
      decodes but parsing yields no record; otherwise with the scanned and
      repaired records of the decoded text. */
  lemma PreprocessFileOutcome(raw: seq<seq<byte>>, decode: seq<byte> -> Option<string>,
                              parse: seq<string> -> seq<Record>)
    ensures var r := PreprocessFile(raw, decode, parse);
            (r.Failure? && r.error.DecodeError?) <==>
              exists i :: 0 <= i < |raw| && DecodeLine(decode, raw[i]).None?
    ensures var r := PreprocessFile(raw, decode, parse);
            r.Failure? && r.error.MissingHeader? ==>
              SanitizeLines(raw, decode).Success? && parse(SanitizeLines(raw, decode).value) == []
    ensures var r := PreprocessFile(raw, decode, parse);
            r.Success? ==>
              SanitizeLines(raw, decode).Success?
              && r == PreprocessRows(parse(SanitizeLines(raw, decode).value))
  {
  }

  /** What happened to one file of the batch. */
  datatype FileOutcome = Processed(rows: seq<Record>) | Failed(error: Error) | NotReached

  /** The loop over the files. An error in one file ends the loop: the files
      after it are not processed. */
  function PreprocessAll(files: seq<seq<seq<byte>>>, decode: seq<byte> -> Option<string>,
                         parse: seq<string> -> seq<Record>): (r: seq<FileOutcome>)
    ensures |r| == |files|
    ensures forall k :: 0 <= k < |files| && r[k].Processed? ==>
              PreprocessFile(files[k], decode, parse) == Success(r[k].rows)
    ensures forall k :: 0 <= k < |files| && r[k].Failed? ==>
              PreprocessFile(files[k], decode, parse) == Failure(r[k].error)
    ensures forall j, k :: 0 <= j < k < |files| && r[j].Failed? ==> r[k].NotReached?
    ensures forall k :: 0 <= k < |files| && r[k].NotReached? ==> 0 < k && !r[k - 1].Processed?
    decreases |files|
  {
    if |files| == 0 then []
    else
      var first := PreprocessFile(files[0], decode, parse);
      if first.Failure? then [Failed(first.error)] + Skipped(|files| - 1)
      else
        var rest := PreprocessAll(files[1..], decode, parse);
        var r := [Processed(first.value)] + rest;
        assert forall k :: 1 <= k < |files| ==> files[k] == files[1..][k - 1] && r[k] == rest[k - 1];
        r
  }

  /** The outcomes of `n` files the loop never reaches. */
  function Skipped(n: nat): (r: seq<FileOutcome>)
    ensures |r| == n
    ensures forall k :: 0 <= k < n ==> r[k] == NotReached
  {
    seq(n, _ => NotReached)
  }
}
