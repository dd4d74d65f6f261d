/** Small files worked through the model: one spillover pair that is
    joined, one that cannot be, three spilled lines whose middle line is
    written twice, and a file holding only its header. */
module Scenarios {
  import opened Common
  import opened Scan
  import opened LineRepairer
  import opened Preprocess

  const Joined: seq<Record> := [["a", "b", "c"], ["1", "2", "3"], ["4"], ["5", "6"]]
  const Unjoinable: seq<Record> := [["a", "b", "c"], ["x", "", ""], ["", "", "z"]]
  const Triple: seq<Record> := [["a", "b"], ["x"], ["y"], ["z"]]

  lemma JoinedIndex()
    ensures MalformedIndex(Joined) == map[3 := ["4"], 4 := ["5", "6"]]
  {
    var rows := Joined;
    assert Populated(rows[1]) == 3 && Populated(rows[2]) == 1 && Populated(rows[3]) == 2;
  }

  lemma JoinedRepairFirstLines()
    ensures Repair(Joined[..2], map[3 := ["4"], 4 := ["5", "6"]], 3) == [["a", "b", "c"], ["1", "2", "3"]]
  {
    var rows := Joined;
    var m: map<int, Record> := map[3 := ["4"], 4 := ["5", "6"]];
    assert Repair(rows[..1], m, 3) == [rows[0]] by {
      assert rows[..1][..0] == [];
    }
    assert rows[..2][..1] == rows[..1];
  }

  lemma JoinedRepair()
    ensures Repair(Joined, map[3 := ["4"], 4 := ["5", "6"]], 3)
            == [["a", "b", "c"], ["1", "2", "3"], ["4", "5", "6"]]
  {
    var rows := Joined;
    var m: map<int, Record> := map[3 := ["4"], 4 := ["5", "6"]];
    JoinedRepairFirstLines();
    assert ["4"] + ["5", "6"] == ["4", "5", "6"];
    assert RowOutcome(rows[2], 3, m, 3) == Some(["4", "5", "6"]);
    assert RowOutcome(rows[3], 4, m, 3) == None;
    assert Repair(rows[..3], m, 3) == [rows[0], rows[1], ["4", "5", "6"]] by {
      assert rows[..3][..2] == rows[..2];
    }
    assert rows[..4][..3] == rows[..3];
    assert rows[..4] == rows;
  }

  /** Header `a,b,c`, an intact record, then `4` and `5,6`: the two
      malformed lines have 1 + 2 raw fields and are joined into `4,5,6`. */
  lemma SpilloverPairJoined()
    ensures PreprocessRows([["a", "b", "c"], ["1", "2", "3"], ["4"], ["5", "6"]])
            == Success([["a", "b", "c"], ["1", "2", "3"], ["4", "5", "6"]])
  {
    JoinedIndex();
    JoinedRepair();
  }

  lemma UnjoinableIndex()
    ensures MalformedIndex(Unjoinable) == map[2 := ["x", "", ""], 3 := ["", "", "z"]]
  {
    var rows := Unjoinable;
    assert Populated(rows[1]) == 1 && Populated(rows[2]) == 1;
  }

  lemma UnjoinableRepair()
    ensures Repair(Unjoinable, map[2 := ["x", "", ""], 3 := ["", "", "z"]], 3) == [["a", "b", "c"]]
  {
    var rows := Unjoinable;
    var m: map<int, Record> := map[2 := ["x", "", ""], 3 := ["", "", "z"]];
    assert RowOutcome(rows[1], 2, m, 3) == None;
    assert RowOutcome(rows[2], 3, m, 3) == None;
    assert Repair(rows[..1], m, 3) == [rows[0]] by {
      assert rows[..1][..0] == [];
    }
    assert Repair(rows[..2], m, 3) == [rows[0]] by {
      assert rows[..2][..1] == rows[..1];
    }
    assert rows[..3][..2] == rows[..2];
    assert rows[..3] == rows;
  }

  /** Header `a,b,c`, then `x,,` and `,,z`: both lines are malformed, but
      3 + 3 raw fields is not 3, so neither is written. */
  lemma SpilloverPairLost()
    ensures PreprocessRows([["a", "b", "c"], ["x", "", ""], ["", "", "z"]])
            == Success([["a", "b", "c"]])
  {
    UnjoinableIndex();
    UnjoinableRepair();
  }

  lemma TripleIndex()
    ensures MalformedIndex(Triple) == map[2 := ["x"], 3 := ["y"], 4 := ["z"]]
  {
    var rows := Triple;
    assert Populated(rows[1]) == 1 && Populated(rows[2]) == 1 && Populated(rows[3]) == 1;
  }

  lemma TripleRepairFirstLines()
    ensures Repair(Triple[..2], map[2 := ["x"], 3 := ["y"], 4 := ["z"]], 2) == [["a", "b"], ["x", "y"]]
  {
    var rows := Triple;
    var m: map<int, Record> := map[2 := ["x"], 3 := ["y"], 4 := ["z"]];
    assert ["x"] + ["y"] == ["x", "y"];
    assert RowOutcome(rows[1], 2, m, 2) == Some(["x", "y"]);
    assert Repair(rows[..1], m, 2) == [rows[0]] by {
      assert rows[..1][..0] == [];
    }
    assert rows[..2][..1] == rows[..1];
  }

  lemma TripleRepair()
    ensures Repair(Triple, map[2 := ["x"], 3 := ["y"], 4 := ["z"]], 2)
            == [["a", "b"], ["x", "y"], ["y", "z"]]
  {
    var rows := Triple;
    var m: map<int, Record> := map[2 := ["x"], 3 := ["y"], 4 := ["z"]];
    TripleRepairFirstLines();
    assert ["y"] + ["z"] == ["y", "z"];
    assert RowOutcome(rows[2], 3, m, 2) == Some(["y", "z"]);
    assert RowOutcome(rows[3], 4, m, 2) == None;
    assert Repair(rows[..3], m, 2) == [rows[0], ["x", "y"], ["y", "z"]] by {
      assert rows[..3][..2] == rows[..2];
    }
    assert rows[..4][..3] == rows[..3];
    assert rows[..4] == rows;
  }

  /** Header `a,b`, then `x`, `y` and `z`, each malformed with one field:
      line 3 is joined with line 2 and again with line 4, so `y` is written
      twice. */
  lemma MiddleLineWrittenTwice()
    ensures PreprocessRows([["a", "b"], ["x"], ["y"], ["z"]])
            == Success([["a", "b"], ["x", "y"], ["y", "z"]])
  {
    TripleIndex();
    TripleRepair();
  }

  /** A file holding only its header is left as it is. */
  lemma HeaderOnlyUnchanged(header: Record)
    ensures PreprocessRows([header]) == Success([header])
  {
  }
}
