/** The first stage of preprocessing: every NUL byte is removed from each raw
    line, and the remaining bytes are decoded as text. */
module NulStrip {
  import opened Common

  newtype byte = x: int | 0 <= x < 256

  /** The byte the stage removes. */
  const NUL: byte := 0

  /** Number of occurrences of `b` in `s`. */
  function Count(b: byte, s: seq<byte>): nat
  {
    if |s| == 0 then 0 else (if s[0] == b then 1 else 0) + Count(b, s[1..])
  }

  predicate NulFree(s: seq<byte>)
  {
    forall i :: 0 <= i < |s| ==> s[i] != NUL
  }

  /** The line with every NUL byte removed. */
  function StripNul(line: seq<byte>): (r: seq<byte>)
    ensures NulFree(r)
    ensures |r| == |line| - Count(NUL, line)
    ensures NulFree(line) ==> r == line
  {
    if |line| == 0 then []
    else if line[0] == NUL then StripNul(line[1..])
    else [line[0]] + StripNul(line[1..])
  }

  /** Stripping removes every NUL and keeps every other byte as often as it
      occurred. */
  lemma {:induction false} StripNulCounts(b: byte, line: seq<byte>)
    ensures Count(b, StripNul(line)) == if b == NUL then 0 else Count(b, line)
    decreases |line|
  {
    if |line| > 0 {
      StripNulCounts(b, line[1..]);
      if line[0] != NUL {
        assert ([line[0]] + StripNul(line[1..]))[1..] == StripNul(line[1..]);
      }
    }
  }

  /** Stripping twice is stripping once. */
  lemma StripNulIdempotent(line: seq<byte>)
    ensures StripNul(StripNul(line)) == StripNul(line)
  {
  }

  /** Stripping distributes over concatenation: removing NULs line by line,
      as the preprocessing does, gives the same bytes as removing them from the whole
      file at once. */
  lemma {:induction false} StripNulAppend(a: seq<byte>, b: seq<byte>)
    ensures StripNul(a + b) == StripNul(a) + StripNul(b)
    decreases |a|
  {
    if |a| > 0 {
      assert (a + b)[0] == a[0];
      assert (a + b)[1..] == a[1..] + b;
      StripNulAppend(a[1..], b);
    } else {
      assert a + b == b;
    }
  }

  /** Positions (from `from` on) of the bytes of `line` that are not NUL, in
      increasing order. */
  function NonNulPositions(line: seq<byte>, from: nat): (ps: seq<nat>)
    requires from <= |line|
    ensures forall j :: 0 <= j < |ps| ==> from <= ps[j] < |line| && line[ps[j]] != NUL
    ensures forall j, k :: 0 <= j < k < |ps| ==> ps[j] < ps[k]
    decreases |line| - from
  {
    if from == |line| then []
    else if line[from] == NUL then NonNulPositions(line, from + 1)
    else [from] + NonNulPositions(line, from + 1)
  }

  /** Every non-NUL position from `from` on is listed. */
  lemma {:induction false} NonNulPositionsComplete(line: seq<byte>, from: nat, i: nat)
    requires from <= i < |line| && line[i] != NUL
    ensures i in NonNulPositions(line, from)
    decreases |line| - from
  {
    if from < i {
      NonNulPositionsComplete(line, from + 1, i);
    }
  }

  /** Stripping keeps one byte for each non-NUL position. */
  lemma {:induction false} StripNulLength(line: seq<byte>, from: nat)
    requires from <= |line|
    ensures |StripNul(line[from..])| == |NonNulPositions(line, from)|
    decreases |line| - from
  {
    if from < |line| {
      assert line[from..][1..] == line[from + 1..];
      StripNulLength(line, from + 1);
    }
  }

  /** The j-th byte kept is the byte at the j-th non-NUL position. */
  lemma {:induction false} StripNulAt(line: seq<byte>, from: nat, j: nat)
    requires from <= |line| && j < |NonNulPositions(line, from)|
    ensures |StripNul(line[from..])| == |NonNulPositions(line, from)|
    ensures StripNul(line[from..])[j] == line[NonNulPositions(line, from)[j]]
    decreases |line| - from
  {
    StripNulLength(line, from);
    assert line[from..][0] == line[from];
    assert line[from..][1..] == line[from + 1..];
    var rest := NonNulPositions(line, from + 1);
    if line[from] == NUL {
      assert NonNulPositions(line, from) == rest;
      assert StripNul(line[from..]) == StripNul(line[from + 1..]);
      StripNulAt(line, from + 1, j);
    } else {
      assert NonNulPositions(line, from) == [from] + rest;
      assert StripNul(line[from..]) == [line[from]] + StripNul(line[from + 1..]);
      if j > 0 {
        StripNulAt(line, from + 1, j - 1);
      }
    }
  }

  /** The stripped line is exactly the subsequence of non-NUL bytes of the
      line, in their original order. */
  lemma StripNulKeepsOrder(line: seq<byte>)
    ensures |StripNul(line)| == |NonNulPositions(line, 0)|
    ensures forall j :: 0 <= j < |NonNulPositions(line, 0)| ==>
              StripNul(line)[j] == line[NonNulPositions(line, 0)[j]]
    ensures forall i :: 0 <= i < |line| && line[i] != NUL ==> i in NonNulPositions(line, 0)
  {
    forall i | 0 <= i < |line| && line[i] != NUL
      ensures i in NonNulPositions(line, 0)
    {
      NonNulPositionsComplete(line, 0, i);
    }
    assert line[0..] == line;
    StripNulLength(line, 0);
    forall j | 0 <= j < |NonNulPositions(line, 0)|
      ensures StripNul(line)[j] == line[NonNulPositions(line, 0)[j]]
    {
      StripNulAt(line, 0, j);
    }
  }

  /** One raw line, stripped and then decoded. A line without NUL bytes is
      decoded as it is. */
  function DecodeLine(decode: seq<byte> -> Option<string>, line: seq<byte>): (r: Option<string>)
    ensures NulFree(line) ==> r == decode(line)
  {
    decode(StripNul(line))
  }

  /** NUL bytes never influence decoding: a line decodes exactly as its
      stripped form does. */
  lemma DecodeLineIgnoresNul(decode: seq<byte> -> Option<string>, line: seq<byte>)
    ensures DecodeLine(decode, StripNul(line)) == DecodeLine(decode, line)
  {
    StripNulIdempotent(line);
  }

  /** Decodes every line after stripping its NUL bytes. The first line that
      does not decode ends the stage with a DecodeError naming it. */
  function SanitizeLines(lines: seq<seq<byte>>, decode: seq<byte> -> Option<string>): (r: Result<seq<string>, Error>)
    ensures r.Success? ==> |r.value| == |lines|
    ensures r.Success? ==> forall i :: 0 <= i < |lines| ==> DecodeLine(decode, lines[i]) == Some(r.value[i])
    ensures r.Failure? ==> r.error.DecodeError? && 1 <= r.error.line <= |lines|
    ensures r.Failure? ==> DecodeLine(decode, lines[r.error.line - 1]).None?
    ensures r.Failure? ==> forall i :: 0 <= i < r.error.line - 1 ==> DecodeLine(decode, lines[i]).Some?
    decreases |lines|
  {
    if |lines| == 0 then Success([])
    else
      var n := |lines|;
      var init := lines[..n - 1];
      var prior := SanitizeLines(init, decode);
      assert forall i :: 0 <= i < n - 1 ==> init[i] == lines[i];
      if prior.Failure? then prior
      else
        match DecodeLine(decode, lines[n - 1])
        case None => Failure(DecodeError(n))
        case Some(t) =>
          var texts := prior.value + [t];
          assert forall i :: 0 <= i < n - 1 ==> texts[i] == prior.value[i];
          Success(texts)
  }
}
