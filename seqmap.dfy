/**
 * The sequence map builder: sequence position -> character, read from the
 * image comments, with two known-bad entries removed and a manual table
 * of corrections applied on top. Iteration order is kept, as the decoder
 * walks the map in that order.
 */
module SequenceMap {
  import opened Common
  import opened Dicts
  import opened Comments

  type SeqMap = Dict<nat, char>

  /** Position 0 stands for a space before any comment is read. */
  function Initial(): (d: SeqMap)
    ensures Valid(d)
  {
    Dict([0], map[0 := ' '])
  }

  /** The pairs the comments carry, in image order, or the first image whose comment does not match. */
  function ScanComments(comments: seq<string>): (r: Result<seq<(nat, char)>>)
    ensures r.Ok? <==> forall i :: 0 <= i < |comments| ==> ParseComment(comments[i]).Some?
    ensures r.Ok? ==> |r.value| == |comments|
                      && forall i :: 0 <= i < |comments| ==> ParseComment(comments[i]) == Some(r.value[i])
    ensures r.Err? ==> exists i :: 0 <= i < |comments| && r.error == UnmatchedComment(i)
                                   && ParseComment(comments[i]).None?
                                   && forall j :: 0 <= j < i ==> ParseComment(comments[j]).Some?
  {
    if |comments| == 0 then Ok([])
    else
      var n := |comments| - 1;
      assert forall j :: 0 <= j < n ==> comments[..n][j] == comments[j];
      match ScanComments(comments[..n])
      case Err(e) => Err(e)
      case Ok(pairs) =>
        match ParseComment(comments[n])
        case None => Err(UnmatchedComment(n))
        case Some(pair) => Ok(pairs + [pair])
  }

  /** The map the comments give: `{0: ' '}`, then each comment's pair in turn. */
  function EmbeddedMapOf(comments: seq<string>): (r: Result<SeqMap>)
    ensures r.Ok? ==> Valid(r.value)
  {
    match ScanComments(comments)
    case Err(e) => Err(e)
    case Ok(pairs) => Ok(InsertAll(Initial(), pairs))
  }

  /** The scanning loop: one comment at a time, failing on the first that does not match. */
  method EmbeddedSequenceMap(comments: seq<string>) returns (r: Result<SeqMap>)
    ensures r == EmbeddedMapOf(comments)
    ensures r.Ok? ==> Valid(r.value)
  {
    var d := Initial();
    for i := 0 to |comments|
      invariant ScanComments(comments[..i]).Ok?
      invariant d == InsertAll(Initial(), ScanComments(comments[..i]).value)
    {
      var m := ParseComment(comments[i]);
      assert comments[..i + 1][..i] == comments[..i];
      if m.None? {
        ScanErrorStays(comments, i + 1);
        return Err(UnmatchedComment(i));
      }
      ghost var pairs := ScanComments(comments[..i]).value;
      assert ScanComments(comments[..i + 1]) == Ok(pairs + [m.value]);
      assert (pairs + [m.value])[..|pairs|] == pairs;
      d := Insert(d, m.value.0, m.value.1);
    }
    assert comments[..|comments|] == comments;
    return Ok(d);
  }

  /** Once the scan has failed on a prefix of the comments, scanning all of them fails the same way. */
  lemma {:induction false} ScanErrorStays(comments: seq<string>, i: nat)
    requires i <= |comments| && ScanComments(comments[..i]).Err?
    ensures ScanComments(comments) == ScanComments(comments[..i])
  {
    if i == |comments| {
      assert comments[..i] == comments;
    } else {
      var init := comments[..|comments| - 1];
      assert init[..i] == comments[..i];
      ScanErrorStays(init, i);
    }
  }

  /** The scanned map lists position 0 first, and position 0 is a space unless some comment carries number 0. */
  lemma ScannedMapStartsWithSpace(pairs: seq<(nat, char)>)
    ensures InsertAll(Initial(), pairs).keys[0] == 0
    ensures 0 in InsertAll(Initial(), pairs).values
    ensures (forall i :: 0 <= i < |pairs| ==> pairs[i].0 != 0) ==> InsertAll(Initial(), pairs).values[0] == ' '
  {
    var d := InsertAll(Initial(), pairs);
    assert Initial().keys <= d.keys;
    if forall i :: 0 <= i < |pairs| ==> pairs[i].0 != 0 {
      InsertAllUntouched(Initial(), pairs, 0);
    }
  }

  /** Every number a comment carries maps to the character of the last comment that carries it. */
  lemma ScannedMapLastWins(pairs: seq<(nat, char)>, i: nat)
    requires i < |pairs|
    ensures pairs[i].0 in InsertAll(Initial(), pairs).values
    ensures exists j :: i <= j < |pairs|
                        && LastSetter(pairs, pairs[i].0, InsertAll(Initial(), pairs).values[pairs[i].0], j)
  {
    InsertAllLastWins(Initial(), pairs, pairs[i].0, i);
  }

  /** The two sequence numbers whose scanned entries are known to be wrong, deleted in this order. */
  const FirstBad: nat := 30045
  const SecondBad: nat := 12525

  /** The hand-made corrections, in the order they are applied. */
  const ManualTable: seq<(nat, char)> :=
    [(23, 'a'), (36, 'k'), (42, 'h'), (74, 's'), (99, 'c'),
     (133, 'Z'), (143, 'v'), (159, 'x'), (177, 'g'), (197, 'V')]

  /** `del` of both known-bad numbers, failing on the first one missing, then the manual table. */
  function Corrected(d: SeqMap): (r: Result<SeqMap>)
    requires Valid(d)
    ensures r.Ok? ==> Valid(r.value)
  {
    if FirstBad !in d.values then Err(MissingKey(FirstBad))
    else
      var d1 := Remove(d, FirstBad);
      if SecondBad !in d1.values then Err(MissingKey(SecondBad))
      else Ok(InsertAll(Remove(d1, SecondBad), ManualTable))
  }

  /** The corrections as the program applies them to its map, statement by statement. */
  method ApplyCorrections(d: SeqMap) returns (r: Result<SeqMap>)
    requires Valid(d)
    ensures r == Corrected(d)
  {
    if FirstBad !in d.values {
      return Err(MissingKey(FirstBad));
    }
    var m := Remove(d, FirstBad);
    if SecondBad !in m.values {
      return Err(MissingKey(SecondBad));
    }
    m := Remove(m, SecondBad);
    ghost var base := m;
    for i := 0 to |ManualTable|
      invariant m == InsertAll(base, ManualTable[..i])
    {
      var prefix := ManualTable[..i + 1];
      assert prefix[..i] == ManualTable[..i] && prefix[i] == ManualTable[i];
      m := Insert(m, ManualTable[i].0, ManualTable[i].1);
      assert m == InsertAll(base, prefix);
    }
    assert ManualTable[..|ManualTable|] == ManualTable;
    return Ok(m);
  }

  lemma ManualTableIncreasing()
    ensures forall i, j :: 0 <= i < j < |ManualTable| ==> ManualTable[i].0 < ManualTable[j].0
    ensures forall i :: 0 <= i < |ManualTable| ==> ManualTable[i].0 < 200
  {
  }

  /** The corrections fail exactly when a known-bad number is missing, naming the first one missing. */
  lemma CorrectionsFail(d: SeqMap)
    requires Valid(d)
    ensures Corrected(d).Err? <==> FirstBad !in d.values || SecondBad !in d.values
    ensures Corrected(d).Err? ==>
              Corrected(d).error == MissingKey(if FirstBad !in d.values then FirstBad else SecondBad)
  {
    if FirstBad in d.values {
      assert SecondBad in Remove(d, FirstBad).values <==> SecondBad in d.values;
    }
  }

  /** After the corrections both known-bad numbers are gone and every manual position holds its manual character. */
  lemma CorrectedHasManualTable(d: SeqMap, i: nat)
    requires Valid(d) && Corrected(d).Ok? && i < |ManualTable|
    ensures FirstBad !in Corrected(d).value.values && SecondBad !in Corrected(d).value.values
    ensures ManualTable[i].0 in Corrected(d).value.values
    ensures Corrected(d).value.values[ManualTable[i].0] == ManualTable[i].1
  {
    var base := Remove(Remove(d, FirstBad), SecondBad);
    var r := Corrected(d).value;
    assert r == InsertAll(base, ManualTable);
    ManualTableIncreasing();
    InsertAllUntouched(base, ManualTable, FirstBad);
    InsertAllUntouched(base, ManualTable, SecondBad);
    InsertAllLastWins(base, ManualTable, ManualTable[i].0, i);
    var j :| LastSetter(ManualTable, ManualTable[i].0, r.values[ManualTable[i].0], j);
  }

  /** Every key other than the known-bad and the manual ones keeps its presence and its value. */
  lemma CorrectedKeepsOthers(d: SeqMap, k: nat)
    requires Valid(d) && Corrected(d).Ok?
    requires k != FirstBad && k != SecondBad
    requires forall i :: 0 <= i < |ManualTable| ==> ManualTable[i].0 != k
    ensures k in Corrected(d).value.values <==> k in d.values
    ensures k in d.values ==> Corrected(d).value.values[k] == d.values[k]
  {
    var base := Remove(Remove(d, FirstBad), SecondBad);
    assert Corrected(d).value == InsertAll(base, ManualTable);
    InsertAllUntouched(base, ManualTable, k);
  }
}
