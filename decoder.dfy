/**
 * The decoder: every matrix column becomes either the character a mapped
 * position gives it, or a placeholder `<j>` naming the first column with
 * the same pattern; caret escapes are then turned into control characters.
 */
module Decoder {
  import opened Common
  import opened Text
  import opened Dicts
  import opened Matrix
  import opened SequenceMap

  /** Column pattern -> character. */
  type LetterMap = map<seq<bool>, char>
  /** Column pattern -> index of the first column with that pattern. */
  type PositionMap = map<seq<bool>, nat>

  /**
   * The letter map built by walking the sequence map in its order: each
   * position's column is set to the position's character, so a later position
   * with the same column overwrites an earlier one. A position that is not a
   * column index stops the walk.
   */
  function LetterMapOf(m: seq<seq<bool>>, keys: seq<nat>, values: map<nat, char>): (r: Result<LetterMap>)
    requires Rectangular(m)
    requires forall i :: 0 <= i < |keys| ==> keys[i] in values
    ensures r.Ok? <==> forall i :: 0 <= i < |keys| ==> keys[i] < Width(m)
    ensures r.Err? ==> exists i :: 0 <= i < |keys| && keys[i] >= Width(m) && r.error == PositionOutOfRange(keys[i])
                                   && forall j :: 0 <= j < i ==> keys[j] < Width(m)
  {
    if |keys| == 0 then Ok(map[])
    else
      var n := |keys| - 1;
      assert forall j :: 0 <= j < n ==> keys[..n][j] == keys[j];
      match LetterMapOf(m, keys[..n], values)
      case Err(e) => Err(e)
      case Ok(lm) =>
        if keys[n] < Width(m) then Ok(lm[Column(m, keys[n]) := values[keys[n]]])
        else Err(PositionOutOfRange(keys[n]))
  }

  /** The letter-map loop over the sequence map's items. */
  method BuildLetterMap(m: seq<seq<bool>>, d: SeqMap) returns (r: Result<LetterMap>)
    requires Rectangular(m) && Valid(d)
    ensures r == LetterMapOf(m, d.keys, d.values)
  {
    var lm: LetterMap := map[];
    for i := 0 to |d.keys|
      invariant LetterMapOf(m, d.keys[..i], d.values) == Ok(lm)
    {
      var k := d.keys[i];
      assert d.keys[..i + 1][..i] == d.keys[..i];
      if k >= Width(m) {
        LetterMapErrorStays(m, d.keys, d.values, i + 1);
        return Err(PositionOutOfRange(k));
      }
      lm := lm[Column(m, k) := d.values[k]];
    }
    assert d.keys[..|d.keys|] == d.keys;
    return Ok(lm);
  }

  /** Once a walk has failed on a prefix of the keys, walking all of them fails the same way. */
  lemma {:induction false} LetterMapErrorStays(m: seq<seq<bool>>, keys: seq<nat>, values: map<nat, char>, i: nat)
    requires Rectangular(m)
    requires forall j :: 0 <= j < |keys| ==> keys[j] in values
    requires i <= |keys| && LetterMapOf(m, keys[..i], values).Err?
    ensures LetterMapOf(m, keys, values) == LetterMapOf(m, keys[..i], values)
  {
    if i == |keys| {
      assert keys[..i] == keys;
    } else {
      var init := keys[..|keys| - 1];
      assert init[..i] == keys[..i];
      LetterMapErrorStays(m, init, values, i);
    }
  }

  /** Position `keys[i]` has column `c`, and no later position does. */
  ghost predicate LastWithColumn(m: seq<seq<bool>>, keys: seq<nat>, c: seq<bool>, i: int)
    requires Rectangular(m)
    requires forall j :: 0 <= j < |keys| ==> keys[j] < Width(m)
  {
    0 <= i < |keys| && Column(m, keys[i]) == c && forall j :: i < j < |keys| ==> Column(m, keys[j]) != c
  }

  /**
   * A column pattern is a key of the letter map exactly when some mapped
   * position has that column, and it then holds the character of the last
   * such position in the walk.
   */
  lemma {:induction false} LetterMapLookup(m: seq<seq<bool>>, keys: seq<nat>, values: map<nat, char>, c: seq<bool>)
    requires Rectangular(m)
    requires forall i :: 0 <= i < |keys| ==> keys[i] in values && keys[i] < Width(m)
    ensures LetterMapOf(m, keys, values).Ok?
    ensures c in LetterMapOf(m, keys, values).value <==> exists i :: 0 <= i < |keys| && Column(m, keys[i]) == c
    ensures c in LetterMapOf(m, keys, values).value ==>
              exists i :: LastWithColumn(m, keys, c, i) && LetterMapOf(m, keys, values).value[c] == values[keys[i]]
  {
    if |keys| > 0 {
      var n := |keys| - 1;
      var init := keys[..n];
      assert forall j :: 0 <= j < n ==> init[j] == keys[j];
      LetterMapLookup(m, init, values, c);
      var before := LetterMapOf(m, init, values).value;
      var lm := LetterMapOf(m, keys, values).value;
      assert lm == before[Column(m, keys[n]) := values[keys[n]]];
      if c == Column(m, keys[n]) {
        assert LastWithColumn(m, keys, c, n) && lm[c] == values[keys[n]];
      } else if c in before {
        var i :| LastWithColumn(m, init, c, i) && before[c] == values[init[i]];
        forall j | i < j < |keys| ensures Column(m, keys[j]) != c {
          if j < n { assert keys[j] == init[j]; }
        }
        assert LastWithColumn(m, keys, c, i) && lm[c] == values[keys[i]];
      } else {
        forall i | 0 <= i < |keys| ensures Column(m, keys[i]) != c {
          if i < n { assert keys[i] == init[i]; }
        }
      }
    }
  }

  /**
   * The first-occurrence map over the first `n` columns, built with
   * `setdefault`: a pattern gets an index when it is first seen and keeps it.
   * Every column's pattern is a key.
   */
  function FirstOccurrenceMap(m: seq<seq<bool>>, n: nat): (fo: PositionMap)
    requires Rectangular(m) && n <= Width(m)
    ensures forall k :: 0 <= k < n ==> Column(m, k) in fo
  {
    if n == 0 then map[]
    else
      var fo := FirstOccurrenceMap(m, n - 1);
      var c := Column(m, n - 1);
      if c in fo then fo else fo[c := n - 1]
  }

  /** Column `x` has pattern `c`, and no column before it does. */
  ghost predicate FirstWithPattern(m: seq<seq<bool>>, c: seq<bool>, x: int)
    requires Rectangular(m)
  {
    0 <= x < Width(m) && Column(m, x) == c && forall j :: 0 <= j < x ==> Column(m, j) != c
  }

  /**
   * Each key of the first-occurrence map is sent to the least index of a
   * column with that pattern.
   */
  lemma {:induction false} FirstOccurrenceIsLeast(m: seq<seq<bool>>, n: nat, c: seq<bool>)
    requires Rectangular(m) && n <= Width(m) && c in FirstOccurrenceMap(m, n)
    ensures FirstOccurrenceMap(m, n)[c] < n && FirstWithPattern(m, c, FirstOccurrenceMap(m, n)[c])
  {
    var before := FirstOccurrenceMap(m, n - 1);
    var fo := FirstOccurrenceMap(m, n);
    if c in before {
      FirstOccurrenceIsLeast(m, n - 1, c);
      assert fo[c] == before[c];
    } else {
      assert c == Column(m, n - 1) && fo[c] == n - 1;
      forall j | 0 <= j < n - 1 ensures Column(m, j) != c {
        assert Column(m, j) in before;
      }
      assert FirstWithPattern(m, c, n - 1);
    }
  }

  /** Hence column `k` gets an index at most `k`, and it points at a column equal to column `k`. */
  lemma FirstOccurrenceAtMost(m: seq<seq<bool>>, n: nat, k: nat)
    requires Rectangular(m) && n <= Width(m) && k < n
    ensures FirstOccurrenceMap(m, n)[Column(m, k)] <= k
    ensures Column(m, FirstOccurrenceMap(m, n)[Column(m, k)]) == Column(m, k)
  {
    FirstOccurrenceIsLeast(m, n, Column(m, k));
  }

  lemma FirstOccurrenceStep(m: seq<seq<bool>>, n: nat)
    requires Rectangular(m) && n < Width(m)
    ensures FirstOccurrenceMap(m, n + 1)
            == if Column(m, n) in FirstOccurrenceMap(m, n) then FirstOccurrenceMap(m, n)
               else FirstOccurrenceMap(m, n)[Column(m, n) := n]
  {
  }

  /** The `setdefault` loop over the columns, left to right. */
  method FirstOccurrences(m: seq<seq<bool>>) returns (fo: PositionMap)
    requires Rectangular(m)
    ensures fo == FirstOccurrenceMap(m, Width(m))
  {
    fo := map[];
    for i := 0 to Width(m)
      invariant fo == FirstOccurrenceMap(m, i)
    {
      var c := Column(m, i);
      FirstOccurrenceStep(m, i);
      if c !in fo {
        fo := fo[c := i];
      }
    }
  }

  /** Every column has a first-occurrence index. */
  ghost predicate Covers(m: seq<seq<bool>>, fo: PositionMap)
    requires Rectangular(m)
  {
    forall k :: 0 <= k < Width(m) ==> Column(m, k) in fo
  }

  /** The text column `k` contributes: its mapped character, else `<j>` for its first-occurrence index. */
  function Token(m: seq<seq<bool>>, lm: LetterMap, fo: PositionMap, k: nat): string
    requires Rectangular(m) && k < Width(m) && Column(m, k) in fo
  {
    var c := Column(m, k);
    if c in lm then [lm[c]] else "<" + NatToString(fo[c]) + ">"
  }

  /** The tokens of the first `n` columns, in column order. */
  function Decoded(m: seq<seq<bool>>, lm: LetterMap, fo: PositionMap, n: nat): string
    requires Rectangular(m) && n <= Width(m) && Covers(m, fo)
  {
    if n == 0 then "" else Decoded(m, lm, fo, n - 1) + Token(m, lm, fo, n - 1)
  }

  /** The decoding loop: one token per column appended to the message. */
  method Decode(m: seq<seq<bool>>, lm: LetterMap, fo: PositionMap) returns (lore: string)
    requires Rectangular(m) && Covers(m, fo)
    ensures lore == Decoded(m, lm, fo, Width(m))
  {
    lore := "";
    for k := 0 to Width(m)
      invariant lore == Decoded(m, lm, fo, k)
    {
      var c := Column(m, k);
      if c in lm {
        lore := lore + [lm[c]];
      } else {
        lore := lore + "<" + NatToString(fo[c]) + ">";
      }
    }
  }

  /**
   * What column `k` decodes to, stated without the two maps: the character of
   * the last position in the sequence map's order whose column equals column
   * `k`, or, when no position has that column, `<j>` with `j` the least index
   * of a column equal to column `k`.
   */
  lemma TokenMeaning(m: seq<seq<bool>>, d: SeqMap, k: nat)
    requires Rectangular(m) && Valid(d) && k < Width(m)
    requires forall i :: 0 <= i < |d.keys| ==> d.keys[i] < Width(m)
    ensures LetterMapOf(m, d.keys, d.values).Ok?
    ensures (exists i :: 0 <= i < |d.keys| && Column(m, d.keys[i]) == Column(m, k)) ==>
              exists i :: 0 <= i < |d.keys| && Column(m, d.keys[i]) == Column(m, k)
                          && (forall j :: i < j < |d.keys| ==> Column(m, d.keys[j]) != Column(m, k))
                          && Token(m, LetterMapOf(m, d.keys, d.values).value,
                                   FirstOccurrenceMap(m, Width(m)), k) == [d.values[d.keys[i]]]
    ensures (forall i :: 0 <= i < |d.keys| ==> Column(m, d.keys[i]) != Column(m, k)) ==>
              exists j :: 0 <= j <= k && Column(m, j) == Column(m, k)
                          && (forall j' :: 0 <= j' < j ==> Column(m, j') != Column(m, k))
                          && Token(m, LetterMapOf(m, d.keys, d.values).value,
                                   FirstOccurrenceMap(m, Width(m)), k) == "<" + NatToString(j) + ">"
  {
    LetterMapLookup(m, d.keys, d.values, Column(m, k));
    FirstOccurrenceIsLeast(m, Width(m), Column(m, k));
    var fo := FirstOccurrenceMap(m, Width(m));
    assert Column(m, fo[Column(m, k)]) == Column(m, k);
  }

  /** Column 0 decodes to a space when position 0 is a space and no other position shares its column. */
  lemma SpaceAtPositionZero(m: seq<seq<bool>>, d: SeqMap)
    requires Rectangular(m) && Valid(d) && 0 < Width(m)
    requires forall i :: 0 <= i < |d.keys| ==> d.keys[i] < Width(m)
    requires 0 in d.values && d.values[0] == ' '
    requires forall i :: 0 <= i < |d.keys| && d.keys[i] != 0 ==> Column(m, d.keys[i]) != Column(m, 0)
    ensures LetterMapOf(m, d.keys, d.values).Ok?
    ensures Token(m, LetterMapOf(m, d.keys, d.values).value, FirstOccurrenceMap(m, Width(m)), 0) == " "
  {
    LetterMapLookup(m, d.keys, d.values, Column(m, 0));
    var i0 :| 0 <= i0 < |d.keys| && d.keys[i0] == 0;
    assert Column(m, d.keys[i0]) == Column(m, 0);
  }

  /**
   * When the last position sharing column 0's pattern is some position other
   * than 0, column 0 decodes to that position's character, so a space at
   * position 0 is overridden.
   */
  lemma SharedColumnOverridesSpace(m: seq<seq<bool>>, d: SeqMap, i: nat)
    requires Rectangular(m) && Valid(d) && 0 < Width(m)
    requires forall j :: 0 <= j < |d.keys| ==> d.keys[j] < Width(m)
    requires LastWithColumn(m, d.keys, Column(m, 0), i) && d.keys[i] != 0
    ensures LetterMapOf(m, d.keys, d.values).Ok?
    ensures Token(m, LetterMapOf(m, d.keys, d.values).value, FirstOccurrenceMap(m, Width(m)), 0)
            == [d.values[d.keys[i]]]
  {
    var c := Column(m, 0);
    LetterMapLookup(m, d.keys, d.values, c);
    var lm := LetterMapOf(m, d.keys, d.values).value;
    var i' :| LastWithColumn(m, d.keys, c, i') && lm[c] == d.values[d.keys[i']];
    assert i' == i;
  }

  /** The three-row, four-column matrix whose columns are `TTT`, `FFF`, `TFT`, `FFF`. */
  const ExampleMatrix: seq<seq<bool>> :=
    [[true, false, true, false], [true, false, false, false], [true, false, true, false]]
  const ExampleTTT: seq<bool> := [true, true, true]
  const ExampleFFF: seq<bool> := [false, false, false]
  const ExampleTFT: seq<bool> := [true, false, true]

  lemma ExampleColumns()
    ensures Rectangular(ExampleMatrix) && Width(ExampleMatrix) == 4
    ensures Column(ExampleMatrix, 0) == ExampleTTT
    ensures Column(ExampleMatrix, 1) == ExampleFFF
    ensures Column(ExampleMatrix, 2) == ExampleTFT
    ensures Column(ExampleMatrix, 3) == ExampleFFF
  {
  }

  lemma ExampleLetterMap()
    ensures Rectangular(ExampleMatrix)
    ensures LetterMapOf(ExampleMatrix, [0, 2], map[0 := ' ', 2 := 'x'])
            == Ok(map[ExampleTTT := ' ', ExampleTFT := 'x'])
  {
    ExampleColumns();
    assert [0, 2][..1] == [0];
    assert [0][..0] == [];
  }

  lemma ExampleFirstOccurrences()
    ensures Rectangular(ExampleMatrix) && Width(ExampleMatrix) == 4
    ensures FirstOccurrenceMap(ExampleMatrix, 4) == map[ExampleTTT := 0, ExampleFFF := 1, ExampleTFT := 2]
  {
    ExampleColumns();
    FirstOccurrenceStep(ExampleMatrix, 0);
    FirstOccurrenceStep(ExampleMatrix, 1);
    FirstOccurrenceStep(ExampleMatrix, 2);
    FirstOccurrenceStep(ExampleMatrix, 3);
    assert ExampleFFF != ExampleTTT by { assert ExampleFFF[0] != ExampleTTT[0]; }
    assert ExampleTFT != ExampleTTT by { assert ExampleTFT[1] != ExampleTTT[1]; }
    assert ExampleTFT != ExampleFFF by { assert ExampleTFT[0] != ExampleFFF[0]; }
  }

  lemma ExampleTokens(lm: LetterMap, fo: PositionMap)
    requires lm == map[ExampleTTT := ' ', ExampleTFT := 'x']
    requires fo == map[ExampleTTT := 0, ExampleFFF := 1, ExampleTFT := 2]
    ensures Rectangular(ExampleMatrix) && Width(ExampleMatrix) == 4 && Covers(ExampleMatrix, fo)
    ensures Token(ExampleMatrix, lm, fo, 0) == " "
    ensures Token(ExampleMatrix, lm, fo, 1) == "<1>"
    ensures Token(ExampleMatrix, lm, fo, 2) == "x"
    ensures Token(ExampleMatrix, lm, fo, 3) == "<1>"
  {
    ExampleColumns();
    assert ExampleFFF !in lm by {
      assert ExampleFFF[0] != ExampleTTT[0] && ExampleFFF[0] != ExampleTFT[0];
    }
    assert NatToString(1) == "1";
  }

  /** Four columns `TTT`, `FFF`, `TFT`, `FFF` with `{0: ' ', 2: 'x'}` decode to `" <1>x<1>"`. */
  lemma WorkedExample()
    ensures Rectangular(ExampleMatrix) && Width(ExampleMatrix) == 4
    ensures LetterMapOf(ExampleMatrix, [0, 2], map[0 := ' ', 2 := 'x']).Ok?
    ensures Decoded(ExampleMatrix, LetterMapOf(ExampleMatrix, [0, 2], map[0 := ' ', 2 := 'x']).value,
                    FirstOccurrenceMap(ExampleMatrix, 4), 4) == " <1>x<1>"
  {
    ExampleLetterMap();
    ExampleFirstOccurrences();
    var lm := map[ExampleTTT := ' ', ExampleTFT := 'x'];
    var fo := map[ExampleTTT := 0, ExampleFFF := 1, ExampleTFT := 2];
    ExampleDecoded(lm, fo);
  }

  lemma ExampleDecoded(lm: LetterMap, fo: PositionMap)
    requires lm == map[ExampleTTT := ' ', ExampleTFT := 'x']
    requires fo == map[ExampleTTT := 0, ExampleFFF := 1, ExampleTFT := 2]
    ensures Rectangular(ExampleMatrix) && Width(ExampleMatrix) == 4 && Covers(ExampleMatrix, fo)
    ensures Decoded(ExampleMatrix, lm, fo, 4) == " <1>x<1>"
  {
    ExampleTokens(lm, fo);
    var m := ExampleMatrix;
    assert Decoded(m, lm, fo, 1) == " ";
    assert Decoded(m, lm, fo, 2) == " <1>" by {
      assert Decoded(m, lm, fo, 2) == Decoded(m, lm, fo, 1) + Token(m, lm, fo, 1);
    }
    assert Decoded(m, lm, fo, 3) == " <1>x" by {
      assert Decoded(m, lm, fo, 3) == Decoded(m, lm, fo, 2) + Token(m, lm, fo, 2);
    }
    assert Decoded(m, lm, fo, 4) == " <1>x<1>" by {
      assert Decoded(m, lm, fo, 4) == Decoded(m, lm, fo, 3) + Token(m, lm, fo, 3);
    }
  }

  const FormFeed: char := 12 as char

  /** `.replace('^J', '\n').replace('^I', '\t').replace('^L', '\f')`. */
  function Unescape(s: string): (r: string)
    ensures |r| <= |s|
  {
    Replace(Replace(Replace(s, "^J", "\n"), "^I", "\t"), "^L", [FormFeed])
  }

  /** After unescaping, no caret escape of the three kinds is left. */
  lemma UnescapeLeavesNoEscapes(s: string)
    ensures !Occurs(Unescape(s), '^', 'J')
    ensures !Occurs(Unescape(s), '^', 'I')
    ensures !Occurs(Unescape(s), '^', 'L')
  {
    var s1 := Replace(s, "^J", "\n");
    var s2 := Replace(s1, "^I", "\t");
    ReplaceRemoves(s, "^J", "\n");
    ReplaceKeepsAbsent(s1, "^I", "\t", '^', 'J');
    ReplaceRemoves(s1, "^I", "\t");
    ReplaceKeepsAbsent(s2, "^L", [FormFeed], '^', 'J');
    ReplaceKeepsAbsent(s2, "^L", [FormFeed], '^', 'I');
    ReplaceRemoves(s2, "^L", [FormFeed]);
  }

  /** A message without a caret is printed unchanged. */
  lemma UnescapeWithoutCaret(s: string)
    requires '^' !in s
    ensures Unescape(s) == s
  {
    ReplaceWithoutLead(s, "^J", "\n");
    ReplaceWithoutLead(s, "^I", "\t");
    ReplaceWithoutLead(s, "^L", [FormFeed]);
  }

  /** A replacement pass meets its own escape after caret-free text: it writes `rep` there and goes on. */
  lemma ReplaceAtEscape(a: string, b: string, pat: string, rep: string)
    requires |pat| == 2 && pat[0] == '^' && '^' !in a
    ensures Replace(a + pat + b, pat, rep) == a + rep + Replace(b, pat, rep)
  {
    var s := pat + b;
    assert a + pat + b == a + s;
    ReplaceAfterClean(a, s, pat, rep);
    assert s[..2] == pat && s[2..] == b;
    assert a + (rep + Replace(b, pat, rep)) == a + rep + Replace(b, pat, rep);
  }

  lemma ReplaceOtherEscape(e: char, b: string, pat: string, rep: string)
    requires |pat| == 2 && pat[0] == '^' && e != pat[1] && e != '^'
    ensures Replace(['^', e] + b, pat, rep) == ['^', e] + Replace(b, pat, rep)
  {
    var s := ['^', e] + b;
    assert s[..2][1] == e && s[1..] == [e] + b;
    ReplaceAfterClean([e], b, pat, rep);
  }

  /** A replacement pass meets another caret escape after caret-free text: it copies both and goes on. */
  lemma ReplaceSkipsEscape(a: string, e: char, b: string, pat: string, rep: string)
    requires |pat| == 2 && pat[0] == '^' && '^' !in a && e != pat[1] && e != '^'
    ensures Replace(a + ['^', e] + b, pat, rep) == a + ['^', e] + Replace(b, pat, rep)
  {
    assert a + ['^', e] + b == a + (['^', e] + b);
    ReplaceAfterClean(a, ['^', e] + b, pat, rep);
    ReplaceOtherEscape(e, b, pat, rep);
  }

  /** A replacement pass copies caret-free text followed by one more caret-free character. */
  lemma ReplacePastChar(a: string, x: char, b: string, pat: string, rep: string)
    requires |pat| == 2 && pat[0] == '^' && '^' !in a && x != '^'
    ensures Replace(a + [x] + b, pat, rep) == a + [x] + Replace(b, pat, rep)
  {
    assert '^' !in a + [x];
    ReplaceAfterClean(a + [x], b, pat, rep);
  }

  /**
   * Text before the first caret is kept, a `^J` there becomes a newline,
   * and the rest is unescaped on its own.
   */
  lemma UnescapeNewline(a: string, b: string)
    requires '^' !in a
    ensures Unescape(a + "^J" + b) == a + "\n" + Unescape(b)
  {
    var r1 := Replace(b, "^J", "\n");
    var r2 := Replace(r1, "^I", "\t");
    ReplaceAtEscape(a, b, "^J", "\n");
    ReplacePastChar(a, '\n', r1, "^I", "\t");
    ReplacePastChar(a, '\n', r2, "^L", [FormFeed]);
  }

  /** Likewise a `^I` before any other caret becomes a tab. */
  lemma UnescapeTab(a: string, b: string)
    requires '^' !in a
    ensures Unescape(a + "^I" + b) == a + "\t" + Unescape(b)
  {
    var r1 := Replace(b, "^J", "\n");
    var r2 := Replace(r1, "^I", "\t");
    ReplaceSkipsEscape(a, 'I', b, "^J", "\n");
    ReplaceAtEscape(a, r1, "^I", "\t");
    ReplacePastChar(a, '\t', r2, "^L", [FormFeed]);
  }

  /** Likewise a `^L` before any other caret becomes a form feed. */
  lemma UnescapeFormFeed(a: string, b: string)
    requires '^' !in a
    ensures Unescape(a + "^L" + b) == a + [FormFeed] + Unescape(b)
  {
    var r1 := Replace(b, "^J", "\n");
    var r2 := Replace(r1, "^I", "\t");
    ReplaceSkipsEscape(a, 'L', b, "^J", "\n");
    ReplaceSkipsEscape(a, 'L', r1, "^I", "\t");
    ReplaceAtEscape(a, r2, "^L", [FormFeed]);
  }
}
