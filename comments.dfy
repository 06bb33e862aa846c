/**
 * The comment parser: a leftmost search for the pattern
 * `Data recovered: SEQ-(\d+) = '(.)'` in an image's comment text.
 */
module Comments {
  import opened Common
  import opened Text

  const Prefix: string := "Data recovered: SEQ-"
  const Separator: string := " = '"

  /** The shortest text the pattern matches: the prefix, one digit, the separator, a character and a quote. */
  const MinMatch: nat := |Prefix| + 1 + |Separator| + 2

  /** The length of the run of digits starting at `p`; the digits end where a non-digit or the text does. */
  function DigitRun(s: string, p: nat): (n: nat)
    requires p <= |s|
    ensures p + n <= |s|
    ensures forall i :: p <= i < p + n ==> IsDigit(s[i])
    ensures p + n < |s| ==> !IsDigit(s[p + n])
    decreases |s| - p
  {
    if p < |s| && IsDigit(s[p]) then 1 + DigitRun(s, p + 1) else 0
  }

  /**
   * The pattern matched at exactly position `p`: the prefix, one or more digits
   * (necessarily all of them, since a space follows), the separator, one
   * character other than a newline, and a closing quote.
   */
  function MatchAt(s: string, p: nat): (r: Option<(nat, char)>)
    requires p <= |s|
    ensures r.Some? ==> p + MinMatch <= |s| && s[p..p + |Prefix|] == Prefix
    ensures r.Some? ==> r.value.1 != '\n'
  {
    if p + |Prefix| <= |s| && s[p..p + |Prefix|] == Prefix then
      var q := p + |Prefix|;
      var t := q + DigitRun(s, q);
      if t > q && t + |Separator| + 2 <= |s| && s[t..t + |Separator|] == Separator
         && s[t + |Separator|] != '\n' && s[t + |Separator| + 1] == '\''
      then
        assert AllDigits(s[q..t]) by {
          forall i | 0 <= i < t - q ensures IsDigit(s[q..t][i]) {
            assert s[q..t][i] == s[q + i];
          }
        }
        Some((DigitsValue(s[q..t]), s[t + |Separator|]))
      else None
    else None
  }

  /** `re.search` from `p` on: the match at the leftmost position that has one. */
  function Search(s: string, p: nat): (r: Option<(nat, char)>)
    requires p <= |s|
    ensures p + MinMatch > |s| ==> r.None?
    ensures r.Some? ==> r.value.1 != '\n'
    decreases |s| - p
  {
    if MatchAt(s, p).Some? then MatchAt(s, p)
    else if p == |s| then None
    else Search(s, p + 1)
  }

  /** No position in `[p, q)` starts a match. */
  ghost predicate NoMatchBetween(s: string, p: nat, q: nat)
    requires q <= |s| + 1
  {
    forall i :: p <= i < q ==> MatchAt(s, i).None?
  }

  /** The search finds the leftmost match from `p` on, and finds nothing only when there is none. */
  lemma {:induction false} SearchIsLeftmost(s: string, p: nat)
    requires p <= |s|
    ensures Search(s, p).Some? ==>
              exists q :: p <= q <= |s| && MatchAt(s, q) == Search(s, p) && NoMatchBetween(s, p, q)
    ensures Search(s, p).None? ==> NoMatchBetween(s, p, |s| + 1)
    decreases |s| - p
  {
    if MatchAt(s, p).Some? {
      assert NoMatchBetween(s, p, p);
    } else if p < |s| {
      SearchIsLeftmost(s, p + 1);
      if Search(s, p).Some? {
        var q :| p + 1 <= q <= |s| && MatchAt(s, q) == Search(s, p) && NoMatchBetween(s, p + 1, q);
        assert NoMatchBetween(s, p, q);
      }
    }
  }

  /** The sequence number and character a comment carries, or None when it carries none. */
  function ParseComment(comment: string): (r: Option<(nat, char)>)
    ensures |comment| < MinMatch ==> r.None?
    ensures r.Some? ==> r.value.1 != '\n'
  {
    Search(comment, 0)
  }

  /** The comment text an image carrying sequence number `n` and character `c` has. */
  function CommentFor(n: nat, c: char): string
  {
    Prefix + NatToString(n) + Separator + [c, '\'']
  }

  /** Parsing the comment written for `(n, c)` gives back `(n, c)`. */
  lemma ParseCommentFor(n: nat, c: char)
    requires c != '\n'
    ensures ParseComment(CommentFor(n, c)) == Some((n, c))
  {
    var s := CommentFor(n, c);
    var digits := NatToString(n);
    var q := |Prefix|;
    var t := q + |digits|;
    assert s[..q] == Prefix;
    assert s[q..t] == digits;
    assert s[t..t + |Separator|] == Separator;
    assert s[t] == ' ';
    assert DigitRun(s, q) == |digits|;
    DigitsRoundTrip(n);
    assert MatchAt(s, 0) == Some((n, c));
  }
}
