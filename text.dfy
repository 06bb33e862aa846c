/** Decimal digits and Python's `str.replace`, as the decoder uses them. */
module Text {

  predicate IsDigit(c: char) { '0' <= c <= '9' }

  predicate AllDigits(s: string) { forall i :: 0 <= i < |s| ==> IsDigit(s[i]) }

  function DigitChar(d: nat): char
    requires d < 10
  {
    ('0' as int + d) as char
  }

  /** The decimal text of `n`, as `'%s' % n` and `str(n)` write it. */
  function NatToString(n: nat): (s: string)
    ensures |s| > 0 && AllDigits(s)
    ensures s[0] == '0' ==> n == 0
  {
    if n < 10 then [DigitChar(n)] else NatToString(n / 10) + [DigitChar(n % 10)]
  }

  /** The number a run of decimal digits denotes, as `int(...)` reads it. */
  function DigitsValue(s: string): (v: nat)
    requires AllDigits(s)
    ensures v == 0 <==> forall i :: 0 <= i < |s| ==> s[i] == '0'
  {
    if |s| == 0 then 0 else 10 * DigitsValue(s[..|s| - 1]) + (s[|s| - 1] as int - '0' as int)
  }

  lemma {:induction false} DigitsRoundTrip(n: nat)
    ensures DigitsValue(NatToString(n)) == n
  {
    if n >= 10 {
      var s := NatToString(n);
      assert s[..|s| - 1] == NatToString(n / 10);
      DigitsRoundTrip(n / 10);
    }
  }

  /** `s.replace(pat, rep)`: every non-overlapping occurrence of `pat`, scanning from the left. */
  function Replace(s: string, pat: string, rep: string): (r: string)
    requires |pat| > 0
    ensures |rep| <= |pat| ==> |r| <= |s|
    decreases |s|
  {
    if |s| < |pat| then s
    else if s[..|pat|] == pat then rep + Replace(s[|pat|..], pat, rep)
    else [s[0]] + Replace(s[1..], pat, rep)
  }

  /** The two characters `a`, `b` stand next to each other somewhere in `t`. */
  predicate Occurs(t: string, a: char, b: char)
  {
    exists i :: 0 <= i < |t| - 1 && t[i] == a && t[i + 1] == b
  }

  /** A string without the first character of the pattern is returned unchanged. */
  lemma {:induction false} ReplaceWithoutLead(s: string, pat: string, rep: string)
    requires |pat| > 0 && pat[0] !in s
    ensures Replace(s, pat, rep) == s
  {
    if |s| >= |pat| {
      assert s[0] in s;
      assert s[..|pat|][0] == s[0];
      assert pat[0] !in s[1..] by {
        forall x | x in s[1..] ensures x in s { }
      }
      ReplaceWithoutLead(s[1..], pat, rep);
      assert [s[0]] + s[1..] == s;
    }
  }

  /** The first character of a replacement: the replacement's own when the pattern leads, else the input's. */
  /** A prefix free of the pattern's first character is copied through, and the replacing goes on after it. */
  lemma {:induction false} ReplaceAfterClean(a: string, b: string, pat: string, rep: string)
    requires |pat| > 0 && pat[0] !in a
    ensures Replace(a + b, pat, rep) == a + Replace(b, pat, rep)
  {
    if |a| == 0 {
      assert a + b == b;
    } else {
      var s := a + b;
      assert s[0] == a[0] && s[1..] == a[1..] + b;
      if |s| >= |pat| {
        assert s[..|pat|][0] == a[0];
      } else {
        assert |b| < |pat|;
      }
      assert pat[0] !in a[1..] by {
        forall x | x in a[1..] ensures x in a { }
      }
      ReplaceAfterClean(a[1..], b, pat, rep);
      assert a + Replace(b, pat, rep) == [a[0]] + (a[1..] + Replace(b, pat, rep));
    }
  }

  lemma ReplaceHead(s: string, pat: string, rep: string)
    requires |pat| == 2 && |rep| > 0 && |s| > 0
    ensures |Replace(s, pat, rep)| > 0
    ensures Replace(s, pat, rep)[0] == if |s| >= 2 && s[..2] == pat then rep[0] else s[0]
  {
  }

  /** After replacing a two-character pattern by text free of both its characters, the pattern is gone. */
  lemma {:induction false} ReplaceRemoves(s: string, pat: string, rep: string)
    requires |pat| == 2 && |rep| > 0 && pat[0] !in rep && pat[1] !in rep
    ensures !Occurs(Replace(s, pat, rep), pat[0], pat[1])
  {
    var t := Replace(s, pat, rep);
    if |s| < 2 {
    } else if s[..2] == pat {
      var u := Replace(s[2..], pat, rep);
      ReplaceRemoves(s[2..], pat, rep);
      forall i | 0 <= i < |t| - 1 ensures !(t[i] == pat[0] && t[i + 1] == pat[1]) {
        if i < |rep| {
          assert t[i] == rep[i];
        } else {
          assert u[i - |rep|] == t[i] && u[i - |rep| + 1] == t[i + 1];
        }
      }
    } else {
      var u := Replace(s[1..], pat, rep);
      ReplaceRemoves(s[1..], pat, rep);
      ReplaceHead(s[1..], pat, rep);
      forall i | 0 <= i < |t| - 1 ensures !(t[i] == pat[0] && t[i + 1] == pat[1]) {
        if i == 0 {
          assert t[1] == u[0];
          assert s[..2] == [s[0], s[1]];
          assert rep[0] in rep;
        } else {
          assert u[i - 1] == t[i] && u[i] == t[i + 1];
        }
      }
    }
  }

  /** Replacing by text free of `a` and `b` does not create an adjacent pair `a`, `b`. */
  lemma {:induction false} ReplaceKeepsAbsent(s: string, pat: string, rep: string, a: char, b: char)
    requires |pat| == 2 && |rep| > 0 && a !in rep && b !in rep
    requires !Occurs(s, a, b)
    ensures !Occurs(Replace(s, pat, rep), a, b)
  {
    var t := Replace(s, pat, rep);
    if |s| < 2 {
    } else if s[..2] == pat {
      var u := Replace(s[2..], pat, rep);
      forall i | 0 <= i < |s[2..]| - 1 ensures !(s[2..][i] == a && s[2..][i + 1] == b) {
        assert s[2..][i] == s[i + 2] && s[2..][i + 1] == s[i + 3];
      }
      ReplaceKeepsAbsent(s[2..], pat, rep, a, b);
      forall i | 0 <= i < |t| - 1 ensures !(t[i] == a && t[i + 1] == b) {
        if i < |rep| {
          assert t[i] == rep[i];
        } else {
          assert u[i - |rep|] == t[i] && u[i - |rep| + 1] == t[i + 1];
        }
      }
    } else {
      var u := Replace(s[1..], pat, rep);
      forall i | 0 <= i < |s[1..]| - 1 ensures !(s[1..][i] == a && s[1..][i + 1] == b) {
        assert s[1..][i] == s[i + 1] && s[1..][i + 1] == s[i + 2];
      }
      ReplaceKeepsAbsent(s[1..], pat, rep, a, b);
      ReplaceHead(s[1..], pat, rep);
      forall i | 0 <= i < |t| - 1 ensures !(t[i] == a && t[i + 1] == b) {
        if i == 0 {
          assert t[1] == u[0];
          assert rep[0] in rep;
        } else {
          assert u[i - 1] == t[i] && u[i] == t[i + 1];
        }
      }
    }
  }
}
