/** String operations the tracker applies to identifiers and names.
    Strings are sequences of characters; each function mirrors one
    Python string operation used by the application. */
module Text {

  type String = seq<char>

  /** ASCII lower-casing of one character (Python's str.lower on the
      letters that occur in route identifiers and line labels). */
  function LowerChar(c: char): char
  {
    if 'A' <= c <= 'Z' then (c as int + 32) as char else c
  }

  predicate IsUpper(c: char)
  {
    'A' <= c <= 'Z'
  }

  /** `s.lower()` */
  function Lower(s: String): (r: String)
    ensures |r| == |s|
    ensures forall i :: 0 <= i < |s| ==> r[i] == LowerChar(s[i])
    ensures forall i :: 0 <= i < |r| ==> !IsUpper(r[i])
  {
    if |s| == 0 then [] else [LowerChar(s[0])] + Lower(s[1..])
  }

  /** `s.startswith(p)` */
  predicate StartsWith(s: String, p: String)
  {
    |p| <= |s| && s[..|p|] == p
  }

  /** Substring test, scanning `s` from the left as `str.contains`
      does for a pattern without regular-expression metacharacters. */
  predicate Contains(s: String, t: String)
    decreases |s|
  {
    StartsWith(s, t) || (|s| > 0 && Contains(s[1..], t))
  }

  /** The scan finds `t` exactly when `t` occurs at some offset of `s`. */
  lemma {:induction false} ContainsIffOccurs(s: String, t: String)
    ensures Contains(s, t) <==> exists i :: 0 <= i <= |s| && StartsWith(s[i..], t)
    decreases |s|
  {
    assert s[0..] == s;
    if |s| > 0 {
      ContainsIffOccurs(s[1..], t);
      if Contains(s[1..], t) {
        var i :| 0 <= i <= |s[1..]| && StartsWith(s[1..][i..], t);
        assert s[1..][i..] == s[i + 1..];
        assert StartsWith(s[i + 1..], t);
      }
      forall i | 1 <= i <= |s| && StartsWith(s[i..], t)
        ensures Contains(s[1..], t)
      {
        assert s[1..][i - 1..] == s[i..];
      }
    } else {
      forall i | 0 <= i <= |s| && StartsWith(s[i..], t)
        ensures StartsWith(s, t)
      {
        assert s[i..] == s;
      }
    }
  }

  /** `s.replace(pat, '')`: every non-overlapping occurrence of `pat`,
      found left to right, is deleted; the text that remains is not
      scanned again. */
  function RemoveAll(s: String, pat: String): (r: String)
    requires |pat| > 0
    ensures |r| <= |s|
    ensures forall c :: c in r ==> c in s
    decreases |s|
  {
    if |s| == 0 then []
    else if StartsWith(s, pat) then RemoveAll(s[|pat|..], pat)
    else [s[0]] + RemoveAll(s[1..], pat)
  }

  /** A string without an occurrence of the pattern is left unchanged. */
  lemma {:induction false} RemoveAllAbsent(s: String, pat: String)
    requires |pat| > 0
    requires !Contains(s, pat)
    ensures RemoveAll(s, pat) == s
    decreases |s|
  {
    if |s| > 0 {
      RemoveAllAbsent(s[1..], pat);
      assert [s[0]] + s[1..] == s;
    }
  }

  /** Every leading occurrence of the pattern is dropped. */
  lemma RemoveAllLeading(s: String, pat: String)
    requires |pat| > 0
    ensures RemoveAll(pat + s, pat) == RemoveAll(s, pat)
  {
  }

  /** A pattern whose first character does not occur in `s` is not
      found in `s`. */
  lemma {:induction false} FirstCharAbsent(s: String, t: String)
    requires |t| > 0 && t[0] !in s
    ensures !Contains(s, t)
    decreases |s|
  {
    if |s| > 0 {
      FirstCharAbsent(s[1..], t);
    }
  }

  /** `s.split(c)[0]`: the text before the first `c`, or all of `s`. */
  function CutAt(s: String, c: char): (r: String)
    ensures r <= s
    ensures c !in r
    ensures |r| < |s| ==> s[|r|] == c
    decreases |s|
  {
    if |s| == 0 || s[0] == c then [] else [s[0]] + CutAt(s[1..], c)
  }

  /** `s[:n]`: Python slicing clips at the end of a short string. */
  function Take(s: String, n: nat): (r: String)
    ensures r <= s
    ensures |r| == if |s| < n then |s| else n
  {
    if |s| < n then s else s[..n]
  }

  /** Python's `<` on strings: lexicographic by code point, a proper
      prefix ordered first. */
  predicate Less(a: String, b: String)
    decreases |a|
  {
    if |a| == 0 then |b| > 0
    else if |b| == 0 then false
    else a[0] < b[0] || (a[0] == b[0] && Less(a[1..], b[1..]))
  }

  lemma {:induction false} LessIrreflexive(a: String)
    ensures !Less(a, a)
    decreases |a|
  {
    if |a| > 0 {
      LessIrreflexive(a[1..]);
    }
  }

  lemma {:induction false} LessTransitive(a: String, b: String, c: String)
    requires Less(a, b) && Less(b, c)
    ensures Less(a, c)
    decreases |a|
  {
    if |a| > 0 && a[0] == b[0] == c[0] {
      LessTransitive(a[1..], b[1..], c[1..]);
    }
  }

  lemma {:induction false} LessTotal(a: String, b: String)
    requires a != b
    ensures Less(a, b) || Less(b, a)
    decreases |a|
  {
    if |a| > 0 && |b| > 0 && a[0] == b[0] {
      assert a == [a[0]] + a[1..] && b == [b[0]] + b[1..];
      LessTotal(a[1..], b[1..]);
    }
  }
}
