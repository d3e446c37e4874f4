/**
  The two JavaScript string operations the handlers rely on:
  `String.prototype.includes` (the referer gate of index.js) and
  `String.prototype.trim` (the key normalisation of api/validar.js).
*/
module JsString {

  /** Whether `sub` occurs in `s` starting at offset `i`. */
  predicate OccursAt(s: string, sub: string, i: int) {
    0 <= i && i + |sub| <= |s| && s[i..i + |sub|] == sub
  }

  /** `s.includes(sub)`, searching from the left one offset at a time. */
  function Includes(s: string, sub: string): bool
    decreases |s|
  {
    (|sub| <= |s| && s[..|sub|] == sub) || (s != [] && Includes(s[1..], sub))
  }

  /** A slice of the tail is the slice of the whole string one position further on. */
  lemma TailSlice(s: string, i: int, n: int)
    requires 1 <= i && 0 <= n && i + n <= |s|
    ensures s[1..][i - 1..i - 1 + n] == s[i..i + n]
  {
  }

  /** `includes` answers yes exactly when some offset holds an occurrence. */
  lemma {:induction false} IncludesIff(s: string, sub: string)
    ensures Includes(s, sub) <==> exists i :: OccursAt(s, sub, i)
    decreases |s|
  {
    if |sub| <= |s| && s[..|sub|] == sub {
      assert OccursAt(s, sub, 0);
    } else if s != [] {
      IncludesIff(s[1..], sub);
      if exists i :: OccursAt(s[1..], sub, i) {
        var i :| OccursAt(s[1..], sub, i);
        TailSlice(s, i + 1, |sub|);
        assert OccursAt(s, sub, i + 1);
      }
      if exists i :: OccursAt(s, sub, i) {
        var i :| OccursAt(s, sub, i);
        assert i != 0;
        TailSlice(s, i, |sub|);
        assert OccursAt(s[1..], sub, i - 1);
      }
    }
  }

  /** Whatever surrounds it, a string with `sub` in it includes `sub`. */
  lemma IncludesInside(prefix: string, sub: string, suffix: string)
    ensures Includes(prefix + sub + suffix, sub)
  {
    var s := prefix + sub + suffix;
    IncludesIff(s, sub);
    assert s[|prefix|..|prefix| + |sub|] == sub;
    assert OccursAt(s, sub, |prefix|);
  }

  /** A string lacking one of the characters of `sub` does not include `sub`. */
  lemma MissingCharExcludes(s: string, sub: string, j: int)
    requires 0 <= j < |sub| && sub[j] !in s
    ensures !Includes(s, sub)
  {
    IncludesIff(s, sub);
    forall i | 0 <= i && i + |sub| <= |s| ensures !OccursAt(s, sub, i) {
      assert s[i + j] in s;
      assert s[i..i + |sub|][j] == s[i + j];
    }
  }

  /**
    ECMAScript WhiteSpace and LineTerminator code points: tab, line feed,
    vertical tab, form feed, carriage return, space, no-break space, the
    Unicode space separators (category Zs), line and paragraph separators,
    and the byte order mark.
  */
  predicate IsWhitespace(c: char) {
    var n := c as int;
    n == 0x09 || n == 0x0A || n == 0x0B || n == 0x0C || n == 0x0D || n == 0x20 ||
    n == 0xA0 || n == 0x1680 || (0x2000 <= n <= 0x200A) || n == 0x2028 || n == 0x2029 ||
    n == 0x202F || n == 0x205F || n == 0x3000 || n == 0xFEFF
  }

  /** Every character of `t` is whitespace. */
  predicate AllWhitespace(t: string) {
    forall i :: 0 <= i < |t| ==> IsWhitespace(t[i])
  }

  /** Drops leading whitespace: the result is a suffix of `s` that does not start with whitespace. */
  function TrimStart(s: string): (r: string)
    ensures |r| <= |s| && r == s[|s| - |r|..]
    ensures r != [] ==> !IsWhitespace(r[0])
  {
    if s != [] && IsWhitespace(s[0]) then TrimStart(s[1..]) else s
  }

  /** Drops trailing whitespace: the result is a prefix of `s` that does not end with whitespace. */
  function TrimEnd(s: string): (r: string)
    ensures |r| <= |s| && r == s[..|r|]
    ensures r != [] ==> !IsWhitespace(r[|r| - 1])
  {
    if s != [] && IsWhitespace(s[|s| - 1]) then TrimEnd(s[..|s| - 1]) else s
  }

  /** `s.trim()`. */
  function Trim(s: string): (r: string)
  {
    TrimEnd(TrimStart(s))
  }

  /**
    Trim removes exactly the whitespace at both ends: the result is the slice
    `s[lo..hi]` with only whitespace outside it.
  */
  lemma TrimSlice(s: string) returns (lo: nat, hi: nat)
    ensures lo <= hi <= |s| && Trim(s) == s[lo..hi]
    ensures AllWhitespace(s[..lo]) && AllWhitespace(s[hi..])
  {
    var t := TrimStart(s);
    var r := TrimEnd(t);
    assert Trim(s) == r;
    lo := |s| - |t|;
    hi := lo + |r|;
    PrefixOfSuffix(s, lo, |r|);
    LeadingWhitespace(s);
    TrailingWhitespace(t);
    assert s[hi..] == t[|r|..];
  }

  /** What trim returns neither starts nor ends with whitespace. */
  lemma TrimBorders(s: string)
    ensures Trim(s) != [] ==> !IsWhitespace(Trim(s)[0]) && !IsWhitespace(Trim(s)[|Trim(s)| - 1])
  {
    var t := TrimStart(s);
    var r := TrimEnd(t);
    assert Trim(s) == r;
    if r != [] {
      assert r == t[..|r|];
      assert r[0] == t[0];
    }
  }

  /** A prefix of a suffix is a middle slice. */
  lemma PrefixOfSuffix(s: string, lo: nat, n: nat)
    requires lo + n <= |s|
    ensures s[lo..][..n] == s[lo..lo + n]
  {
    forall i | 0 <= i < n ensures s[lo..][..n][i] == s[lo..lo + n][i] {
      assert s[lo..][..n][i] == s[lo + i];
    }
  }

  /** What TrimStart drops is whitespace. */
  lemma {:induction false} LeadingWhitespace(s: string)
    ensures AllWhitespace(s[..|s| - |TrimStart(s)|])
    decreases |s|
  {
    if s != [] && IsWhitespace(s[0]) {
      var n := |s| - |TrimStart(s)|;
      LeadingWhitespace(s[1..]);
      assert s[..n] == [s[0]] + s[1..][..n - 1];
    }
  }

  /** What TrimEnd drops is whitespace. */
  lemma {:induction false} TrailingWhitespace(s: string)
    ensures AllWhitespace(s[|TrimEnd(s)|..])
    decreases |s|
  {
    if s != [] && IsWhitespace(s[|s| - 1]) {
      var n := |TrimEnd(s)|;
      TrailingWhitespace(s[..|s| - 1]);
      assert s[n..] == s[..|s| - 1][n..] + [s[|s| - 1]];
    }
  }

  /** A string without surrounding whitespace is left as it is. */
  lemma TrimUnchanged(s: string)
    requires s == [] || (!IsWhitespace(s[0]) && !IsWhitespace(s[|s| - 1]))
    ensures Trim(s) == s
  {
  }

  /** Trimming twice is trimming once. */
  lemma TrimIdempotent(s: string)
    ensures Trim(Trim(s)) == Trim(s)
  {
    TrimBorders(s);
    TrimUnchanged(Trim(s));
  }
}
