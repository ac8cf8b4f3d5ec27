/**
 * The three JavaScript string operations the collection logic relies on:
 * `String.prototype.trim`, `String.prototype.toLowerCase` and
 * `String.prototype.includes` (from position 0).
 */
module Text {

  /**
   * The characters `trim` removes: ECMAScript's WhiteSpace (tab, vertical
   * tab, form feed, the zero-width no-break space, and the space separators
   * of Unicode category Zs) and LineTerminator (line feed, carriage return,
   * line separator, paragraph separator). U+0009 to U+000D are tab, line
   * feed, vertical tab, form feed and carriage return.
   */
  predicate IsSpace(c: char)
    ensures c == ' ' || c == '\t' || c == '\n' || c == '\r' ==> IsSpace(c)
    ensures 'a' <= c <= 'z' || 'A' <= c <= 'Z' || '0' <= c <= '9' ==> !IsSpace(c)
  {
    c == ' ' || '\t' <= c <= '\r' || c == '\U{00A0}' || c == '\U{1680}' ||
    '\U{2000}' <= c <= '\U{200A}' || c == '\U{2028}' || c == '\U{2029}' ||
    c == '\U{202F}' || c == '\U{205F}' || c == '\U{3000}' || c == '\U{FEFF}'
  }

  /** Every character of `s` is one `trim` removes. */
  ghost predicate AllSpace(s: string)
  {
    forall i :: 0 <= i < |s| ==> IsSpace(s[i])
  }

  /** How many white-space characters `s` starts with. */
  function LeadingSpace(s: string): (n: nat)
    ensures n <= |s|
    ensures forall i :: 0 <= i < n ==> IsSpace(s[i])
    ensures n < |s| ==> !IsSpace(s[n])
  {
    if s != [] && IsSpace(s[0]) then 1 + LeadingSpace(s[1..]) else 0
  }

  /** How many white-space characters `s` ends with. */
  function TrailingSpace(s: string): (n: nat)
    ensures n <= |s|
    ensures forall i :: |s| - n <= i < |s| ==> IsSpace(s[i])
    ensures n < |s| ==> !IsSpace(s[|s| - 1 - n])
  {
    if s != [] && IsSpace(s[|s| - 1]) then 1 + TrailingSpace(s[..|s| - 1]) else 0
  }

  /** The first half of `Trim`: `s` without its leading white space. */
  function TrimStart(s: string): (r: string)
  {
    s[LeadingSpace(s)..]
  }

  /** The second half of `Trim`: `s` without its trailing white space. */
  function TrimEnd(s: string): (r: string)
  {
    s[..|s| - TrailingSpace(s)]
  }

  /**
   * `s.trim()`. The result neither starts nor ends with white space, and it
   * is empty exactly when `s` is all white space.
   */
  function Trim(s: string): (r: string)
    ensures |r| <= |s|
    ensures r != [] ==> !IsSpace(r[0]) && !IsSpace(r[|r| - 1])
    ensures r == [] <==> AllSpace(s)
  {
    var t := TrimStart(s);
    var r := TrimEnd(t);
    assert t != [] ==> r != [] by {
      if t != [] {
        assert !IsSpace(t[0]);
      }
    }
    assert r != [] ==> r[0] == t[0] && r[|r| - 1] == t[|t| - 1 - TrailingSpace(t)];
    r
  }

  /** JavaScript's falsy test on a trimmed string: `!text.trim()`. */
  predicate IsBlank(s: string)
    ensures IsBlank(s) <==> AllSpace(s)
  {
    Trim(s) == []
  }

  /**
   * Trimming only cuts white space from the two ends: `Trim(s)` is the
   * slice of `s` that starts after its leading white space, and everything
   * before and after that slice is white space.
   */
  lemma TrimCutsEnds(s: string)
    ensures var n := LeadingSpace(s);
      n + |Trim(s)| <= |s| && Trim(s) == s[n..n + |Trim(s)|] &&
      (forall i :: 0 <= i < n ==> IsSpace(s[i])) &&
      (forall i :: n + |Trim(s)| <= i < |s| ==> IsSpace(s[i]))
  {
    var n := LeadingSpace(s);
    var t := s[n..];
    var k := |t| - TrailingSpace(t);
    assert Trim(s) == t[..k];
    TrimmedTail(s, n, k);
  }

  /** What `Trim` cuts from the end of `s` is white space. */
  lemma TrimmedTail(s: string, n: nat, k: nat)
    requires n <= |s| && n + k <= |s|
    requires k == |s[n..]| - TrailingSpace(s[n..])
    ensures s[n..][..k] == s[n..n + k]
    ensures forall i :: n + k <= i < |s| ==> IsSpace(s[i])
  {
    var t := s[n..];
    forall i | n + k <= i < |s| ensures IsSpace(s[i]) {
      assert s[i] == t[i - n];
    }
  }

  /** A string that is already trimmed is its own trim. */
  lemma {:induction false} TrimTrimmed(s: string)
    requires s == [] || (!IsSpace(s[0]) && !IsSpace(s[|s| - 1]))
    ensures Trim(s) == s
  {
    if s != [] {
      assert LeadingSpace(s) == 0;
      assert TrailingSpace(s) == 0;
    }
  }

  /** Trimming twice is trimming once. */
  lemma TrimIdempotent(s: string)
    ensures Trim(Trim(s)) == Trim(s)
  {
    TrimTrimmed(Trim(s));
  }

  /** One ASCII character lower-cased; every other character unchanged. */
  function LowerChar(c: char): (d: char)
    ensures !('A' <= d <= 'Z')
    ensures 'A' <= c <= 'Z' ==> 'a' <= d <= 'z' && d as int - 'a' as int == c as int - 'A' as int
    ensures 'a' <= c <= 'z' ==> d == c
    ensures d != c ==> 'A' <= c <= 'Z'
  {
    if 'A' <= c <= 'Z' then (c as int + 32) as char else c
  }

  /** `s.toLowerCase()`, folding ASCII letters only. */
  function ToLower(s: string): (r: string)
    ensures |r| == |s|
    ensures forall i :: 0 <= i < |s| ==> r[i] == LowerChar(s[i])
  {
    if s == [] then [] else [LowerChar(s[0])] + ToLower(s[1..])
  }

  /** Lower-casing leaves no upper-case ASCII letter, so it is idempotent. */
  lemma ToLowerIdempotent(s: string)
    ensures forall i :: 0 <= i < |s| ==> !('A' <= ToLower(s)[i] <= 'Z')
    ensures ToLower(ToLower(s)) == ToLower(s)
  {
  }

  /** `n` occurs in `h` starting at index `i`. */
  predicate OccursAt(h: string, n: string, i: int)
  {
    0 <= i && i + |n| <= |h| && h[i..i + |n|] == n
  }

  /** `h` starts with `n`. */
  predicate StartsWith(h: string, n: string)
  {
    |n| <= |h| && h[..|n|] == n
  }

  /** `h.includes(n)`: some suffix of `h` starts with `n`. */
  predicate Includes(h: string, n: string)
    ensures Includes(h, n) ==> |n| <= |h|
  {
    StartsWith(h, n) || (h != [] && Includes(h[1..], n))
  }

  /** An occurrence in `h[1..]` is an occurrence in `h`, one place later. */
  lemma OccursInTail(h: string, n: string, i: int)
    requires h != [] && 0 <= i
    ensures OccursAt(h[1..], n, i) <==> OccursAt(h, n, i + 1)
  {
    if i + |n| <= |h| - 1 {
      assert h[1..][i..i + |n|] == h[i + 1..i + 1 + |n|];
    }
  }

  /** An occurrence anywhere makes `Includes` hold. */
  lemma {:induction false} OccursIncluded(h: string, n: string, i: int)
    requires OccursAt(h, n, i)
    ensures Includes(h, n)
  {
    if i > 0 {
      OccursInTail(h, n, i - 1);
      OccursIncluded(h[1..], n, i - 1);
    }
  }

  /** `Includes` is the usual "occurs somewhere" relation. */
  lemma {:induction false} IncludesOccurs(h: string, n: string)
    ensures Includes(h, n) <==> exists i :: OccursAt(h, n, i)
  {
    if StartsWith(h, n) {
      assert OccursAt(h, n, 0);
    } else if h != [] && Includes(h[1..], n) {
      IncludesOccurs(h[1..], n);
      var i :| OccursAt(h[1..], n, i);
      OccursInTail(h, n, i);
    }
    if exists i :: OccursAt(h, n, i) {
      var i :| OccursAt(h, n, i);
      OccursIncluded(h, n, i);
    }
  }

  /** The empty string occurs in every string, the empty one included. */
  lemma IncludesEmpty(h: string)
    ensures Includes(h, "")
  {
    assert h[..0] == "";
  }
}
