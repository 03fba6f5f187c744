/** The three string operations the search form relies on: `trim`,
    `toLowerCase` and `includes`. Strings are sequences of UTF-16 code units in
    JavaScript; every character named here lies in the Basic Multilingual Plane,
    so one `char` stands for one code unit. */
module Text {

  /** ECMAScript WhiteSpace and LineTerminator code points, the set `trim`
      removes: tab, vertical tab, form feed, space, no-break space, byte order
      mark, the other space separators (category Zs), line feed, carriage
      return, line separator and paragraph separator. */
  predicate IsSpace(c: char)
  {
    c in WhiteSpace
  }

  const WhiteSpace: set<char> := {
    '\t', '\U{000B}', '\U{000C}', ' ', '\U{00A0}', '\U{FEFF}', '\U{1680}',
    '\U{2000}', '\U{2001}', '\U{2002}', '\U{2003}', '\U{2004}', '\U{2005}',
    '\U{2006}', '\U{2007}', '\U{2008}', '\U{2009}', '\U{200A}',
    '\U{202F}', '\U{205F}', '\U{3000}',
    '\n', '\r', '\U{2028}', '\U{2029}'
  }

  predicate AllSpace(s: string)
  {
    forall i :: 0 <= i < |s| ==> IsSpace(s[i])
  }

  /** How many white-space characters `s` starts with. */
  function LeadingSpaces(s: string): (n: nat)
    ensures n <= |s|
    ensures forall k :: 0 <= k < n ==> IsSpace(s[k])
    ensures n < |s| ==> !IsSpace(s[n])
    decreases |s|
  {
    if |s| > 0 && IsSpace(s[0]) then 1 + LeadingSpaces(s[1..]) else 0
  }

  /** How many white-space characters `s` ends with. */
  function TrailingSpaces(s: string): (n: nat)
    ensures n <= |s|
    ensures forall k :: |s| - n <= k < |s| ==> IsSpace(s[k])
    ensures n < |s| ==> !IsSpace(s[|s| - n - 1])
    decreases |s|
  {
    if |s| > 0 && IsSpace(s[|s| - 1]) then 1 + TrailingSpaces(s[..|s| - 1]) else 0
  }

  /** `String.prototype.trim`: `s` without its leading and trailing white
      space. */
  function Trim(s: string): (r: string)
    ensures |r| <= |s|
    ensures r == [] || (!IsSpace(r[0]) && !IsSpace(r[|r| - 1]))
  {
    var lead := LeadingSpaces(s);
    if lead == |s| then []
    else
      var trail := TrailingSpaces(s);
      assert !IsSpace(s[lead]);
      s[lead..|s| - trail]
  }

  /** The trimmed string is the piece of the original that follows the
      leading white space and precedes the trailing white space. */
  lemma TrimLocates(s: string) returns (i: nat)
    ensures OccursAt(s, Trim(s), i)
    ensures forall k :: 0 <= k < i ==> IsSpace(s[k])
    ensures forall k :: i + |Trim(s)| <= k < |s| ==> IsSpace(s[k])
  {
    i := LeadingSpaces(s);
    if i == |s| {
    } else {
      var trail := TrailingSpaces(s);
      assert Trim(s) == s[i..|s| - trail];
    }
  }

  /** A query is blank exactly when trimming leaves nothing. */
  lemma TrimEmptyIffBlank(s: string)
    ensures Trim(s) == [] <==> AllSpace(s)
  {
    var i := TrimLocates(s);
    if Trim(s) != [] {
      assert Trim(s)[0] == s[i];
    }
  }

  /** The ASCII lower-case form of one character. */
  function LowerChar(c: char): char
  {
    if 'A' <= c <= 'Z' then (c as int + 32) as char else c
  }

  /** `String.prototype.toLowerCase`, restricted to the ASCII letters. */
  function ToLower(s: string): (r: string)
    ensures |r| == |s|
    ensures forall i :: 0 <= i < |s| ==> !('A' <= r[i] <= 'Z')
    ensures forall i :: 0 <= i < |s| && !('A' <= s[i] <= 'Z') ==> r[i] == s[i]
    ensures forall i :: 0 <= i < |s| && 'A' <= s[i] <= 'Z' ==> r[i] as int == s[i] as int + 32
  {
    seq(|s|, i requires 0 <= i < |s| => LowerChar(s[i]))
  }

  /** `n` sits in `h` starting at position `i`. */
  predicate OccursAt(h: string, n: string, i: int)
  {
    0 <= i && i + |n| <= |h| && h[i..i + |n|] == n
  }

  lemma OccursAtTail(h: string, n: string)
    requires |h| > 0
    ensures forall i :: 0 <= i ==> (OccursAt(h[1..], n, i) <==> OccursAt(h, n, i + 1))
  {
    forall i | 0 <= i
      ensures OccursAt(h[1..], n, i) <==> OccursAt(h, n, i + 1)
    {
      if 0 <= i && i + |n| <= |h| - 1 {
        assert h[1..][i..i + |n|] == h[i + 1..i + 1 + |n|];
      }
    }
  }

  /** `String.prototype.includes`: `n` occurs somewhere in `h` (the empty
      string occurs everywhere). */
  function Contains(h: string, n: string): (r: bool)
    ensures r <==> exists i :: OccursAt(h, n, i)
    decreases |h|
  {
    if |n| > |h| then false
    else if h[..|n|] == n then assert OccursAt(h, n, 0); true
    else
      OccursAtTail(h, n);
      var r := Contains(h[1..], n);
      assert r ==> exists i :: OccursAt(h, n, i) by {
        if r {
          var i :| OccursAt(h[1..], n, i);
          assert OccursAt(h, n, i + 1);
        }
      }
      assert (exists i :: OccursAt(h, n, i)) ==> r by {
        if exists i :: OccursAt(h, n, i) {
          var i :| OccursAt(h, n, i);
          assert i != 0;
          assert OccursAt(h[1..], n, i - 1);
        }
      }
      r
  }
}
