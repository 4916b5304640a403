/** String normalisation used by the ETL script: Python's `str.strip()` and
    the lower-casing used for case-insensitive field lookup. */
module Text {

  /** Python's `str.isspace()`: the characters `str.strip()` removes when
      called without arguments. */
  predicate IsSpace(c: char) {
    var n := c as int;
    || 9 <= n <= 13
    || 28 <= n <= 32
    || n == 0x85 || n == 0xA0 || n == 0x1680
    || 0x2000 <= n <= 0x200A
    || n == 0x2028 || n == 0x2029 || n == 0x202F || n == 0x205F || n == 0x3000
  }

  /** Below U+0100 the whitespace characters are exactly the tab, line
      feed, vertical tab, form feed, carriage return, the four information
      separators U+001C..U+001F, space, NEXT LINE and NO-BREAK SPACE. */
  lemma IsSpaceLatin1(c: char)
    requires c as int < 0x100
    ensures IsSpace(c) <==> c as int in {9, 10, 11, 12, 13, 28, 29, 30, 31, 32, 0x85, 0xA0}
  {
  }

  predicate AllSpace(s: string) {
    forall i :: 0 <= i < |s| ==> IsSpace(s[i])
  }

  /** Neither the first nor the last character is whitespace. */
  predicate NoEdgeSpace(s: string) {
    s == [] || (!IsSpace(s[0]) && !IsSpace(s[|s| - 1]))
  }

  /** `r` is what is left of `s` once surrounding whitespace is cut off:
      `s` is some whitespace, then `r`, then some whitespace. */
  ghost predicate IsStripOf(s: string, r: string) {
    && NoEdgeSpace(r)
    && exists i :: 0 <= i <= |s| - |r| && s[i..i + |r|] == r && AllSpace(s[..i]) && AllSpace(s[i + |r|..])
  }

  /** The length of the leading whitespace run of `s`. */
  function LeadingSpaces(s: string): (n: nat)
    ensures n <= |s|
    ensures forall i :: 0 <= i < n ==> IsSpace(s[i])
    ensures n < |s| ==> !IsSpace(s[n])
  {
    if s == [] || !IsSpace(s[0]) then 0 else 1 + LeadingSpaces(s[1..])
  }

  /** The length of the trailing whitespace run of `s`. */
  function TrailingSpaces(s: string): (n: nat)
    ensures n <= |s|
    ensures forall i :: |s| - n <= i < |s| ==> IsSpace(s[i])
    ensures n < |s| ==> !IsSpace(s[|s| - 1 - n])
  {
    if s == [] || !IsSpace(s[|s| - 1]) then 0 else 1 + TrailingSpaces(s[..|s| - 1])
  }

  /** Python's `s.strip()`. */
  function Strip(s: string): (r: string)
    ensures |r| <= |s|
    ensures NoEdgeSpace(r)
  {
    var a := LeadingSpaces(s);
    if a == |s| then []
    else
      var b := TrailingSpaces(s);
      assert a < |s| - b;
      s[a..|s| - b]
  }

  /** `Strip` cuts off exactly the surrounding whitespace. */
  lemma StripIsStrip(s: string)
    ensures IsStripOf(s, Strip(s))
  {
    var a := LeadingSpaces(s);
    if a == |s| {
      StripWitnessBlank(s);
    } else {
      var e := |s| - TrailingSpaces(s);
      assert Strip(s) == s[a..e];
      StripWitness(s, a, e);
    }
  }

  lemma StripWitnessBlank(s: string)
    requires LeadingSpaces(s) == |s|
    ensures IsStripOf(s, Strip(s))
  {
    var n := |s|;
    var blank: string := [];
    assert AllSpace(s[..n]) by {
      forall i | 0 <= i < n ensures IsSpace(s[..n][i]) {
        assert s[..n][i] == s[i];
      }
    }
    assert s[n..n + |blank|] == blank && s[n + |blank|..] == blank;
    StripWitnessAt(s, blank, n);
  }

  /** The split of `s` at `i` around `r` shows that `r` is a strip of `s`. */
  lemma StripWitnessAt(s: string, r: string, i: nat)
    requires NoEdgeSpace(r) && i + |r| <= |s| && s[i..i + |r|] == r
    requires AllSpace(s[..i]) && AllSpace(s[i + |r|..])
    ensures IsStripOf(s, r)
  {
  }

  lemma StripWitness(s: string, a: nat, e: nat)
    requires a < e <= |s|
    requires forall i :: 0 <= i < a ==> IsSpace(s[i])
    requires forall i :: e <= i < |s| ==> IsSpace(s[i])
    requires !IsSpace(s[a]) && !IsSpace(s[e - 1])
    ensures IsStripOf(s, s[a..e])
  {
    var r := s[a..e];
    assert s[a..a + |r|] == r;
    assert AllSpace(s[..a]) by {
      forall i | 0 <= i < a ensures IsSpace(s[..a][i]) {
        assert s[..a][i] == s[i];
      }
    }
    assert AllSpace(s[e..]) by {
      forall i | 0 <= i < |s| - e ensures IsSpace(s[e..][i]) {
        assert s[e..][i] == s[e + i];
      }
    }
    assert r[0] == s[a] && r[|r| - 1] == s[e - 1];
    StripWitnessAt(s, r, a);
  }

  /** Stripping has exactly one possible outcome: any split of `s` into
      whitespace, a core without edge whitespace, and whitespace yields
      `Strip(s)` as that core. */
  lemma StripUnique(s: string, r: string)
    requires IsStripOf(s, r)
    ensures Strip(s) == r
  {
    var i :| 0 <= i <= |s| - |r| && s[i..i + |r|] == r && AllSpace(s[..i]) && AllSpace(s[i + |r|..]);
    if r == [] {
      StripAllSpace(s, i);
    } else {
      StripAround(s, r, i);
    }
  }

  /** A string made of whitespace only strips to the empty string. */
  lemma StripAllSpace(s: string, i: nat)
    requires i <= |s| && AllSpace(s[..i]) && AllSpace(s[i..])
    ensures Strip(s) == []
  {
    forall j | 0 <= j < |s|
      ensures IsSpace(s[j])
    {
      if j < i {
        assert s[..i][j] == s[j];
      } else {
        assert s[i..][j - i] == s[j];
      }
    }
    assert LeadingSpaces(s) == |s|;
  }

  /** A non-empty core between two whitespace runs is what `Strip` keeps. */
  lemma StripAround(s: string, r: string, i: nat)
    requires r != [] && NoEdgeSpace(r)
    requires i + |r| <= |s| && s[i..i + |r|] == r
    requires AllSpace(s[..i]) && AllSpace(s[i + |r|..])
    ensures Strip(s) == r
  {
    assert s[i] == r[0];
    forall j | 0 <= j < i ensures IsSpace(s[j]) {
      assert s[..i][j] == s[j];
    }
    assert LeadingSpaces(s) == i;
    var e := i + |r|;
    assert s[e - 1] == r[|r| - 1];
    forall j | e <= j < |s| ensures IsSpace(s[j]) {
      assert s[e..][j - e] == s[j];
    }
    assert TrailingSpaces(s) == |s| - e;
  }

  /** A string without surrounding whitespace strips to itself. */
  lemma StripKeepsClean(s: string)
    requires NoEdgeSpace(s)
    ensures Strip(s) == s
  {
    assert s[0..0 + |s|] == s && s[..0] == [] && s[0 + |s|..] == [];
    assert IsStripOf(s, s);
    StripUnique(s, s);
  }

  /** Stripping twice is stripping once. */
  lemma StripIdempotent(s: string)
    ensures Strip(Strip(s)) == Strip(s)
  {
    var r := Strip(s);
    assert r[0..0 + |r|] == r && r[..0] == [] && r[0 + |r|..] == [];
    assert IsStripOf(r, r);
    StripUnique(r, r);
  }

  /** Python's `str.lower()`, restricted to ASCII letters. */
  function LowerChar(c: char): (l: char)
    ensures 'A' <= c <= 'Z' ==> 'a' <= l <= 'z' && l as int - c as int == 32
    ensures !('A' <= c <= 'Z') ==> l == c
  {
    if 'A' <= c <= 'Z' then (c as int + 32) as char else c
  }

  function Lower(s: string): (l: string)
    ensures |l| == |s|
    ensures forall i :: 0 <= i < |s| ==> l[i] == LowerChar(s[i])
  {
    seq(|s|, i requires 0 <= i < |s| => LowerChar(s[i]))
  }

  /** Two names that differ only in the case of ASCII letters. */
  predicate SameIgnoringCase(a: string, b: string) {
    Lower(a) == Lower(b)
  }

  /** Lower-casing is idempotent, so a lower-cased name matches itself
      ignoring case. */
  lemma LowerIdempotent(s: string)
    ensures Lower(Lower(s)) == Lower(s)
    ensures SameIgnoringCase(s, Lower(s))
  {
  }
}
