/**
 The two string operations the scraper applies to the text of a table
 cell: Python's `str.strip()` with no argument, and the slice `s[:-1]`.
 */
module Text {

  type String = seq<char>

  /**
   Python's `str.isspace` for a single character: the ASCII controls
   TAB..CR and FS..US, SPACE, NEL, NO-BREAK SPACE and the Unicode space
   separators, line and paragraph separators.
   */
  predicate IsSpace(c: char)
  {
    var n := c as int;
    || 0x09 <= n <= 0x0D
    || 0x1C <= n <= 0x20
    || n == 0x85 || n == 0xA0 || n == 0x1680
    || 0x2000 <= n <= 0x200A
    || n == 0x2028 || n == 0x2029 || n == 0x202F || n == 0x205F || n == 0x3000
  }

  predicate AllSpace(s: String)
  {
    forall i :: 0 <= i < |s| ==> IsSpace(s[i])
  }

  /** Removes the leading whitespace. */
  function LStrip(s: String): String
  {
    if s == [] || !IsSpace(s[0]) then s else LStrip(s[1..])
  }

  /** Removes the trailing whitespace. */
  function RStrip(s: String): String
  {
    if s == [] || !IsSpace(s[|s| - 1]) then s else RStrip(s[..|s| - 1])
  }

  /** `s.strip()`: whitespace removed at both ends. */
  function Strip(s: String): String
  {
    RStrip(LStrip(s))
  }

  /** What `LStrip` cuts off is all whitespace, and what it keeps is a suffix that starts with none. */
  lemma {:induction false} LStripShape(s: String)
    ensures var r := LStrip(s);
      && |r| <= |s| && r == s[|s| - |r|..]
      && AllSpace(s[..|s| - |r|])
      && (r == [] || !IsSpace(r[0]))
  {
    if s != [] && IsSpace(s[0]) {
      LStripShape(s[1..]);
      var r := LStrip(s);
      assert s[1..][|s| - 1 - |r|..] == s[|s| - |r|..];
      assert s[..|s| - |r|] == [s[0]] + s[1..][..|s| - 1 - |r|];
    }
  }

  /** What `RStrip` cuts off is all whitespace, and what it keeps is a prefix that ends with none. */
  lemma {:induction false} RStripShape(s: String)
    ensures var r := RStrip(s);
      && |r| <= |s| && r == s[..|r|]
      && AllSpace(s[|r|..])
      && (r == [] || !IsSpace(r[|r| - 1]))
  {
    if s != [] && IsSpace(s[|s| - 1]) {
      var init := s[..|s| - 1];
      RStripShape(init);
      var r := RStrip(s);
      assert init[..|r|] == s[..|r|];
      assert s[|r|..] == init[|r|..] + [s[|s| - 1]];
    }
  }

  /**
   `Strip(s)` is the slice of `s` left once the whitespace at both ends is
   removed: it neither starts nor ends with whitespace, and what is cut off
   on either side is all whitespace.
   */
  lemma StripShape(s: String)
    ensures var r := Strip(s);
      && (r == [] || (!IsSpace(r[0]) && !IsSpace(r[|r| - 1])))
      && var lo := |s| - |LStrip(s)|;
      && 0 <= lo && lo + |r| <= |s|
      && s[lo..lo + |r|] == r
      && AllSpace(s[..lo])
      && AllSpace(s[lo + |r|..])
  {
    var l := LStrip(s);
    var r := RStrip(l);
    LStripShape(s);
    RStripShape(l);
    SliceOfSuffix(s, |s| - |l|, |r|);
  }

  lemma SliceOfSuffix(s: String, lo: nat, n: nat)
    requires lo + n <= |s|
    ensures s[lo..][..n] == s[lo..lo + n]
    ensures s[lo..][n..] == s[lo + n..]
  {
  }

  /** Stripping twice is stripping once. */
  lemma StripIdempotent(s: String)
    ensures Strip(Strip(s)) == Strip(s)
  {
    var r := Strip(s);
    StripShape(s);
    assert LStrip(r) == r;
    assert RStrip(r) == r;
  }

  /** `s[:-1]`: everything but the last character; the empty string stays empty. */
  function DropLast(s: String): (r: String)
    ensures |s| == 0 ==> r == []
    ensures |s| > 0 ==> r + [s[|s| - 1]] == s
  {
    if |s| == 0 then [] else s[..|s| - 1]
  }
}
