/**
 * Python's `str.isspace()` and argument-less `str.strip()`, the two string
 * operations the merge rule and the cell rule depend on.
 */
module PyStr {

  /** The characters Python's `str.isspace()` accepts: the ASCII whitespace
      and separator controls, and the Unicode space separators together with
      the characters of bidirectional class WS, B or S (U+0085, U+00A0, ...). */
  predicate IsSpace(c: char)
    ensures c in " \t\n\r" || c == '\U{A0}' ==> IsSpace(c)
    ensures IsSpace(c) ==> !('0' <= c <= '9') && !('A' <= c <= 'Z') && !('a' <= c <= 'z')
  {
    var n := c as int;
    || (0x09 <= n <= 0x0D)
    || (0x1C <= n <= 0x20)
    || n == 0x85
    || n == 0xA0
    || n == 0x1680
    || (0x2000 <= n <= 0x200A)
    || n == 0x2028
    || n == 0x2029
    || n == 0x202F
    || n == 0x205F
    || n == 0x3000
  }

  /** The non-breaking space the dashboard renders into empty cells. */
  const Nbsp: char := '\U{A0}'

  /** `s.lstrip()`: the longest suffix of `s` that does not start with whitespace. */
  function TrimLeft(s: string): (r: string)
    ensures |r| <= |s| && r == s[|s| - |r|..]
    ensures forall j | 0 <= j < |s| - |r| :: IsSpace(s[j])
    ensures r != [] ==> !IsSpace(r[0])
  {
    if s != [] && IsSpace(s[0]) then TrimLeft(s[1..]) else s
  }

  /** `s.rstrip()`: the longest prefix of `s` that does not end with whitespace. */
  function TrimRight(s: string): (r: string)
    ensures |r| <= |s| && r == s[..|r|]
    ensures forall j | |r| <= j < |s| :: IsSpace(s[j])
    ensures r != [] ==> !IsSpace(r[|r| - 1])
  {
    if s != [] && IsSpace(s[|s| - 1]) then TrimRight(s[..|s| - 1]) else s
  }

  /** `r` is the part of `s` starting at `a`, with only whitespace before and after it. */
  predicate CoreAt(s: string, a: int, r: string) {
    && 0 <= a <= |s| - |r|
    && r == s[a..a + |r|]
    && (forall j | 0 <= j < a :: IsSpace(s[j]))
    && (forall j | a + |r| <= j < |s| :: IsSpace(s[j]))
  }

  /** `s.strip()`. The result is `s` with its leading and trailing whitespace
      cut off: a slice of `s` with only whitespace around it, empty exactly
      when `s` is whitespace only, and otherwise neither starting nor ending
      with whitespace. */
  function Strip(s: string): (r: string)
    ensures |r| <= |s|
    ensures exists a :: CoreAt(s, a, r)
    ensures r == [] <==> forall j | 0 <= j < |s| :: IsSpace(s[j])
    ensures r != [] ==> !IsSpace(r[0]) && !IsSpace(r[|r| - 1])
  {
    var left := TrimLeft(s);
    var r := TrimRight(left);
    TrimFacts(s, left, r);
    r
  }

  /** Cutting leading whitespace off `s` (giving `left`) and then trailing
      whitespace off `left` (giving `r`) leaves a core of `s` that is empty
      exactly when `s` is whitespace only. */
  lemma TrimFacts(s: string, left: string, r: string)
    requires |left| <= |s| && left == s[|s| - |left|..]
    requires forall j | 0 <= j < |s| - |left| :: IsSpace(s[j])
    requires left != [] ==> !IsSpace(left[0])
    requires |r| <= |left| && r == left[..|r|]
    requires forall j | |r| <= j < |left| :: IsSpace(left[j])
    requires r != [] ==> !IsSpace(r[|r| - 1])
    ensures CoreAt(s, |s| - |left|, r)
    ensures r == [] <==> forall j | 0 <= j < |s| :: IsSpace(s[j])
    ensures r != [] ==> !IsSpace(r[0]) && !IsSpace(r[|r| - 1])
  {
    var a := |s| - |left|;
    assert r == s[a..a + |r|];
    forall j | a + |r| <= j < |s| ensures IsSpace(s[j]) {
      assert s[j] == left[j - a];
    }
    if r != [] {
      assert r[0] == left[0] == s[a];
    }
  }

  /** Stripping never leaves a lone non-breaking space behind. */
  lemma StripIsNeverNbsp(s: string)
    ensures Strip(s) != [Nbsp]
  {
    assert IsSpace(Nbsp);
  }
}
