/** The two string operations the stores use besides ordinal equality:
    case-insensitive comparison (compare the folded strings) and `Trim`. */
module Text {

  /** Folds one character: ASCII upper-case letters become lower-case. */
  function FoldChar(c: char): char
  {
    if 'A' <= c <= 'Z' then (c as int + 32) as char else c
  }

  /** The case folding behind `StringComparison.*IgnoreCase`: two strings are
      equal ignoring case exactly when their folds are equal. */
  function Fold(s: string): (f: string)
    ensures |f| == |s|
  {
    if s == [] then [] else [FoldChar(s[0])] + Fold(s[1..])
  }

  /** Folding twice is folding once: a string with no ASCII upper-case
      letter left in it is its own fold. */
  lemma {:induction false} FoldIdempotent(s: string)
    ensures Fold(Fold(s)) == Fold(s)
  {
    if s != [] {
      FoldIdempotent(s[1..]);
      assert Fold(s)[1..] == Fold(s[1..]);
    }
  }

  /** Case-insensitive equality is strictly coarser than ordinal equality:
      "A" and "a" are equal ignoring case but differ ordinally. */
  lemma FoldIsCoarser()
    ensures Fold("A") == Fold("a") && "A" != "a"
  {
    assert Fold("A") == [FoldChar('A')] + Fold([]);
    assert Fold("a") == [FoldChar('a')] + Fold([]);
  }

  /** White space as `char.IsWhiteSpace` classifies the Latin-1 range. */
  predicate IsWhiteSpace(c: char)
  {
    c == ' ' || c == '\t' || c == '\n' || c == '\r' || c == '\U{0B}' || c == '\U{0C}'
    || c == '\U{85}' || c == '\U{A0}'
  }

  /** Drops the leading white space. */
  function TrimStart(s: string): (t: string)
    ensures |t| <= |s| && t == s[|s| - |t|..]
    ensures t == [] || !IsWhiteSpace(t[0])
    ensures forall i :: 0 <= i < |s| - |t| ==> IsWhiteSpace(s[i])
  {
    if s != [] && IsWhiteSpace(s[0]) then TrimStart(s[1..]) else s
  }

  /** Drops the trailing white space. */
  function TrimEnd(s: string): (t: string)
    ensures |t| <= |s| && t == s[..|t|]
    ensures t == [] || !IsWhiteSpace(t[|t| - 1])
    ensures forall i :: |t| <= i < |s| ==> IsWhiteSpace(s[i])
  {
    if s != [] && IsWhiteSpace(s[|s| - 1]) then TrimEnd(s[..|s| - 1]) else s
  }

  /** `string.Trim()`: drops white space at both ends. */
  function Trim(s: string): (t: string)
    ensures |t| <= |s|
    ensures t == [] || (!IsWhiteSpace(t[0]) && !IsWhiteSpace(t[|t| - 1]))
  {
    TrimEnd(TrimStart(s))
  }

  /** Trimming keeps the middle of the string as it is: the result is the
      slice of `s` left after dropping its leading and trailing white space. */
  lemma TrimDropsOnlyBorderSpace(s: string)
    ensures |s| - |TrimStart(s)| + |Trim(s)| <= |s|
    ensures Trim(s) == s[|s| - |TrimStart(s)|..|s| - |TrimStart(s)| + |Trim(s)|]
    ensures forall i :: 0 <= i < |s| - |TrimStart(s)| ==> IsWhiteSpace(s[i])
    ensures forall i :: |s| - |TrimStart(s)| + |Trim(s)| <= i < |s| ==> IsWhiteSpace(s[i])
  {
    var u := TrimStart(s);
    var k := |s| - |u|;
    var t := TrimEnd(u);
    assert Trim(s) == t;
    assert u == s[k..];
    assert t == u[..|t|];
    assert s[k..k + |t|] == u[..|t|];
    forall i | k + |t| <= i < |s| ensures IsWhiteSpace(s[i]) {
      assert s[i] == u[i - k];
    }
  }
}
