/** Python's `strip`, for the characters that a predicate calls white. */
module Stripping {

  function StripLeft(s: string, white: char -> bool): string {
    if s != [] && white(s[0]) then StripLeft(s[1..], white) else s
  }

  function StripRight(s: string, white: char -> bool): string
    decreases |s|
  {
    if s != [] && white(s[|s| - 1]) then StripRight(s[..|s| - 1], white) else s
  }

  function Strip(s: string, white: char -> bool): string { StripRight(StripLeft(s, white), white) }

  /** Nothing at either end is left to strip. */
  predicate Bare(s: string, white: char -> bool) {
    s != [] ==> !white(s[0]) && !white(s[|s| - 1])
  }

  lemma {:induction false} StripLeftBare(s: string, white: char -> bool)
    ensures var t := StripLeft(s, white); (t != [] ==> !white(t[0])) && |t| <= |s| && t == s[|s| - |t|..]
    ensures forall k :: 0 <= k < |s| - |StripLeft(s, white)| ==> white(s[k])
    decreases |s|
  {
    if s != [] && white(s[0]) {
      StripLeftBare(s[1..], white);
      assert forall k :: 0 < k < |s| ==> s[k] == s[1..][k - 1];
    }
  }

  lemma {:induction false} StripRightBare(s: string, white: char -> bool)
    ensures var t := StripRight(s, white); (t != [] ==> !white(t[|t| - 1])) && |t| <= |s| && t == s[..|t|]
    ensures forall k :: |StripRight(s, white)| <= k < |s| ==> white(s[k])
    decreases |s|
  {
    if s != [] && white(s[|s| - 1]) { StripRightBare(s[..|s| - 1], white); }
  }

  /** `s` from `i` to `j`, and only white characters around it. */
  ghost predicate IsCore(s: string, white: char -> bool, i: nat, j: nat) {
    && i <= j <= |s|
    && (forall k :: 0 <= k < i ==> white(s[k]))
    && forall k :: j <= k < |s| ==> white(s[k])
  }

  /** The result of stripping is bare, and it is the string without white characters at its ends. */
  lemma StripIsBare(s: string, white: char -> bool)
    ensures var t := Strip(s, white); Bare(t, white) && exists i: nat, j: nat :: IsCore(s, white, i, j) && t == s[i..j]
  {
    StripLeftBare(s, white);
    var left := StripLeft(s, white);
    StripRightBare(left, white);
    var t, i := StripRight(left, white), |s| - |left|;
    assert t == s[i..i + |t|];
    assert forall k :: i <= k < |s| ==> s[k] == left[k - i];
    assert IsCore(s, white, i, i + |t|);
  }

  predicate AllWhite(s: string, white: char -> bool) { forall k :: 0 <= k < |s| ==> white(s[k]) }

  lemma {:induction false} StripRightPadded(s: string, right: string, white: char -> bool)
    requires AllWhite(right, white) && Bare(s, white)
    ensures StripRight(s + right, white) == s
    decreases |right|
  {
    if right == [] {
      assert s + right == s;
    } else {
      assert (s + right)[..|s + right| - 1] == s + right[..|right| - 1];
      StripRightPadded(s, right[..|right| - 1], white);
    }
  }

  /** White characters before and after a string with none at its ends are stripped. */
  lemma StripPadded(left: string, s: string, right: string, white: char -> bool)
    requires AllWhite(left, white) && AllWhite(right, white) && Bare(s, white) && s != []
    ensures Strip(left + (s + right), white) == s
  {
    StripUpTo(left, s, right, white);
    StripRightPadded(s, right, white);
  }

  lemma {:induction false} StripUpTo(left: string, s: string, right: string, white: char -> bool)
    requires AllWhite(left, white) && Bare(s, white) && s != []
    ensures StripLeft(left + (s + right), white) == s + right
    decreases |left|
  {
    if left == [] {
      assert left + (s + right) == s + right;
    } else {
      assert (left + (s + right))[1..] == left[1..] + (s + right);
      StripUpTo(left[1..], s, right, white);
    }
  }

  lemma StripOfBare(s: string, white: char -> bool)
    requires Bare(s, white)
    ensures Strip(s, white) == s
  {
  }
}
