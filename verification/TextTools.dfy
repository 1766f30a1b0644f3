/**
  Characters and text as Python and JavaScript treat them: line breaks and blanks over all
  of Unicode, lower case and stripping on ASCII.
 */
module TextTools {
  /** A character after which str.splitlines ends a line. */
  predicate IsBreak(c: char) {
    || c == '\n' || c == '\r' || c == '\U{000B}' || c == '\U{000C}'
    || c == '\U{001C}' || c == '\U{001D}' || c == '\U{001E}'
    || c == '\U{0085}' || c == '\U{2028}' || c == '\U{2029}'
  }

  /** str.isspace */
  predicate IsSpace(c: char) {
    || IsBreak(c) || c == ' ' || c == '\t' || c == '\U{001F}' || c == '\U{00A0}' || c == '\U{1680}'
    || '\U{2000}' <= c <= '\U{200A}' || c == '\U{202F}' || c == '\U{205F}' || c == '\U{3000}'
  }

  /** What JavaScript's trim removes. */
  predicate TrimSpace(c: char) {
    c == ' ' || '\t' <= c <= '\r'
  }

  /** What Python's strip removes. */
  predicate StripSpace(c: char) {
    TrimSpace(c) || '\U{001C}' <= c <= '\U{001F}'
  }

  function LowerChar(c: char): char {
    if 'A' <= c <= 'Z' then (c as int + 32) as char else c
  }

  function Lower(s: string): (l: string)
    ensures |l| == |s| && forall i | 0 <= i < |s| :: l[i] == LowerChar(s[i])
  {
    seq(|s|, i requires 0 <= i < |s| => LowerChar(s[i]))
  }

  function StripEnds(s: string, space: char -> bool): string
    decreases |s|
  {
    if s == "" then ""
    else if space(s[0]) then StripEnds(s[1..], space)
    else if space(s[|s| - 1]) then StripEnds(s[..|s| - 1], space)
    else s
  }

  predicate Stripped(s: string, space: char -> bool) {
    s == "" || (!space(s[0]) && !space(s[|s| - 1]))
  }

  lemma {:induction false} StripLeavesBare(s: string, space: char -> bool)
    ensures Stripped(StripEnds(s, space), space)
    ensures Stripped(s, space) ==> StripEnds(s, space) == s
    decreases |s|
  {
    if s == "" {
    } else if space(s[0]) {
      StripLeavesBare(s[1..], space);
    } else if space(s[|s| - 1]) {
      StripLeavesBare(s[..|s| - 1], space);
    }
  }

  predicate AllBlank(s: string, space: char -> bool) {
    forall i | 0 <= i < |s| :: space(s[i])
  }

  /** Stripping takes blanks off both ends and nothing else. */
  lemma {:induction false} StripTakesEnds(s: string, space: char -> bool) returns (left: string, right: string)
    ensures s == left + StripEnds(s, space) + right
    ensures AllBlank(left, space) && AllBlank(right, space) && Stripped(StripEnds(s, space), space)
    decreases |s|
  {
    StripLeavesBare(s, space);
    if s == "" {
      left, right := "", "";
    } else if space(s[0]) {
      left, right := StripTakesEnds(s[1..], space);
      left := [s[0]] + left;
    } else if space(s[|s| - 1]) {
      left, right := StripTakesEnds(s[..|s| - 1], space);
      right := right + [s[|s| - 1]];
    } else {
      left, right := "", "";
    }
  }

  /** So what is left between blanks, if neither of its ends is blank, is exactly what stripping leaves. */
  lemma {:induction false} StripIsTheMiddle(left: string, middle: string, right: string, space: char -> bool)
    requires AllBlank(left, space) && AllBlank(right, space) && Stripped(middle, space)
    ensures StripEnds(left + middle + right, space) == middle
    decreases |left| + |right|
  {
    var s := left + middle + right;
    if left != "" {
      assert s[1..] == left[1..] + middle + right;
      StripIsTheMiddle(left[1..], middle, right, space);
    } else if right != "" {
      assert s[..|s| - 1] == left + middle + right[..|right| - 1];
      StripIsTheMiddle(left, middle, right[..|right| - 1], space);
      if middle == "" {
        assert s == right && s[1..] == "" + middle + right[1..];
        StripIsTheMiddle("", middle, right[1..], space);
      }
    } else {
      assert s == middle;
      StripLeavesBare(middle, space);
    }
  }

  lemma LowerTwice(s: string)
    ensures Lower(Lower(s)) == Lower(s)
  {
  }
}
