/**
  Cutting a bracketed literal out of a resource file
  (tools/migration/convert_migration_data.py).
 */
module LiteralScanner {
  import opened Prelude
  import opened TextTools

  datatype Mode = Outside | InString | Escaping

  /** Where the scanner is after a text: outside strings, in one, or behind its backslash. */
  function ModeAfter(s: string): Mode {
    if s == "" then Outside
    else
      var last := s[|s| - 1];
      match ModeAfter(s[..|s| - 1])
      case Outside => if last == '"' then InString else Outside
      case InString => if last == '\\' then Escaping else if last == '"' then Outside else InString
      case Escaping => InString
  }

  /** Opening minus closing brackets of one kind, outside strings. */
  function Depth(s: string, open: char, close: char): int {
    if s == "" then 0
    else
      var last := s[|s| - 1];
      Depth(s[..|s| - 1], open, close) +
      (if ModeAfter(s[..|s| - 1]) != Outside || last
          == '"' then 0 else if last == open then 1 else if last == close then -1 else 0)
  }

  /** The text ends with a bracket, outside strings, that brings the depth back to zero. */
  predicate Closes(s: string, open: char, close: char) {
    && s != ""
    && ModeAfter(s[..|s| - 1]) == Outside
    && s[|s| - 1] != '"' && s[|s| - 1] != open && s[|s| - 1] == close
    && Depth(s, open, close) == 0
  }

  /** The shortest prefix that closes. */
  ghost predicate IsShortestClosing(s: string, n: nat, open: char, close: char) {
    && n <= |s| && Closes(s[..n], open, close)
    && forall k | 0 <= k < n :: !Closes(s[..k], open, close)
  }

  /** _extract_balanced; None is its ValueError. It returns the shortest prefix, from start on,
      that closes, and fails exactly when no prefix does. */
  method ExtractBalanced(text: string, start: nat, open: char, close: char) returns (found: Option<string>)
    requires start <= |text|
    ensures found.Some? ==>
        IsShortestClosing(text[start..], |found.value|, open, close) && found.value == text[start..][..|found.value|]
    ensures found.None? ==> forall k | 0 <= k <= |text| - start :: !Closes(text[start..][..k], open, close)
  {
    ghost var s := text[start..];
    var level := 0;
    var inStr := false;
    var escape := false;
    var i := start;
    while i < |text|
      invariant start <= i <= |text|
      invariant level == Depth(s[..i - start], open, close)
      invariant inStr == (ModeAfter(s[..i - start]) != Outside)
      invariant escape == (ModeAfter(s[..i - start]) == Escaping)
      invariant forall k | 0 <= k <= i - start :: !Closes(s[..k], open, close)
    {
      var ch := text[i];
      assert s[..i + 1 - start][..i - start] == s[..i - start];
      assert s[..i + 1 - start][i - start] == ch;
      if inStr {
        if escape {
          escape := false;
        } else if ch == '\\' {
          escape := true;
        } else if ch == '"' {
          inStr := false;
        }
      } else {
        if ch == '"' {
          inStr := true;
        } else if ch == open {
          level := level + 1;
        } else if ch == close {
          level := level - 1;
          if level == 0 {
            assert text[start..i + 1] == s[..i + 1 - start];
            return Some(text[start..i + 1]);
          }
        }
      }
      i := i + 1;
    }
    assert s[..|text| - start] == s;
    return None;
  }

  // ------------------------------------------------------------- composition

  /** Outside strings the scanner forgets what came before, but for the depth. */
  lemma {:induction false} ScanningComposes(p: string, s: string, open: char, close: char)
    requires ModeAfter(p) == Outside
    ensures ModeAfter(p + s) == ModeAfter(s)
    ensures Depth(p + s, open, close) == Depth(p, open, close) + Depth(s, open, close)
  {
    if s == "" {
      assert p + s == p;
    } else {
      var front := s[..|s| - 1];
      ScanningComposes(p, front, open, close);
      assert (p + s)[..|p + s| - 1] == p + front;
    }
  }

  /** Reading s from outside ends outside, at the same depth, never going below it. */
  ghost predicate Neutral(s: string, open: char, close: char) {
    && ModeAfter(s) == Outside && Depth(s, open, close) == 0
    && forall n | 0 <= n <= |s| :: Depth(s[..n], open, close) >= 0
  }

  lemma NeutralAppends(a: string, b: string, open: char, close: char)
    requires Neutral(a, open, close) && Neutral(b, open, close)
    ensures Neutral(a + b, open, close)
  {
    ScanningComposes(a, b, open, close);
    forall n | 0 <= n <= |a + b| ensures Depth((a + b)[..n], open, close) >= 0 {
      if n <= |a| {
        assert (a + b)[..n] == a[..n];
      } else {
        assert (a + b)[..n] == a + b[..n - |a|];
        ScanningComposes(a, b[..n - |a|], open, close);
      }
    }
  }

  // ---------------------------------------------------------------- literals

  datatype Bracket = Square | Curly | Round

  function Opening(b: Bracket): char {
    match b case Square => '[' case Curly => '{' case Round => '('
  }

  function Closing(b: Bracket): char {
    match b case Square => ']' case Curly => '}' case Round => ')'
  }

  predicate Structural(c: char) {
    c == '"' || exists b: Bracket :: c == Opening(b) || c == Closing(b)
  }

  /** A literal: bare text (numbers, names, commas, colons, blanks), a string, or a bracketed sequence of them. */
  datatype Literal = Bare(text: string) | Quoted(content: string) | Bracketed(bracket: Bracket, items: seq<Literal>)

  ghost predicate WellFormed(literal: Literal) {
    match literal
    case Bare(text) => forall i | 0 <= i < |text| :: !Structural(text[i])
    case Quoted(_) => true
    case Bracketed(_, items) => forall i | 0 <= i < |items| :: WellFormed(items[i])
  }

  function Escaped(content: string): string {
    if content == "" then ""
    else
      Escaped(content[..|content| - 1]) +
      (var c := content[|content| - 1]; if c == '"' || c == '\\' then ['\\', c] else [c])
  }

  function Render(literal: Literal): string
    decreases literal, 1
  {
    match literal
    case Bare(text) => text
    case Quoted(content) => "\"" + Escaped(content) + "\""
    case Bracketed(b, items) => [Opening(b)] + RenderAll(items) + [Closing(b)]
  }

  function RenderAll(items: seq<Literal>): string
    decreases items, 0
  {
    if items == [] then "" else Render(items[0]) + RenderAll(items[1..])
  }

  lemma {:induction false} BareIsNeutral(text: string, open: char, close: char)
    requires forall i | 0 <= i < |text| :: text[i] != '"' && text[i] != open && text[i] != close
    ensures Neutral(text, open, close)
  {
    if text == "" {
    } else {
      var front := text[..|text| - 1];
      BareIsNeutral(front, open, close);
      forall n | 0 <= n <= |text| ensures Depth(text[..n], open, close) >= 0 {
        if n < |text| {
          assert text[..n] == front[..n];
        } else {
          assert text[..n] == text;
        }
      }
    }
  }

  /** No prefix has any depth. */
  ghost predicate Flat(s: string, open: char, close: char) {
    forall n | 0 <= n <= |s| :: Depth(s[..n], open, close) == 0
  }

  lemma InsideStaysFlat(s: string, c: char, open: char, close: char)
    requires Flat(s, open, close) && ModeAfter(s) != Outside
    ensures Flat(s + [c], open, close)
    ensures ModeAfter(s + [c]) == if ModeAfter(s) == Escaping then InString
                                  else if c == '\\' then Escaping else if c == '"' then Outside else InString
  {
    var after := s + [c];
    assert after[..|s|] == s;
    assert s[..|s|] == s;
    forall n | 0 <= n <= |after| ensures Depth(after[..n], open, close) == 0 {
      if n <= |s| {
        assert after[..n] == s[..n];
      } else {
        assert after[..n] == after;
      }
    }
  }

  /** Inside a string, an escaped content is read without leaving it or touching the depth. */
  lemma {:induction false} EscapedStaysInside(content: string, open: char, close: char)
    ensures ModeAfter("\"" + Escaped(content)) == InString
    ensures Flat("\"" + Escaped(content), open, close)
  {
    if content == "" {
      var s := "\"" + Escaped(content);
      assert s == "\"" && s[..0] == "" && s[..1] == s;
    } else {
      var front := content[..|content| - 1];
      var c := content[|content| - 1];
      var before := "\"" + Escaped(front);
      EscapedStaysInside(front, open, close);
      if c == '"' || c == '\\' {
        InsideStaysFlat(before, '\\', open, close);
        InsideStaysFlat(before + ['\\'], c, open, close);
        assert "\"" + Escaped(content) == before + ['\\'] + [c];
      } else {
        InsideStaysFlat(before, c, open, close);
        assert "\"" + Escaped(content) == before + [c];
      }
    }
  }

  lemma QuotedIsNeutral(content: string, open: char, close: char)
    ensures Neutral("\"" + Escaped(content) + "\"", open, close)
  {
    EscapedStaysInside(content, open, close);
    InsideStaysFlat("\"" + Escaped(content), '"', open, close);
    var s := "\"" + Escaped(content) + "\"";
    assert s == "\"" + Escaped(content) + ['"'];
    assert s[..|s|] == s;
  }

  /** Wrapping neutral text in a pair of brackets, of the scanned kind or of another. */
  lemma BracketedIsNeutral(body: string, b: Bracket, kind: Bracket)
    requires Neutral(body, Opening(kind), Closing(kind))
    ensures Neutral([Opening(b)] + body + [Closing(b)], Opening(kind), Closing(kind))
    ensures b == kind ==> forall n | 0 < n <= |body| + 1 ::
      Depth(([Opening(b)] + body + [Closing(b)])[..n], Opening(kind), Closing(kind)) >= 1
  {
    var open, close := Opening(kind), Closing(kind);
    var first, last := [Opening(b)], [Closing(b)];
    var s := first + body + last;
    assert first[..0] == "" && last[..0] == "";
    ScanningComposes(first, body, open, close);
    ScanningComposes(first + body, last, open, close);
    forall n | 0 <= n <= |s|
      ensures Depth(s[..n], open, close) >= 0
      ensures b == kind && 0 < n <= |body| + 1 ==> Depth(s[..n], open, close) >= 1
    {
      if n == 0 {
        assert s[..n] == "";
      } else if n <= |body| + 1 {
        assert s[..n] == first + body[..n - 1];
        ScanningComposes(first, body[..n - 1], open, close);
      } else {
        assert s[..n] == s;
      }
    }
  }

  lemma {:induction false} LiteralsAreNeutral(literal: Literal, kind: Bracket)
    requires WellFormed(literal)
    ensures Neutral(Render(literal), Opening(kind), Closing(kind))
    decreases literal, 1
  {
    match literal
    case Bare(text) =>
      forall i | 0 <= i < |text| ensures text[i] != '"' && text[i] != Opening(kind) && text[i] != Closing(kind) {
        assert !Structural(text[i]);
      }
      BareIsNeutral(text, Opening(kind), Closing(kind));
    case Quoted(content) => QuotedIsNeutral(content, Opening(kind), Closing(kind));
    case Bracketed(b, items) =>
      AllAreNeutral(items, kind);
      BracketedIsNeutral(RenderAll(items), b, kind);
  }

  lemma {:induction false} AllAreNeutral(items: seq<Literal>, kind: Bracket)
    requires forall i | 0 <= i < |items| :: WellFormed(items[i])
    ensures Neutral(RenderAll(items), Opening(kind), Closing(kind))
    decreases items, 0
  {
    if items != [] {
      LiteralsAreNeutral(items[0], kind);
      AllAreNeutral(items[1..], kind);
      NeutralAppends(Render(items[0]), RenderAll(items[1..]), Opening(kind), Closing(kind));
    }
  }

  /** Main result: of any bracketed literal followed by any text, exactly the literal closes first. */
  lemma LiteralIsShortestClosing(kind: Bracket, items: seq<Literal>, rest: string)
    requires WellFormed(Bracketed(kind, items))
    ensures IsShortestClosing(Render(Bracketed(kind, items)) + rest, |Render(Bracketed(kind, items))|,
        Opening(kind), Closing(kind))
  {
    var open, close := Opening(kind), Closing(kind);
    var body := RenderAll(items);
    var whole := Render(Bracketed(kind, items));
    var text := whole + rest;
    AllAreNeutral(items, kind);
    BracketedIsNeutral(body, kind, kind);
    assert text[..|whole|] == whole;
    assert whole[..|whole| - 1] == [open] + body;
    assert [open][..0] == "";
    ScanningComposes([open], body, open, close);
    forall k | 0 <= k < |whole| ensures !Closes(text[..k], open, close) {
      assert text[..k] == whole[..k];
    }
  }

  // ------------------------------------------------- from an assignment onwards

  datatype Extraction = Missing | Found(expr: string) | Unclosed | Unsupported

  const TYPED_ARRAY: string := "Array[Dictionary]("

  /** The first position from i on that holds no blank. */
  function SkipFrom(text: string, i: nat): (j: nat)
    requires i <= |text|
    ensures i <= j <= |text|
    decreases |text| - i
  {
    if i < |text| && IsSpace(text[i]) then SkipFrom(text, i + 1) else i
  }

  predicate HasTypedArray(text: string, i: nat) {
    i + |TYPED_ARRAY| <= |text| && text[i..i + |TYPED_ARRAY|] == TYPED_ARRAY
  }

  /** Where the literal of an assignment starts: behind blanks, and behind the head of a typed array. */
  function LeadEnd(text: string, from: nat): (at: nat)
    requires from <= |text|
    ensures from <= at <= |text|
  {
    var i := SkipFrom(text, from);
    if HasTypedArray(text, i) then SkipFrom(text, i + |TYPED_ARRAY|) else i
  }

  method SkipSpaces(text: string, from: nat) returns (i: nat)
    requires from <= |text|
    ensures i == SkipFrom(text, from)
  {
    i := from;
    while i < |text| && IsSpace(text[i])
      invariant from <= i <= |text|
      invariant SkipFrom(text, from) == SkipFrom(text, i)
    {
      i := i + 1;
    }
  }

  /** What the scan from `at` on is worth, for one kind of bracket. */
  ghost predicate Extracts(text: string, at: nat, kind: Bracket, found: Extraction)
    requires at <= |text|
  {
    match found
    case Found(expr) => IsShortestClosing(text[at..], |expr|, Opening(kind), Closing(kind))
        && expr == text[at..][..|expr|]
    case Unclosed => forall k | 0 <= k <= |text| - at :: !Closes(text[at..][..k], Opening(kind), Closing(kind))
    case _ => false
  }

  /** _extract_assignment_expr behind the match of its regular expression, which ends at `from`. */
  method ExtractExpr(text: string, from: nat) returns (found: Extraction)
    requires from <= |text|
    ensures var at := LeadEnd(text, from);
      if at == |text| then found == Missing
      else if text[at] == '[' then Extracts(text, at, Square, found)
      else if text[at] == '{' then Extracts(text, at, Curly, found)
      else found == Unsupported
  {
    var i := SkipSpaces(text, from);
    if i + |TYPED_ARRAY| <= |text| && text[i..i + |TYPED_ARRAY|] == TYPED_ARRAY {
      i := SkipSpaces(text, i + |TYPED_ARRAY|);
    }
    if i >= |text| {
      return Missing;
    }
    if text[i] == '[' {
      var expr := ExtractBalanced(text, i, '[', ']');
      return if expr.Some? then Found(expr.value) else Unclosed;
    }
    if text[i] == '{' {
      var expr := ExtractBalanced(text, i, '{', '}');
      return if expr.Some? then Found(expr.value) else Unclosed;
    }
    return Unsupported;
  }

  predicate Blank(s: string) {
    forall i | 0 <= i < |s| :: IsSpace(s[i])
  }

  lemma {:induction false} BlanksAreSkipped(text: string, i: nat, blanks: string)
    requires i + |blanks| <= |text| && text[i..i + |blanks|] == blanks && Blank(blanks)
    requires i + |blanks| < |text| ==> !IsSpace(text[i + |blanks|])
    ensures SkipFrom(text, i) == i + |blanks|
    decreases |blanks|
  {
    if blanks != "" {
      assert text[i] == blanks[0];
      assert text[i + 1..i + |blanks|] == blanks[1..];
      BlanksAreSkipped(text, i + 1, blanks[1..]);
    }
  }

  /** A literal starts with neither a blank nor the head of a typed array. */
  predicate Plain(tail: string) {
    tail != "" && !IsSpace(tail[0]) && tail[0] != TYPED_ARRAY[0]
  }

  lemma LeadOfPlain(pre: string, blanks: string, tail: string)
    requires Blank(blanks) && Plain(tail)
    ensures LeadEnd(pre + blanks + tail, |pre|) == |pre| + |blanks|
  {
    var text := pre + blanks + tail;
    var i := |pre| + |blanks|;
    assert text[|pre|..i] == blanks && text[i] == tail[0];
    BlanksAreSkipped(text, |pre|, blanks);
    assert i + |TYPED_ARRAY| <= |text| ==> text[i..i + |TYPED_ARRAY|][0] == text[i];
  }

  lemma LeadOfTyped(pre: string, blanks: string, more: string, tail: string)
    requires Blank(blanks) && Blank(more) && Plain(tail)
    ensures LeadEnd(pre + blanks + (TYPED_ARRAY + more + tail), |pre|) == |pre| + |blanks| + |TYPED_ARRAY| + |more|
  {
    var text := pre + blanks + (TYPED_ARRAY + more + tail);
    var i := |pre| + |blanks|;
    var j := i + |TYPED_ARRAY|;
    assert text[|pre|..i] == blanks && text[i] == TYPED_ARRAY[0];
    BlanksAreSkipped(text, |pre|, blanks);
    assert text[i..j] == TYPED_ARRAY;
    assert text[j..] == more + tail;
    assert text[j..j + |more|] == text[j..][..|more|] && text[j + |more|] == text[j..][|more|];
    BlanksAreSkipped(text, j, more);
  }

  lemma ExtractedAt(text: string, at: nat, literal: Literal, rest: string, found: Extraction)
    requires WellFormed(literal) && literal.Bracketed?
    requires at <= |text| && text[at..] == Render(literal) + rest
    requires Extracts(text, at, literal.bracket, found)
    ensures found == Found(Render(literal))
  {
    var s := Render(literal) + rest;
    LiteralIsShortestClosing(literal.bracket, literal.items, rest);
    assert s[..|Render(literal)|] == Render(literal);
    if found.Found? {
    }
  }

  /** Main result: whatever precedes and follows, a list or dictionary literal behind blanks, or
      behind the head of a typed array, is extracted exactly. */
  lemma AssignedLiteralIsExtracted(pre: string, blanks: string, typed: bool, more: string, literal: Literal,
                                   rest: string, found: Extraction)
    requires Blank(blanks) && Blank(more)
    requires WellFormed(literal) && literal.Bracketed? && literal.bracket != Round
    requires var text := pre + blanks + (if typed then TYPED_ARRAY + more + (Render(literal) + rest)
        else Render(literal) + rest);
             Extracts(text, LeadEnd(text, |pre|), literal.bracket, found)
    ensures found == Found(Render(literal))
  {
    var tail := Render(literal) + rest;
    var text := pre + blanks + (if typed then TYPED_ARRAY + more + tail else tail);
    assert Plain(tail);
    if typed {
      LeadOfTyped(pre, blanks, more, tail);
    } else {
      LeadOfPlain(pre, blanks, tail);
    }
    var at := LeadEnd(text, |pre|);
    assert text[at..] == tail;
    ExtractedAt(text, at, literal, rest, found);
  }
}
