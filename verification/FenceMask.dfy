/**
  Masking fenced code before links are searched (tools/docs_governance.py).
 */
module FenceMask {
  import opened Prelude
  import opened TextTools
  import opened FenceExtent

  // ------------------------------------------------------------------ lines

  /** Length of the first line, its break included; a carriage return and a newline are one break. */
  function LineLength(text: string): (n: nat)
    requires text != ""
    ensures 1 <= n <= |text|
  {
    if text[0] == '\r' && |text| > 1 && text[1] == '\n' then 2
    else if IsBreak(text[0]) || |text| == 1 then 1
    else 1 + LineLength(text[1..])
  }

  /** text.splitlines(keepends=True) */
  function SplitLines(text: string): seq<string> {
    if text == "" then [] else [text[..LineLength(text)]] + SplitLines(text[LineLength(text)..])
  }

  function Strip(s: string): string {
    if s != "" && IsSpace(s[0]) then Strip(s[1..]) else s
  }

  function MarkerOf(line: string): Option<Marker> {
    var stripped := Strip(line);
    if "```" <= stripped then Some(Backticks) else if "~~~" <= stripped then Some(Tildes) else None
  }

  // -------------------------------------------------------------------- masking

  function MaskChar(c: char): char {
    if c == '\n' then '\n' else if c == '\r' then '\r' else ' '
  }

  function MaskLine(line: string): (masked: string)
    ensures |masked| == |line|
    ensures forall i | 0 <= i < |line| :: masked[i] == MaskChar(line[i])
  {
    seq(|line|, i requires 0 <= i < |line| => MaskChar(line[i]))
  }

  /** The fence a line leaves the scan in. */
  function FenceAfter(fence: Option<Marker>, line: string): Option<Marker> {
    Next(fence, MarkerOf(line))
  }

  predicate Hidden(fence: Option<Marker>, line: string) {
    MarkerOf(line).Some? || fence.Some?
  }

  function MaskedLine(fence: Option<Marker>, line: string): string {
    if Hidden(fence, line) then MaskLine(line) else line
  }

  function MaskLines(lines: seq<string>, fence: Option<Marker>): string {
    if lines == [] then ""
    else MaskedLine(fence, lines[0]) + MaskLines(lines[1..], FenceAfter(fence, lines[0]))
  }

  function Mask(text: string): string {
    MaskLines(SplitLines(text), None)
  }

  function FenceAt(lines: seq<string>, n: nat, fence: Option<Marker>): Option<Marker>
    requires n <= |lines|
  {
    if n == 0 then fence else FenceAfter(FenceAt(lines, n - 1, fence), lines[n - 1])
  }

  lemma {:induction false} MaskLinesAppends(lines: seq<string>, line: string, fence: Option<Marker>)
    ensures MaskLines(lines + [line], fence) == MaskLines(lines,
        fence) + MaskedLine(FenceAt(lines, |lines|, fence), line)
  {
    if lines == [] {
      assert lines + [line] == [line];
      assert [line][1..] == [];
    } else {
      var next := FenceAfter(fence, lines[0]);
      MaskLinesAppends(lines[1..], line, next);
      FenceAtShifts(lines, |lines|, fence);
      TailAppends(lines, line);
    }
  }

  lemma TailAppends(lines: seq<string>, line: string)
    requires lines != []
    ensures (lines + [line])[0] == lines[0] && (lines + [line])[1..] == lines[1..] + [line]
  {
  }

  lemma {:induction false} FenceAtShifts(lines: seq<string>, n: nat, fence: Option<Marker>)
    requires 0 < n <= |lines|
    ensures FenceAt(lines, n, fence) == FenceAt(lines[1..], n - 1, FenceAfter(fence, lines[0]))
  {
    if n > 1 {
      FenceAtShifts(lines, n - 1, fence);
    }
  }

  /** _mask_fenced_code */
  method MaskFencedCode(text: string) returns (masked: string)
    ensures masked == Mask(text)
  {
    masked := "";
    var inFence := false;
    var fenceMarker := Backticks;
    var lines := SplitLines(text);
    for n := 0 to |lines|
      invariant masked == MaskLines(lines[..n], None)
      invariant FenceAt(lines[..n], n, None) == if inFence then Some(fenceMarker) else None
    {
      var line := lines[n];
      var marker := MarkerOf(line);
      MaskLinesAppends(lines[..n], line, None);
      assert lines[..n + 1] == lines[..n] + [line];
      FenceAtPrefix(lines, n);
      if marker.Some? {
        if !inFence {
          inFence := true;
          fenceMarker := marker.value;
        } else if marker.value == fenceMarker {
          inFence := false;
        }
        masked := masked + MaskLine(line);
        continue;
      }
      if inFence {
        masked := masked + MaskLine(line);
      } else {
        masked := masked + line;
      }
    }
    assert lines[..|lines|] == lines;
  }

  lemma {:induction false} FenceAtPrefix(lines: seq<string>, n: nat)
    requires n < |lines|
    ensures FenceAt(lines[..n + 1], n + 1, None) == FenceAfter(FenceAt(lines[..n], n, None), lines[n])
  {
    SamePrefixSameFence(lines[..n + 1], lines[..n], n);
  }

  lemma {:induction false} SamePrefixSameFence(a: seq<string>, b: seq<string>, n: nat)
    requires n <= |a| && n <= |b| && a[..n] == b[..n]
    ensures FenceAt(a, n, None) == FenceAt(b, n, None)
  {
    if n > 0 {
      assert a[n - 1] == a[..n][n - 1] == b[..n][n - 1] == b[n - 1];
      assert a[..n - 1] == a[..n][..n - 1] == b[..n][..n - 1] == b[..n - 1];
      SamePrefixSameFence(a, b, n - 1);
    }
  }

  // --------------------------------------------------------------------- lines

  function Join(lines: seq<string>): string {
    if lines == [] then "" else lines[0] + Join(lines[1..])
  }

  lemma {:induction false} JoinedLinesAreTheText(text: string)
    ensures Join(SplitLines(text)) == text
    decreases |text|
  {
    if text != "" {
      JoinedLinesAreTheText(text[LineLength(text)..]);
    }
  }

  /** Same length, each place the same or masked, newlines and returns always the same. */
  ghost predicate Covers(masked: string, text: string) {
    && |masked| == |text|
    && forall i | 0 <= i < |text| :: masked[i] == text[i] || masked[i] == MaskChar(text[i])
  }

  lemma {:induction false} MaskLinesCovers(lines: seq<string>, fence: Option<Marker>)
    ensures Covers(MaskLines(lines, fence), Join(lines))
  {
    if lines != [] {
      MaskLinesCovers(lines[1..], FenceAfter(fence, lines[0]));
    }
  }

  function Newlines(s: string): nat {
    if s == "" then 0 else Newlines(s[..|s| - 1]) + (if s[|s| - 1] == '\n' then 1 else 0)
  }

  lemma {:induction false} SameNewlines(a: string, b: string)
    requires |a| == |b| && forall i | 0 <= i < |a| :: a[i] == '\n' <==> b[i] == '\n'
    ensures Newlines(a) == Newlines(b)
  {
    if a != "" {
      SameNewlines(a[..|a| - 1], b[..|b| - 1]);
    }
  }

  /** Main result: masking keeps the length and every line break position, so a line number
      counted in the masked text is the line number in the original. */
  lemma MaskKeepsPositions(text: string)
    ensures Covers(Mask(text), text)
    ensures forall i | 0 <= i < |text| ::
        (Mask(text)[i] == '\n' <==> text[i] == '\n') && (Mask(text)[i] == '\r' <==> text[i] == '\r')
    ensures forall at | 0 <= at <= |text| :: Newlines(Mask(text)[..at]) == Newlines(text[..at])
  {
    MaskLinesCovers(SplitLines(text), None);
    JoinedLinesAreTheText(text);
    var masked := Mask(text);
    forall at | 0 <= at <= |text| ensures Newlines(masked[..at]) == Newlines(text[..at]) {
      SameNewlines(masked[..at], text[..at]);
    }
  }

  /** The lines before the n-th take up this many characters. */
  function Offset(lines: seq<string>, n: nat): nat
    requires n <= |lines|
  {
    if n == 0 then 0 else |lines[0]| + Offset(lines[1..], n - 1)
  }

  /** The n-th line is blanked if it marks a fence or lies inside one, and kept as it is otherwise. */
  ghost predicate LineFares(masked: string, lines: seq<string>, fence: Option<Marker>, n: nat)
    requires n < |lines|
  {
    var at := Offset(lines, n);
    && at + |lines[n]| <= |masked|
    && masked[at..at + |lines[n]|] == MaskedLine(FenceAt(lines, n, fence), lines[n])
  }

  lemma LineFaresLater(lines: seq<string>, fence: Option<Marker>, n: nat, tail: string)
    requires 0 < n < |lines| && LineFares(tail, lines[1..], FenceAfter(fence, lines[0]), n - 1)
    ensures LineFares(MaskedLine(fence, lines[0]) + tail, lines, fence, n)
  {
    FenceAtShifts(lines, n, fence);
  }

  lemma {:induction false} LineIsMaskedOrKept(lines: seq<string>, fence: Option<Marker>, n: nat)
    requires n < |lines|
    ensures LineFares(MaskLines(lines, fence), lines, fence, n)
  {
    var tail := MaskLines(lines[1..], FenceAfter(fence, lines[0]));
    if n == 0 {
    } else {
      LineIsMaskedOrKept(lines[1..], FenceAfter(fence, lines[0]), n - 1);
      LineFaresLater(lines, fence, n, tail);
    }
  }

  /** Only blanks before position k, and the mark there. */
  predicate MarkAt(line: string, mark: string, k: int) {
    && 0 <= k <= |line| - |mark| && line[k..k + |mark|] == mark
    && forall j | 0 <= j < k :: IsSpace(line[j])
  }

  ghost predicate StartsWith(line: string, mark: string) {
    exists k :: MarkAt(line, mark, k)
  }

  lemma MarkShifts(line: string, mark: string, k: int)
    requires line != "" && IsSpace(line[0])
    ensures MarkAt(line[1..], mark, k) ==> MarkAt(line, mark, k + 1)
    ensures MarkAt(line, mark, k) && k > 0 ==> MarkAt(line[1..], mark, k - 1)
  {
    if MarkAt(line[1..], mark, k) {
      assert line[k + 1..k + 1 + |mark|] == line[1..][k..k + |mark|];
    }
    if MarkAt(line, mark, k) && k > 0 {
      assert line[1..][k - 1..k - 1 + |mark|] == line[k..k + |mark|];
    }
  }

  lemma {:induction false} StrippedStart(line: string, mark: string)
    requires mark != "" && !IsSpace(mark[0])
    ensures mark <= Strip(line) <==> StartsWith(line, mark)
  {
    if line != "" && IsSpace(line[0]) {
      StrippedStart(line[1..], mark);
      if k :| MarkAt(line[1..], mark, k) {
        MarkShifts(line, mark, k);
      }
      if k :| MarkAt(line, mark, k) {
        MarkShifts(line, mark, k);
      }
    } else {
      if k :| MarkAt(line, mark, k) {
      }
      if mark <= line {
        assert MarkAt(line, mark, 0);
      }
    }
  }

  /** A line carries the marker it starts with, blanks aside. */
  lemma MarkerIsTheStart(line: string)
    ensures MarkerOf(line) == Some(Backticks) <==> StartsWith(line, "```")
    ensures MarkerOf(line) == Some(Tildes) <==> StartsWith(line, "~~~")
  {
    StrippedStart(line, "```");
    StrippedStart(line, "~~~");
    assert "```"[0] == '`' && "~~~"[0] == '~';
  }

  // ---------------------------------------------------------- where fences are

  function MarksOf(lines: seq<string>): Marks {
    seq(|lines|, n requires 0 <= n < |lines| => MarkerOf(lines[n]))
  }

  lemma {:induction false} FenceAtScans(lines: seq<string>, n: nat)
    requires n <= |lines|
    ensures FenceAt(lines, n, None) == ScanState(MarksOf(lines), n)
  {
    if n > 0 {
      FenceAtScans(lines, n - 1);
    }
  }

  /** A hidden line is blank but for newlines and returns; any other line is as it was. */
  predicate ShownAs(shown: string, line: string, hidden: bool) {
    && |shown| == |line|
    && forall i | 0 <= i < |line| ::
         shown[i] == if hidden && line[i] != '\n' && line[i] != '\r' then ' ' else line[i]
  }

  /** The place of the n-th line in the masked text. */
  ghost predicate LineMasked(masked: string, lines: seq<string>, n: nat, hidden: bool)
    requires n < |lines|
  {
    var at := Offset(lines, n);
    at + |lines[n]| <= |masked| && ShownAs(masked[at..at + |lines[n]|], lines[n], hidden)
  }

  lemma LineFaresMasked(masked: string, lines: seq<string>, fence: Option<Marker>, n: nat)
    requires n < |lines| && LineFares(masked, lines, fence, n)
    ensures LineMasked(masked, lines, n, Hidden(FenceAt(lines, n, fence), lines[n]))
  {
  }

  /** Main result: every text has fences, and however they are told, exactly the lines inside them are blanked,
      from the opening line to the closing one, whatever other markers lie between; all others are kept. */
  lemma MaskHidesExactlyFences(text: string)
    ensures exists fences :: AreFences(MarksOf(SplitLines(text)), fences, 0)
    ensures forall fences, n: nat | AreFences(MarksOf(SplitLines(text)), fences, 0) && n < |SplitLines(text)| ::
      LineMasked(Mask(text), SplitLines(text), n, Inside(fences, n))
  {
    var lines := SplitLines(text);
    var found := FencesExist(MarksOf(lines), 0);
    forall fences, n: nat | AreFences(MarksOf(lines), fences, 0) && n < |lines|
      ensures LineMasked(Mask(text), lines, n, Inside(fences, n))
    {
      LineIsMaskedOrKept(lines, None, n);
      FenceAtScans(lines, n);
      ScanFindsFences(MarksOf(lines), fences, n);
      LineFaresMasked(Mask(text), lines, None, n);
    }
  }

  // --------------------------------------------------------------- idempotence

  /** No line of the text opens or closes a fence. */
  ghost predicate Unmarked(text: string) {
    forall k | 0 <= k < |SplitLines(text)| :: MarkerOf(SplitLines(text)[k]).None?
  }

  lemma {:induction false} UnmarkedIsKept(lines: seq<string>)
    requires forall k | 0 <= k < |lines| :: MarkerOf(lines[k]).None?
    ensures MaskLines(lines, None) == Join(lines)
  {
    if lines != [] {
      UnmarkedIsKept(lines[1..]);
    }
  }

  /** A first line that stays a line when more text follows. */
  ghost predicate EndsLine(line: string, rest: string) {
    && line != ""
    && (forall i | 0 <= i < |line| - 1 ::
        !IsBreak(line[i]) || (line[i] == '\r' && i == |line| - 2 && line[|line| - 1] == '\n'))
    && (rest != "" ==> IsBreak(line[|line| - 1]) && !(line[|line| - 1] == '\r' && rest[0] == '\n'))
  }

  lemma {:induction false} FirstLineEnds(text: string)
    requires text != ""
    ensures EndsLine(text[..LineLength(text)], text[LineLength(text)..])
  {
    if text[0] == '\r' && |text| > 1 && text[1] == '\n' {
    } else if IsBreak(text[0]) || |text| == 1 {
    } else {
      FirstLineEnds(text[1..]);
      var n := LineLength(text[1..]);
      assert text[..1 + n] == [text[0]] + text[1..][..n];
      assert text[1 + n..] == text[1..][n..];
    }
  }

  /** Every line ends where Python says a line ends, and nowhere before; with JoinedLinesAreTheText this is
      what splitting the text into lines means. */
  lemma {:induction false} LinesEndAtBreaks(text: string, n: nat)
    requires n < |SplitLines(text)|
    ensures EndsLine(SplitLines(text)[n], Join(SplitLines(text)[n + 1..]))
    decreases |text|
  {
    var length := LineLength(text);
    var rest := SplitLines(text[length..]);
    assert SplitLines(text) == [text[..length]] + rest;
    if n == 0 {
      FirstLineEnds(text);
      JoinedLinesAreTheText(text[length..]);
      assert SplitLines(text)[1..] == rest;
    } else {
      LinesEndAtBreaks(text[length..], n - 1);
      assert SplitLines(text)[n + 1..] == rest[n..];
    }
  }

  lemma {:induction false} EndedLineIsFirst(line: string, rest: string)
    requires EndsLine(line, rest)
    ensures LineLength(line + rest) == |line|
  {
    var text := line + rest;
    assert |line| == 1 ==> text[1..] == rest;
    if text[0] == '\r' && |text| > 1 && text[1] == '\n' {
    } else if IsBreak(text[0]) || |text| == 1 {
    } else if |line| > 1 {
      EndedLineIsFirst(line[1..], rest);
      assert text[1..] == line[1..] + rest;
    }
  }

  lemma UnmarkedSplits(text: string)
    requires text != ""
    ensures Unmarked(text) <==> MarkerOf(text[..LineLength(text)]).None? && Unmarked(text[LineLength(text)..])
  {
    var first, others := text[..LineLength(text)], SplitLines(text[LineLength(text)..]);
    assert SplitLines(text) == [first] + others;
    assert SplitLines(text)[0] == first;
    assert forall k | 0 <= k < |others| :: SplitLines(text)[k + 1] == others[k];
  }

  lemma UnmarkedAfterLine(line: string, rest: string)
    requires EndsLine(line, rest) && MarkerOf(line).None? && Unmarked(rest)
    ensures Unmarked(line + rest)
  {
    EndedLineIsFirst(line, rest);
    var text := line + rest;
    assert text[..|line|] == line && text[|line|..] == rest;
    UnmarkedSplits(text);
  }

  /** Blanks that hold no break join the line that follows them. */
  lemma {:induction false} BlanksJoinLine(blanks: string, rest: string)
    requires forall i | 0 <= i < |blanks| :: blanks[i] == ' '
    requires rest != ""
    ensures LineLength(blanks + rest) == |blanks| + LineLength(rest)
  {
    if blanks == "" {
      assert blanks + rest == rest;
    } else {
      BlanksJoinLine(blanks[1..], rest);
      assert (blanks + rest)[1..] == blanks[1..] + rest;
    }
  }

  lemma {:induction false} BlanksAreStripped(blanks: string, line: string)
    requires forall i | 0 <= i < |blanks| :: IsSpace(blanks[i])
    ensures Strip(blanks + line) == Strip(line)
  {
    if blanks == "" {
      assert blanks + line == line;
    } else {
      BlanksAreStripped(blanks[1..], line);
      assert (blanks + line)[1..] == blanks[1..] + line;
    }
  }

  lemma BlanksAlone(blanks: string)
    requires blanks != "" && (forall i | 0 <= i < |blanks| :: blanks[i] == ' ')
    ensures Unmarked(blanks + "")
  {
    var text := blanks + "";
    assert text == blanks;
    BlanksAreStripped(blanks, "");
    BlankLineLength(blanks);
    assert text[..|blanks|] == text && text[|blanks|..] == "";
    UnmarkedSplits(text);
  }

  lemma BlanksBeforeText(blanks: string, rest: string)
    requires rest != "" && (forall i | 0 <= i < |blanks| :: blanks[i] == ' ') && Unmarked(rest)
    ensures Unmarked(blanks + rest)
  {
    var text, n := blanks + rest, LineLength(rest);
    BlanksJoinLine(blanks, rest);
    assert text[..|blanks| + n] == blanks + rest[..n] && text[|blanks| + n..] == rest[n..];
    BlanksAreStripped(blanks, rest[..n]);
    UnmarkedSplits(text);
    UnmarkedSplits(rest);
  }

  lemma UnmarkedAfterBlanks(blanks: string, rest: string)
    requires blanks != "" && (forall i | 0 <= i < |blanks| :: blanks[i] == ' ') && Unmarked(rest)
    ensures Unmarked(blanks + rest)
  {
    if rest == "" {
      BlanksAlone(blanks);
    } else {
      BlanksBeforeText(blanks, rest);
    }
  }

  lemma {:induction false} BlankLineLength(blanks: string)
    requires blanks != "" && forall i | 0 <= i < |blanks| :: blanks[i] == ' '
    ensures LineLength(blanks) == |blanks|
  {
    if |blanks| > 1 {
      BlankLineLength(blanks[1..]);
    }
  }

  /** A blanked line keeps its newline or return, or loses any other break and joins what follows. */
  lemma MaskedLineStaysUnmarked(line: string, rest: string, masked: string)
    requires EndsLine(line, rest) && Unmarked(masked)
    requires (masked == "" <==> rest == "") && (rest != "" ==> masked[0] == '\n' ==> rest[0] == '\n')
    ensures Unmarked(MaskLine(line) + masked)
  {
    var m := MaskLine(line);
    var last := line[|line| - 1];
    forall i | 0 <= i < |m| ensures IsSpace(m[i]) {
    }
    BlanksAreStripped(m, "");
    assert m + "" == m;
    if last == '\n' || last == '\r' {
      UnmarkedAfterLine(m, masked);
    } else {
      forall i | 0 <= i < |m| ensures m[i] == ' ' {
      }
      UnmarkedAfterBlanks(m, masked);
    }
  }

  lemma {:induction false} MaskedTextIsUnmarked(text: string, fence: Option<Marker>)
    ensures Unmarked(MaskLines(SplitLines(text), fence))
    decreases |text|
  {
    if text != "" {
      var n := LineLength(text);
      var line, rest := text[..n], text[n..];
      var after := FenceAfter(fence, line);
      var masked := MaskLines(SplitLines(rest), after);
      FirstLineEnds(text);
      MaskedTextIsUnmarked(rest, after);
      MaskLinesCovers(SplitLines(rest), after);
      JoinedLinesAreTheText(rest);
      assert SplitLines(text)[1..] == SplitLines(rest);
      if Hidden(fence, line) {
        MaskedLineStaysUnmarked(line, rest, masked);
      } else {
        UnmarkedAfterLine(line, masked);
      }
    }
  }

  /** Main result: masking a masked text changes nothing. */
  lemma MaskIsIdempotent(text: string)
    ensures Mask(Mask(text)) == Mask(text)
  {
    MaskedTextIsUnmarked(text, None);
    UnmarkedIsKept(SplitLines(Mask(text)));
    JoinedLinesAreTheText(Mask(text));
  }
}
