/**
  Where fences begin and end, told from the markers of the lines alone
  (tools/docs_governance.py, _mask_fenced_code).
 */
module FenceExtent {
  import opened Prelude

  datatype Marker = Backticks | Tildes

  /** The marker each line starts with, if any. */
  type Marks = seq<Option<Marker>>

  // -------------------------------------------------------------------- the scan

  /** The fence a line leaves the scan in. */
  function Next(fence: Option<Marker>, mark: Option<Marker>): Option<Marker> {
    if mark.None? then fence
    else if fence.None? then mark
    else if mark == fence then None
    else fence
  }

  /** The fence the scan is in before the n-th line. */
  function ScanState(marks: Marks, n: nat): Option<Marker>
    requires n <= |marks|
  {
    if n == 0 then None else Next(ScanState(marks, n - 1), marks[n - 1])
  }

  // ------------------------------------------------------------------ the fences

  /** The lines from `from` up to but not with `to`. */
  datatype Stretch = Stretch(from: nat, to: nat)

  predicate Holds(s: Stretch, n: int) {
    s.from <= n < s.to
  }

  /** None of these lines has the marker. */
  predicate NoneHas(marks: Marks, from: int, to: int, mark: Option<Marker>)
    requires 0 <= from && to <= |marks|
  {
    forall n | from <= n < to :: marks[n] != mark
  }

  /** A fence: from a line with a marker, through lines without that marker, up to and with the next line that
      has it; or, if there is none, up to the end of the text. */
  predicate IsFence(marks: Marks, s: Stretch) {
    && s.from < s.to <= |marks| && marks[s.from].Some?
    && NoneHas(marks, s.from + 1, s.to - 1, marks[s.from])
    && if s.from < s.to - 1 && marks[s.to - 1] == marks[s.from] then true
       else s.to == |marks| && NoneHas(marks, s.from + 1, s.to, marks[s.from])
  }

  predicate Inside(fences: seq<Stretch>, n: int) {
    exists k | 0 <= k < |fences| :: Holds(fences[k], n)
  }

  predicate AllFences(marks: Marks, fences: seq<Stretch>, from: nat) {
    forall k | 0 <= k < |fences| :: IsFence(marks, fences[k]) && from <= fences[k].from
  }

  predicate OneAfterAnother(fences: seq<Stretch>) {
    forall j, k | 0 <= j < k < |fences| :: fences[j].to <= fences[k].from
  }

  predicate NoMarkOutside(marks: Marks, fences: seq<Stretch>, from: nat) {
    forall n | from <= n < |marks| && !Inside(fences, n) :: marks[n].None?
  }

  /** The fences from a line on: one after the other, and no marker outside them. */
  predicate AreFences(marks: Marks, fences: seq<Stretch>, from: nat) {
    AllFences(marks, fences, from) && OneAfterAnother(fences) && NoMarkOutside(marks, fences, from)
  }

  /** The end of the fence that a marker line opens. */
  lemma {:induction false} FenceEnds(marks: Marks, from: nat, at: nat) returns (fence: Stretch)
    requires from < at <= |marks| && marks[from].Some? && NoneHas(marks, from + 1, at, marks[from])
    ensures fence.from == from && IsFence(marks, fence)
    decreases |marks| - at
  {
    if at == |marks| {
      return Stretch(from, at);
    } else if marks[at] == marks[from] {
      return Stretch(from, at + 1);
    } else {
      fence := FenceEnds(marks, from, at + 1);
    }
  }

  lemma InsideRest(first: Stretch, rest: seq<Stretch>, n: int)
    ensures Inside([first] + rest, n) <==> Holds(first, n) || Inside(rest, n)
  {
    var fences := [first] + rest;
    if Holds(first, n) {
      assert Holds(fences[0], n);
    }
    if k :| 0 <= k < |rest| && Holds(rest[k], n) {
      assert Holds(fences[k + 1], n);
    }
  }

  lemma RestIsAllFences(marks: Marks, first: Stretch, rest: seq<Stretch>)
    requires IsFence(marks, first) && AllFences(marks, rest, first.to)
    ensures AllFences(marks, [first] + rest, first.from)
  {
    var fences := [first] + rest;
    forall k | 0 <= k < |fences| ensures IsFence(marks, fences[k]) && first.from <= fences[k].from {
      if k > 0 {
        assert fences[k] == rest[k - 1];
      }
    }
  }

  lemma RestIsInOrder(marks: Marks, first: Stretch, rest: seq<Stretch>)
    requires AllFences(marks, rest, first.to) && OneAfterAnother(rest)
    ensures OneAfterAnother([first] + rest)
  {
    var fences := [first] + rest;
    assert forall k | 0 < k < |fences| :: fences[k] == rest[k - 1];
  }

  lemma PutFirst(marks: Marks, first: Stretch, rest: seq<Stretch>)
    requires IsFence(marks, first) && AreFences(marks, rest, first.to)
    ensures AreFences(marks, [first] + rest, first.from)
  {
    RestIsAllFences(marks, first, rest);
    RestIsInOrder(marks, first, rest);
    forall n | first.from <= n < |marks| && !Inside([first] + rest, n) ensures marks[n].None? {
      InsideRest(first, rest, n);
    }
  }

  /** Every text has fences. */
  lemma {:induction false} FencesExist(marks: Marks, from: nat) returns (fences: seq<Stretch>)
    requires from <= |marks|
    ensures AreFences(marks, fences, from)
    decreases |marks| - from
  {
    if from == |marks| {
      return [];
    } else if marks[from].None? {
      fences := FencesExist(marks, from + 1);
    } else {
      var first := FenceEnds(marks, from, from + 1);
      var rest := FencesExist(marks, first.to);
      PutFirst(marks, first, rest);
      return [first] + rest;
    }
  }

  // -------------------------------------------------------- the scan finds them

  /** Between the lines n - 1 and n the scan is inside the fence. */
  predicate Around(s: Stretch, n: int) {
    s.from < n < s.to
  }

  /** The scan is in no fence between fences, and within one it remembers its marker. */
  predicate Knows(marks: Marks, fences: seq<Stretch>, n: int, state: Option<Marker>) {
    && ((forall k | 0 <= k < |fences| :: !Around(fences[k], n)) ==> state == None)
    && (forall k | 0 <= k < |fences| && Around(fences[k], n) && fences[k].from < |marks| ::
          state == marks[fences[k].from])
  }

  lemma OnlyOneAround(fences: seq<Stretch>, n: int, j: int, k: int)
    requires OneAfterAnother(fences) && 0 <= j < |fences| && 0 <= k < |fences|
    requires (Around(fences[j], n) || Holds(fences[j], n - 1)) && (Around(fences[k], n) || Holds(fences[k], n - 1))
    ensures j == k
  {
  }

  /** What the scan knows before a line that lies in a fence, that fence being the k-th. */
  lemma KnowsWithin(marks: Marks, fences: seq<Stretch>, n: nat, k: nat, state: Option<Marker>)
    requires OneAfterAnother(fences) && k < |fences| && fences[k].from < |marks| && Holds(fences[k], n - 1)
    ensures Knows(marks, fences, n, state) <==> state == if Around(fences[k], n) then marks[fences[k].from] else None
    ensures Knows(marks, fences, n - 1, state) <==>
      state == if Around(fences[k], n - 1) then marks[fences[k].from] else None
  {
    forall j | 0 <= j < |fences| && (Around(fences[j], n) || Around(fences[j], n - 1)) ensures j == k {
      OnlyOneAround(fences, n, j, k);
    }
  }

  /** What it knows before and after a line that lies in none. */
  lemma KnowsOutside(marks: Marks, fences: seq<Stretch>, n: nat, state: Option<Marker>)
    requires !Inside(fences, n - 1)
    ensures Knows(marks, fences, n, state) <==> state == None
    ensures Knows(marks, fences, n - 1, state) <==> state == None
  {
    forall j | 0 <= j < |fences| ensures !Around(fences[j], n) && !Around(fences[j], n - 1) {
      assert !Holds(fences[j], n - 1);
    }
  }

  /** One step within a fence. */
  lemma FenceStep(marks: Marks, s: Stretch, n: nat, state: Option<Marker>)
    requires IsFence(marks, s) && 0 < n < |marks| && Holds(s, n - 1)
    requires state == if Around(s, n - 1) then marks[s.from] else None
    ensures Next(state, marks[n - 1]) == if Around(s, n) then marks[s.from] else None
  {
  }

  lemma NothingAroundTheStart(marks: Marks, fences: seq<Stretch>)
    ensures Knows(marks, fences, 0, None)
  {
  }

  /** A step of the scan at a line that lies in the k-th fence. */
  lemma StepWithin(marks: Marks, fences: seq<Stretch>, n: nat, k: nat, before: Option<Marker>)
    requires OneAfterAnother(fences) && k < |fences| && IsFence(marks, fences[k])
    requires 0 < n < |marks| && Holds(fences[k], n - 1) && Knows(marks, fences, n - 1, before)
    ensures Knows(marks, fences, n, Next(before, marks[n - 1]))
  {
    KnowsWithin(marks, fences, n, k, before);
    FenceStep(marks, fences[k], n, before);
    KnowsWithin(marks, fences, n, k, Next(before, marks[n - 1]));
  }

  /** A step of the scan at a line that lies in none. */
  lemma StepOutside(marks: Marks, fences: seq<Stretch>, n: nat, before: Option<Marker>)
    requires 0 < n < |marks| && marks[n - 1].None? && !Inside(fences, n - 1) && Knows(marks, fences, n - 1, before)
    ensures Knows(marks, fences, n, Next(before, marks[n - 1]))
  {
    KnowsOutside(marks, fences, n, before);
  }

  lemma ScanStep(marks: Marks, fences: seq<Stretch>, n: nat, before: Option<Marker>)
    requires AreFences(marks, fences, 0)
    requires 0 < n < |marks| && Knows(marks, fences, n - 1, before)
    ensures Knows(marks, fences, n, Next(before, marks[n - 1]))
  {
    if Inside(fences, n - 1) {
      var k :| 0 <= k < |fences| && Holds(fences[k], n - 1);
      StepWithin(marks, fences, n, k, before);
    } else {
      StepOutside(marks, fences, n, before);
    }
  }

  lemma ScanKnowsFences(marks: Marks, fences: seq<Stretch>, n: nat)
    requires AreFences(marks, fences, 0) && n < |marks|
    ensures Knows(marks, fences, n, ScanState(marks, n))
  {
    var state := None;
    NothingAroundTheStart(marks, fences);
    for i := 0 to n
      invariant state == ScanState(marks, i)
      invariant Knows(marks, fences, i, state)
    {
      ScanStep(marks, fences, i + 1, state);
      state := Next(state, marks[i]);
    }
  }

  /** Main result: a line has a marker or is met within a fence exactly when it lies inside one of the fences. */
  lemma ScanFindsFences(marks: Marks, fences: seq<Stretch>, n: nat)
    requires AreFences(marks, fences, 0) && n < |marks|
    ensures marks[n].Some? || ScanState(marks, n).Some? <==> Inside(fences, n)
  {
    ScanKnowsFences(marks, fences, n);
    if Inside(fences, n) {
      var k :| 0 <= k < |fences| && Holds(fences[k], n);
      assert IsFence(marks, fences[k]);
      assert fences[k].from == n || Around(fences[k], n);
    } else {
      forall k | 0 <= k < |fences| ensures !Around(fences[k], n) {
        assert !Holds(fences[k], n);
      }
    }
  }
}
