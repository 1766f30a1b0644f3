/**
  The documentation checker's relations between documents (tools/docs_governance.py,
  check_repository and _check_feature_references). Text is ASCII; a reference is
  known by the document file it resolves to, or as unusable where resolving it
  already is a finding.
 */
module DocsGovernance {
  import opened Prelude
  import opened TextTools

  datatype Kind = Decision | Feature | Validation | OtherKind

  datatype Field = Absent | Scalar | Items(items: seq<string>)

  datatype Ref = Unusable | To(path: string)

  /** "" stands for a missing id, status or verdict. */
  datatype Matter = Matter(
    kind: Kind,
    id: string,
    status: string,
    verdict: string,
    featureIds: Field,
    requirementIds: Field,
    supersedes: Field,
    supersededBy: Field,
    decisionRefs: seq<Ref>,
    validationRefs: seq<Ref>,
    sourceRefs: seq<Ref>)

  datatype Document = Document(path: string, text: string, matter: Option<Matter>)

  datatype Problem =
    | EmptyId | DuplicateId | MissingList | BadReference | WrongMetadata | NotReciprocal | DoneWithoutValidation
    | WithoutReplacement | ActiveWithReplacement | SelfReference | UnknownDecision | SupersessionNotReciprocal
    | DuplicateRequirementId | InvalidRequirement | RepeatedRequirement | UnknownRequirement | UnmappedRequirement
    | InvalidFeatureId | UnknownFeatureId | BadSource

  // ------------------------------------------------------------------ helpers

  /** _as_nonempty_string, with "" for None. */
  function Token(text: string): string {
    StripEnds(text, StripSpace)
  }

  lemma TokenTwice(text: string)
    ensures Token(Token(text)) == Token(text)
  {
    StripLeavesBare(text, StripSpace);
    StripLeavesBare(Token(text), StripSpace);
  }

  /** The positions of documents that carry an id. */
  function Holders(docs: seq<Document>, id: string): seq<nat> {
    if docs == [] then []
    else Holders(docs[..|docs| - 1], id) + (if Carries(docs[|docs| - 1], id) then [|docs| - 1] else [])
  }

  predicate Carries(doc: Document, id: string) {
    doc.matter.Some? && id != "" && Token(doc.matter.value.id) == id
  }

  lemma {:induction false} HoldersAre(docs: seq<Document>, id: string)
    ensures forall p :: p in Holders(docs, id) <==> 0 <= p < |docs| && Carries(docs[p], id)
    ensures Distinct(Holders(docs, id))
  {
    if docs != [] {
      var front, last := docs[..|docs| - 1], |docs| - 1;
      HoldersAre(front, id);
      var before := Holders(front, id);
      forall i | 0 <= i < |before| ensures before[i] < last {
        assert before[i] in before;
      }
      forall p ensures p in Holders(docs, id) <==> 0 <= p < |docs| && Carries(docs[p], id) {
        assert p in Holders(docs, id) <==> p in Holders(front, id) || (p == last && Carries(docs[last], id));
        assert 0 <= p < last ==> front[p] == docs[p];
      }
    }
  }

  /** The positions among those of decisions. */
  function Decisions(docs: seq<Document>, found: seq<nat>): seq<nat>
    requires forall k | 0 <= k < |found| :: found[k] < |docs| && docs[found[k]].matter.Some?
  {
    if found == [] then []
    else Decisions(docs, found[..|found| - 1])
         + (if docs[found[|found| - 1]].matter.value.kind == Decision then [found[|found| - 1]] else [])
  }

  lemma {:induction false} DecisionsAre(docs: seq<Document>, found: seq<nat>)
    requires forall k | 0 <= k < |found| :: found[k] < |docs| && docs[found[k]].matter.Some?
    ensures forall p :: p in Decisions(docs, found) <==> p in found && docs[p].matter.value.kind == Decision
  {
    if found != [] {
      DecisionsAre(docs, found[..|found| - 1]);
    }
  }

  /** str.count: how often a word occurs, without overlaps. */
  function Occurrences(text: string, word: string): nat
    requires word != ""
  {
    if |text| < |word| then 0
    else if word <= text then 1 + Occurrences(text[|word|..], word)
    else Occurrences(text[1..], word)
  }

  predicate OccursAt(text: string, word: string, p: int) {
    0 <= p <= |text| - |word| && text[p..p + |word|] == word
  }

  lemma OccursLater(text: string, word: string, from: nat, p: int)
    requires from <= |text|
    ensures OccursAt(text[from..], word, p) ==> OccursAt(text, word, p + from)
    ensures p >= from && OccursAt(text, word, p) ==> OccursAt(text[from..], word, p - from)
  {
    var rest := text[from..];
    if OccursAt(rest, word, p) {
      assert text[p + from..p + from + |word|] == rest[p..p + |word|];
    }
    if p >= from && OccursAt(text, word, p) {
      assert rest[p - from..p - from + |word|] == text[p..p + |word|];
    }
  }

  /** A word is counted exactly when it occurs. */
  lemma {:induction false} CountedOnce(text: string, word: string)
    requires word != ""
    ensures Occurrences(text, word) >= 1 <==> exists p :: OccursAt(text, word, p)
    decreases |text|
  {
    if |text| >= |word| {
      if word <= text {
        assert OccursAt(text, word, 0);
      } else {
        CountedOnce(text[1..], word);
        if p :| OccursAt(text[1..], word, p) {
          OccursLater(text, word, 1, p);
        }
        if p :| OccursAt(text, word, p) {
          OccursLater(text, word, 1, p);
        }
      }
    }
  }

  /** It is counted twice exactly when it occurs at two places that do not overlap. */
  lemma {:induction false} CountedTwice(text: string, word: string)
    requires word != ""
    ensures Occurrences(text, word) >= 2 <==>
      exists p, q :: OccursAt(text, word, p) && OccursAt(text, word, q) && p + |word| <= q
    decreases |text|
  {
    if |text| >= |word| {
      if word <= text {
        assert OccursAt(text, word, 0);
        CountedOnce(text[|word|..], word);
        if q :| OccursAt(text[|word|..], word, q) {
          OccursLater(text, word, |word|, q);
        }
        if p, q :| OccursAt(text, word, p) && OccursAt(text, word, q) && p + |word| <= q {
          OccursLater(text, word, |word|, q);
        }
      } else {
        CountedTwice(text[1..], word);
        if p, q :| OccursAt(text[1..], word, p) && OccursAt(text[1..], word, q) && p + |word| <= q {
          OccursLater(text, word, 1, p);
          OccursLater(text, word, 1, q);
        }
        if p, q :| OccursAt(text, word, p) && OccursAt(text, word, q) && p + |word| <= q {
          OccursLater(text, word, 1, p);
          OccursLater(text, word, 1, q);
        }
      }
    }
  }

  // ------------------------------------------------------ what a clean report says

  predicate IdUnique(docs: seq<Document>, id: string) {
    |Holders(docs, id)| < 2
  }

  predicate FieldsPresent(m: Matter) {
    Token(m.id) != "" &&
    (m.kind == Decision ==>
        m.featureIds.Items? && m.requirementIds.Items? && m.supersedes.Items? && m.supersededBy.Items?)
  }

  /** The document a reference leads to. */
  predicate LeadsTo(docs: seq<Document>, r: Ref, p: int) {
    r.To? && 0 <= p < |docs| && docs[p].path == r.path
  }

  predicate LinksBack(target: Matter, id: string) {
    id == "" || (target.featureIds.Items? && id in target.featureIds.items)
  }

  /** A feature's reference is in order: it leads to governed metadata of its kind that links back. */
  predicate RefInOrder(docs: seq<Document>, m: Matter, r: Ref, kind: Kind) {
    exists p | 0 <= p < |docs| :: LeadsTo(docs, r, p) && docs[p].matter.Some?
      && docs[p].matter.value.kind == kind && LinksBack(docs[p].matter.value, Token(m.id))
  }

  predicate Covers(m: Matter, v: Matter) {
    m.requirementIds.Items? && v.requirementIds.Items?
    && forall r | r in m.requirementIds.items :: r in v.requirementIds.items
  }

  predicate Passes(docs: seq<Document>, m: Matter, r: Ref) {
    exists p | 0 <= p < |docs| :: LeadsTo(docs, r, p) && docs[p].matter.Some?
      && docs[p].matter.value.kind == Validation && LinksBack(docs[p].matter.value, Token(m.id))
      && docs[p].matter.value.status == "completed" && docs[p].matter.value.verdict == "pass"
          && Covers(m, docs[p].matter.value)
  }

  predicate FeatureInOrder(docs: seq<Document>, m: Matter) {
    m.kind == Feature ==>
      && (forall k | 0 <= k < |m.decisionRefs| :: RefInOrder(docs, m, m.decisionRefs[k], Decision))
      && (forall k | 0 <= k < |m.validationRefs| :: RefInOrder(docs, m, m.validationRefs[k], Validation))
      && (m.status == "done" ==> exists k | 0 <= k < |m.validationRefs| :: Passes(docs, m, m.validationRefs[k]))
  }

  function Reciprocal(m: Matter, forward: bool): Field {
    if forward then m.supersededBy else m.supersedes
  }

  predicate IsTarget(docs: seq<Document>, refId: string, p: int) {
    0 <= p < |docs| && Carries(docs[p], refId) && docs[p].matter.value.kind == Decision
  }

  /** A supersession entry is blank, or names exactly one other decision, which names this one back. */
  predicate EntryInOrder(docs: seq<Document>, m: Matter, entry: string, forward: bool) {
    var refId := Token(entry);
    refId == "" ||
    (&& refId != Token(m.id)
     && exists p | 0 <= p < |docs| ::
          && IsTarget(docs, refId, p)
          && (forall q | 0 <= q < |docs| && IsTarget(docs, refId, q) :: q == p)
          && Reciprocal(docs[p].matter.value, forward).Items?
          && Token(m.id) != "" && Token(m.id) in Reciprocal(docs[p].matter.value, forward).items)
  }

  predicate EntriesInOrder(docs: seq<Document>, m: Matter, field: Field, forward: bool) {
    field.Items? ==> forall k | 0 <= k < |field.items| :: EntryInOrder(docs, m, field.items[k], forward)
  }

  /** The decision checks run only where feature_ids is a list: the loop goes on to the next document otherwise. */
  predicate DecisionInOrder(docs: seq<Document>, m: Matter) {
    m.kind == Decision && m.featureIds.Items? ==>
      && (m.status == "superseded" ==> m.supersededBy.Items? && m.supersededBy.items != [])
      && (m.status != "superseded" ==> !(m.supersededBy.Items? && m.supersededBy.items != []))
      && EntriesInOrder(docs, m, m.supersedes, true)
      && EntriesInOrder(docs, m, m.supersededBy, false)
  }

  /** A listed requirement is headed in the requirements document, and where the document must
      give evidence for it, it is mentioned beside its declaration. */
  predicate RequirementInOrder(defined: seq<string>, doc: Document, item: string)
    requires doc.matter.Some?
  {
    var id := Token(item);
    && id != "" && id in defined
    && (doc.matter.value.kind == Feature || doc.matter.value.kind == Validation ==> Occurrences(doc.text, id) >= 2)
  }

  predicate RequirementsInOrder(defined: seq<string>, doc: Document)
    requires doc.matter.Some?
  {
    var field := doc.matter.value.requirementIds;
    field.Items? ==>
      && (forall k | 0 <= k < |field.items| :: RequirementInOrder(defined, doc, field.items[k]))
      && (forall j, k | 0 <= j < k < |field.items| :: Token(field.items[j]) != Token(field.items[k]))
  }

  predicate FeatureIdInOrder(docs: seq<Document>, item: string) {
    exists p | 0 <= p < |docs| :: Carries(docs[p], Token(item)) && docs[p].matter.value.kind == Feature
  }

  predicate FeatureIdsInOrder(docs: seq<Document>, m: Matter) {
    m.featureIds.Items? ==> forall k | 0 <= k < |m.featureIds.items| :: FeatureIdInOrder(docs, m.featureIds.items[k])
  }

  /** Source references, too, are checked only where feature_ids is a list. */
  predicate SourcesInOrder(m: Matter) {
    m.featureIds.Items? ==> forall k | 0 <= k < |m.sourceRefs| :: m.sourceRefs[k].To?
  }

  predicate InOrder(docs: seq<Document>, defined: seq<string>, doc: Document) {
    doc.matter.Some? ==>
      && FieldsPresent(doc.matter.value) && FeatureInOrder(docs, doc.matter.value)
      && RequirementsInOrder(defined, doc) && FeatureIdsInOrder(docs, doc.matter.value)
      && SourcesInOrder(doc.matter.value) && DecisionInOrder(docs, doc.matter.value)
  }

  /** No finding, document by document. The requirement ids headed in the requirements document
      are given in order. */
  ghost predicate Clean(docs: seq<Document>, defined: seq<string>) {
    && (forall id: string :: IdUnique(docs, id))
    && Distinct(defined)
    && forall p | 0 <= p < |docs| :: InOrder(docs, defined, docs[p])
  }

  // ------------------------------------------------------------------ the checker

  /** Each id that occurs, with the positions of the documents that carry it. */
  ghost predicate IsIndex(docs: seq<Document>, index: map<string, seq<nat>>) {
    && (forall id :: id in index <==> Holders(docs, id) != [])
    && (forall id | id in index :: index[id] == Holders(docs, id))
  }

  /** id_locations */
  method IndexIds(docs: seq<Document>) returns (index: map<string, seq<nat>>)
    ensures IsIndex(docs, index)
  {
    index := map[];
    for i := 0 to |docs|
      invariant IsIndex(docs[..i], index)
    {
      assert docs[..i + 1][..i] == docs[..i];
      if docs[i].matter.None? {
        continue;
      }
      var id := Token(docs[i].matter.value.id);
      if id != "" {
        index := index[id := (if id in index then index[id] else []) + [i]];
      }
    }
    assert docs[..|docs|] == docs;
  }

  method CheckIds(docs: seq<Document>, index: map<string, seq<nat>>) returns (findings: seq<Problem>)
    requires IsIndex(docs, index)
    ensures findings == [] <==> forall id: string :: IdUnique(docs, id)
  {
    findings := [];
    var rest := index.Keys;
    while rest != {}
      invariant rest <= index.Keys
      invariant findings == [] <==> forall id | id in index && id !in rest :: IdUnique(docs, id)
      decreases |rest|
    {
      var id :| id in rest;
      rest := rest - {id};
      if |index[id]| < 2 {
        continue;
      }
      ghost var before := findings;
      for k := 0 to |index[id]|
        invariant |findings| == |before| + k
      {
        findings := findings + [DuplicateId];
      }
      assert !IdUnique(docs, id);
    }
    forall id: string | id !in index ensures IdUnique(docs, id) {
    }
  }

  /** documents_by_path; the paths of one walk are distinct. */
  method FindByPath(docs: seq<Document>, path: string) returns (found: Option<nat>)
    requires DistinctPaths(docs)
    ensures found.Some? ==> found.value < |docs| && docs[found.value].path == path
    ensures found.None? ==> forall p | 0 <= p < |docs| :: docs[p].path != path
  {
    for p := 0 to |docs|
      invariant forall q | 0 <= q < p :: docs[q].path != path
    {
      if docs[p].path == path {
        return Some(p);
      }
    }
    return None;
  }

  predicate DistinctPaths(docs: seq<Document>) {
    forall p, q | 0 <= p < q < |docs| :: docs[p].path != docs[q].path
  }

  /** One reference of a feature: its findings, and whether it is a passing validation. */
  method CheckRef(docs: seq<Document>, m: Matter, r: Ref, kind: Kind) returns (findings: seq<Problem>, passing: bool)
    requires DistinctPaths(docs)
    ensures findings == [] <==> RefInOrder(docs, m, r, kind)
    ensures passing <==> kind == Validation && Passes(docs, m, r)
  {
    passing := false;
    if r.Unusable? {
      return [BadReference], false;
    }
    var found := FindByPath(docs, r.path);
    if found.None? || docs[found.value].matter.None? || docs[found.value].matter.value.kind != kind {
      assert forall p | 0 <= p < |docs| && LeadsTo(docs, r, p) :: found == Some(p);
      return [WrongMetadata], false;
    }
    var target := docs[found.value].matter.value;
    assert forall p | 0 <= p < |docs| && LeadsTo(docs, r, p) :: p == found.value;
    assert LeadsTo(docs, r, found.value);
    var id := Token(m.id);
    if id != "" && (!target.featureIds.Items? || id !in target.featureIds.items) {
      return [NotReciprocal], false;
    }
    findings := [];
    if kind == Validation {
      passing := target.status == "completed" && target.verdict == "pass" && Covers(m, target);
    }
  }

  /** _check_feature_references */
  method CheckFeature(docs: seq<Document>, m: Matter) returns (findings: seq<Problem>)
    requires DistinctPaths(docs)
    ensures findings == [] <==> FeatureInOrder(docs, m)
  {
    findings := [];
    if m.kind != Feature {
      return;
    }
    for k := 0 to |m.decisionRefs|
      invariant findings == [] <==> forall j | 0 <= j < k :: RefInOrder(docs, m, m.decisionRefs[j], Decision)
    {
      var more, _ := CheckRef(docs, m, m.decisionRefs[k], Decision);
      findings := findings + more;
    }
    var anyPassing := false;
    for k := 0 to |m.validationRefs|
      invariant findings == [] <==>
        && (forall j | 0 <= j < |m.decisionRefs| :: RefInOrder(docs, m, m.decisionRefs[j], Decision))
        && (forall j | 0 <= j < k :: RefInOrder(docs, m, m.validationRefs[j], Validation))
      invariant anyPassing <==> exists j | 0 <= j < k :: Passes(docs, m, m.validationRefs[j])
    {
      var more, passing := CheckRef(docs, m, m.validationRefs[k], Validation);
      findings := findings + more;
      anyPassing := anyPassing || passing;
    }
    if m.status == "done" && !anyPassing {
      findings := findings + [DoneWithoutValidation];
    }
  }

  method CheckEntry(docs: seq<Document>, index: map<string, seq<nat>>, m: Matter, entry: string, forward: bool)
    returns (findings: seq<Problem>)
    requires IsIndex(docs, index)
    ensures findings == [] <==> EntryInOrder(docs, m, entry, forward)
  {
    var refId := Token(entry);
    if refId == "" {
      return [];
    }
    if refId == Token(m.id) {
      return [SelfReference];
    }
    var found := if refId in index then index[refId] else [];
    HoldersAre(docs, refId);
    assert found == Holders(docs, refId);
    forall k | 0 <= k < |found| ensures found[k] < |docs| && docs[found[k]].matter.Some? {
      assert found[k] in found;
    }
    var targets := Decisions(docs, found);
    DecisionsAre(docs, found);
    TargetsAre(docs, refId, found, targets);
    OneTargetIff(docs, refId, targets);
    if |targets| != 1 {
      return [UnknownDecision];
    }
    var p := targets[0];
    assert p in targets && IsTarget(docs, refId, p);
    var reciprocal := Reciprocal(docs[p].matter.value, forward);
    if !reciprocal.Items? || Token(m.id) == "" || Token(m.id) !in reciprocal.items {
      return [SupersessionNotReciprocal];
    }
    return [];
  }

  lemma {:induction false} DecisionsDistinct(docs: seq<Document>, found: seq<nat>)
    requires forall k | 0 <= k < |found| :: found[k] < |docs| && docs[found[k]].matter.Some?
    requires Distinct(found)
    ensures Distinct(Decisions(docs, found))
  {
    if found != [] {
      var front := found[..|found| - 1];
      DecisionsDistinct(docs, front);
      DecisionsAre(docs, front);
      forall x | x in front ensures x != found[|found| - 1] {
      }
    }
  }

  lemma TargetsAre(docs: seq<Document>, refId: string, found: seq<nat>, targets: seq<nat>)
    requires found == Holders(docs, refId)
    requires forall k | 0 <= k < |found| :: found[k] < |docs| && docs[found[k]].matter.Some?
    requires targets == Decisions(docs, found)
    ensures forall p: nat :: p in targets <==> IsTarget(docs, refId, p)
    ensures Distinct(targets)
  {
    HoldersAre(docs, refId);
    DecisionsAre(docs, found);
    DecisionsDistinct(docs, found);
  }

  lemma OneTargetIff(docs: seq<Document>, refId: string, targets: seq<nat>)
    requires forall p: nat :: p in targets <==> IsTarget(docs, refId, p)
    requires Distinct(targets)
    ensures |targets| == 1 ==> forall q | IsTarget(docs, refId, q) :: q == targets[0]
    ensures (exists p | 0 <= p < |docs| :: IsTarget(docs, refId, p) && forall q | 0 <= q < |docs|
        && IsTarget(docs, refId, q) :: q == p) ==> |targets| == 1
  {
    if |targets| == 1 {
      forall q | IsTarget(docs, refId, q) ensures q == targets[0] {
        assert q in targets;
      }
    }
    if p :| 0 <= p < |docs| && IsTarget(docs, refId, p) && forall q | 0 <= q < |docs| && IsTarget(docs, refId, q) ::
        q == p {
      assert p in targets;
      if |targets| > 1 {
        assert targets[0] in targets && targets[1] in targets;
        assert IsTarget(docs, refId, targets[0]) && IsTarget(docs, refId, targets[1]);
      }
    }
  }

  method CheckEntries(docs: seq<Document>, index: map<string, seq<nat>>, m: Matter, field: Field, forward: bool)
    returns (findings: seq<Problem>)
    requires IsIndex(docs, index)
    ensures findings == [] <==> EntriesInOrder(docs, m, field, forward)
  {
    findings := [];
    if !field.Items? {
      return;
    }
    for k := 0 to |field.items|
      invariant findings == [] <==> forall j | 0 <= j < k :: EntryInOrder(docs, m, field.items[j], forward)
    {
      var more := CheckEntry(docs, index, m, field.items[k], forward);
      findings := findings + more;
    }
  }

  method CheckDecision(docs: seq<Document>, index: map<string, seq<nat>>, m: Matter) returns (findings: seq<Problem>)
    requires IsIndex(docs, index)
    ensures findings == [] <==> DecisionInOrder(docs, m)
  {
    findings := [];
    if !m.featureIds.Items? || m.kind != Decision {
      return;
    }
    if m.status == "superseded" && (!m.supersededBy.Items? || m.supersededBy.items == []) {
      findings := findings + [WithoutReplacement];
    }
    if m.status != "superseded" && m.supersededBy.Items? && m.supersededBy.items != [] {
      findings := findings + [ActiveWithReplacement];
    }
    var older := CheckEntries(docs, index, m, m.supersedes, true);
    var newer := CheckEntries(docs, index, m, m.supersededBy, false);
    findings := findings + older + newer;
  }

  /** requirement_locations: a heading that repeats an id is a finding. */
  method CheckDefined(defined: seq<string>) returns (findings: seq<Problem>)
    ensures findings == [] <==> Distinct(defined)
  {
    findings := [];
    for k := 0 to |defined|
      invariant findings == [] <==> Distinct(defined[..k])
    {
      assert defined[..k + 1] == defined[..k] + [defined[k]];
      if defined[k] in defined[..k] {
        findings := findings + [DuplicateRequirementId];
      }
    }
    assert defined[..|defined|] == defined;
  }

  method CheckRequirements(defined: seq<string>, doc: Document) returns (findings: seq<Problem>)
    requires doc.matter.Some?
    ensures findings == [] <==> RequirementsInOrder(defined, doc)
  {
    findings := [];
    var m := doc.matter.value;
    if !m.requirementIds.Items? {
      return;
    }
    var items := m.requirementIds.items;
    var seen: set<string> := {};
    for k := 0 to |items|
      invariant findings == [] ==> seen == set j | 0 <= j < k :: Token(items[j])
      invariant findings == [] <==>
        (&& (forall j | 0 <= j < k :: RequirementInOrder(defined, doc, items[j]))
         && (forall i, j | 0 <= i < j < k :: Token(items[i]) != Token(items[j])))
    {
      var id := Token(items[k]);
      if id == "" {
        findings := findings + [InvalidRequirement];
        continue;
      }
      if id in seen {
        findings := findings + [RepeatedRequirement];
      }
      seen := seen + {id};
      if id !in defined {
        findings := findings + [UnknownRequirement];
      } else if (m.kind == Feature || m.kind == Validation) && Occurrences(doc.text, id) < 2 {
        findings := findings + [UnmappedRequirement];
      }
    }
  }

  lemma NoFeatureFound(docs: seq<Document>, found: seq<nat>, id: string)
    requires found == Holders(docs, id)
    requires forall k | 0 <= k < |found| ::
      found[k] < |docs| && docs[found[k]].matter.Some? && docs[found[k]].matter.value.kind != Feature
    ensures forall p | 0 <= p < |docs| && Carries(docs[p], id) :: docs[p].matter.value.kind != Feature
  {
    HoldersAre(docs, id);
    forall p | 0 <= p < |docs| && Carries(docs[p], id) ensures docs[p].matter.value.kind != Feature {
      assert p in found;
    }
  }

  method CheckFeatureId(docs: seq<Document>, index: map<string, seq<nat>>, item: string)
    returns (findings: seq<Problem>)
    requires IsIndex(docs, index)
    ensures findings == [] <==> FeatureIdInOrder(docs, item)
  {
    var id := Token(item);
    HoldersAre(docs, id);
    if id == "" {
      return [InvalidFeatureId];
    }
    var found := if id in index then index[id] else [];
    assert found == Holders(docs, id);
    for k := 0 to |found|
      invariant forall j | 0 <= j < k :: found[j] < |docs| && docs[found[j]].matter.Some?
                                         && docs[found[j]].matter.value.kind != Feature
    {
      assert found[k] in found;
      if docs[found[k]].matter.value.kind == Feature {
        return [];
      }
    }
    NoFeatureFound(docs, found, id);
    return [UnknownFeatureId];
  }

  method CheckFeatureIds(docs: seq<Document>, index: map<string, seq<nat>>, items: seq<string>)
    returns (findings: seq<Problem>)
    requires IsIndex(docs, index)
    ensures findings == [] <==> forall k | 0 <= k < |items| :: FeatureIdInOrder(docs, items[k])
  {
    findings := [];
    for k := 0 to |items|
      invariant findings == [] <==> forall j | 0 <= j < k :: FeatureIdInOrder(docs, items[j])
    {
      var more := CheckFeatureId(docs, index, items[k]);
      findings := findings + more;
    }
  }

  method CheckSources(refs: seq<Ref>) returns (findings: seq<Problem>)
    ensures findings == [] <==> forall k | 0 <= k < |refs| :: refs[k].To?
  {
    findings := [];
    for k := 0 to |refs|
      invariant findings == [] <==> forall j | 0 <= j < k :: refs[j].To?
    {
      if refs[k].Unusable? {
        findings := findings + [BadSource];
      }
    }
  }

  /** _validate_frontmatter, as far as the relations between documents need it. */
  method CheckFields(m: Matter) returns (findings: seq<Problem>)
    ensures findings == [] <==> FieldsPresent(m)
  {
    findings := [];
    if Token(m.id) == "" {
      findings := findings + [EmptyId];
    }
    if m.kind == Decision && !(m.featureIds.Items? && m.requirementIds.Items? && m.supersedes.Items?
        && m.supersededBy.Items?) {
      findings := findings + [MissingList];
    }
  }

  /** One document's round of the loop. */
  method CheckDocument(docs: seq<Document>, index: map<string, seq<nat>>, defined: seq<string>, doc: Document)
    returns (findings: seq<Problem>)
    requires DistinctPaths(docs) && IsIndex(docs, index)
    ensures findings == [] <==> InOrder(docs, defined, doc)
  {
    if doc.matter.None? {
      return [];
    }
    var m := doc.matter.value;
    findings := CheckFields(m);
    var features := CheckFeature(docs, m);
    var requirements := CheckRequirements(defined, doc);
    findings := findings + features + requirements;
    if !m.featureIds.Items? {
      return;
    }
    var ids := CheckFeatureIds(docs, index, m.featureIds.items);
    var sources := CheckSources(m.sourceRefs);
    var decisions := CheckDecision(docs, index, m);
    findings := findings + ids + sources + decisions;
  }

  /** The part of check_repository that relates documents to each other and to the requirements. */
  method CheckDocuments(docs: seq<Document>, defined: seq<string>) returns (findings: seq<Problem>)
    requires DistinctPaths(docs)
    ensures findings == [] <==> Clean(docs, defined)
  {
    var index := IndexIds(docs);
    findings := CheckIds(docs, index);
    var repeated := CheckDefined(defined);
    findings := findings + repeated;
    for p := 0 to |docs|
      invariant findings == [] <==>
        ((forall id: string :: IdUnique(docs, id)) && Distinct(defined)
         && (forall q | 0 <= q < p :: InOrder(docs, defined, docs[q])))
    {
      var more := CheckDocument(docs, index, defined, docs[p]);
      findings := findings + more;
    }
  }

  // -------------------------------------------------------------------- meaning

  predicate IsDecision(docs: seq<Document>, p: int) {
    0 <= p < |docs| && docs[p].matter.Some? && docs[p].matter.value.kind == Decision
  }

  function IdOf(docs: seq<Document>, p: int): string
    requires 0 <= p < |docs| && docs[p].matter.Some?
  {
    Token(docs[p].matter.value.id)
  }

  /** An entry of the field names the document. */
  predicate NamesDoc(field: Field, id: string) {
    id != "" && field.Items? && exists k | 0 <= k < |field.items| :: Token(field.items[k]) == id
  }

  predicate Supersedes(docs: seq<Document>, a: int, b: int)
    requires IsDecision(docs, a) && IsDecision(docs, b)
  {
    NamesDoc(docs[a].matter.value.supersedes, IdOf(docs, b))
  }

  predicate SupersededBy(docs: seq<Document>, b: int, a: int)
    requires IsDecision(docs, a) && IsDecision(docs, b)
  {
    NamesDoc(docs[b].matter.value.supersededBy, IdOf(docs, a))
  }

  /** Following an entry of one document to another finds the entry back. */
  lemma EntryAnswers(docs: seq<Document>, defined: seq<string>, a: int, b: int, forward: bool)
    requires Clean(docs, defined) && IsDecision(docs, a) && IsDecision(docs, b)
    requires NamesDoc(Reciprocal(docs[a].matter.value, !forward), IdOf(docs, b))
    ensures a != b
    ensures NamesDoc(Reciprocal(docs[b].matter.value, forward), IdOf(docs, a))
  {
    var m := docs[a].matter.value;
    var field := Reciprocal(m, !forward);
    var id := IdOf(docs, b);
    assert InOrder(docs, defined, docs[a]);
    var k :| 0 <= k < |field.items| && Token(field.items[k]) == id;
    assert EntriesInOrder(docs, m, field, forward);
    assert EntryInOrder(docs, m, field.items[k], forward);
    var p :| 0 <= p < |docs| && IsTarget(docs, id, p)
      && (forall q | 0 <= q < |docs| && IsTarget(docs, id, q) :: q == p)
      && Reciprocal(docs[p].matter.value, forward).Items?
      && Token(m.id) != "" && Token(m.id) in Reciprocal(docs[p].matter.value, forward).items;
    assert IsTarget(docs, id, b);
    assert p == b;
    var back := Reciprocal(docs[b].matter.value, forward);
    var j :| 0 <= j < |back.items| && back.items[j] == Token(m.id);
    TokenTwice(m.id);
    assert Token(back.items[j]) == IdOf(docs, a);
  }

  /** Main result: after a clean report, supersedes is exactly the converse of superseded_by, over
      all pairs of decisions, and no decision supersedes itself. */
  lemma CleanMeansConverse(docs: seq<Document>, defined: seq<string>, a: int, b: int)
    requires Clean(docs, defined) && IsDecision(docs, a) && IsDecision(docs, b)
    ensures Supersedes(docs, a, b) <==> SupersededBy(docs, b, a)
    ensures Supersedes(docs, a, b) ==> a != b
  {
    if Supersedes(docs, a, b) {
      EntryAnswers(docs, defined, a, b, true);
    }
    if SupersededBy(docs, b, a) {
      EntryAnswers(docs, defined, b, a, false);
    }
  }

  /** Main result: after a clean report no two documents carry one id. */
  lemma CleanMeansUniqueIds(docs: seq<Document>, defined: seq<string>, p: int, q: int)
    requires Clean(docs, defined) && 0 <= p < |docs| && 0 <= q < |docs| && docs[p].matter.Some? && docs[q].matter.Some?
    requires IdOf(docs, p) == IdOf(docs, q) != ""
    ensures p == q
  {
    var id := IdOf(docs, p);
    HoldersAre(docs, id);
    assert Carries(docs[p], id) && Carries(docs[q], id);
    assert IdUnique(docs, id);
    assert p in Holders(docs, id) && q in Holders(docs, id);
  }

  /** Somebody replaces the decision. */
  predicate HasReplacement(docs: seq<Document>, b: int)
    requires IsDecision(docs, b)
  {
    exists a | 0 <= a < |docs| :: IsDecision(docs, a) && SupersededBy(docs, b, a)
  }

  /** After a clean report a decision has a replacement exactly when its superseded_by has an
      entry that is not blank; so "superseded exactly when replaced" holds for a decision exactly
      when it is not superseded by nothing but blank entries. */
  lemma SupersededMeansReplacedIff(docs: seq<Document>, defined: seq<string>, b: int)
    requires Clean(docs, defined) && IsDecision(docs, b)
    ensures var m := docs[b].matter.value;
      && m.supersededBy.Items?
      && (m.status == "superseded" <==> m.supersededBy.items != [])
      && (HasReplacement(docs, b) <==> exists k | 0 <= k < |m.supersededBy.items| ::
          Token(m.supersededBy.items[k]) != "")
      && ((m.status == "superseded" <==> HasReplacement(docs, b)) <==>
          (m.supersededBy.items == [] || exists k | 0 <= k < |m.supersededBy.items| ::
              Token(m.supersededBy.items[k]) != ""))
  {
    var m := docs[b].matter.value;
    assert InOrder(docs, defined, docs[b]);
    if k :| 0 <= k < |m.supersededBy.items| && Token(m.supersededBy.items[k]) != "" {
      var id := Token(m.supersededBy.items[k]);
      assert EntryInOrder(docs, m, m.supersededBy.items[k], false);
      var a :| 0 <= a < |docs| && IsTarget(docs, id, a);
      assert Carries(docs[a], id) && IsDecision(docs, a) && IdOf(docs, a) == id;
      assert NamesDoc(m.supersededBy, id);
      assert SupersededBy(docs, b, a);
    }
  }

  /** A clean report over one decision that is superseded by a blank entry only. */
  lemma BlankEntryPassesForReplacement()
    ensures var m := Matter(Decision, "ADR-0001", "superseded", "", Items([]), Items([]), Items([]), Items([""]),
        [], [], []);
            var docs := [Document("docs/decisions/0001-a.md", "", Some(m))];
            Clean(docs, []) && m.status == "superseded" && !HasReplacement(docs, 0)
  {
    var m := Matter(Decision, "ADR-0001", "superseded", "", Items([]), Items([]), Items([]), Items([""]), [], [], []);
    var docs := [Document("docs/decisions/0001-a.md", "", Some(m))];
    forall id: string ensures IdUnique(docs, id) {
      assert docs[..0] == [];
      assert Holders(docs, id) == Holders([], id) + (if Carries(docs[0], id) then [0] else []);
    }
    assert Token("") == "";
    assert EntryInOrder(docs, m, "", false);
    assert DecisionInOrder(docs, m);
  }

  /** Main result: after a clean report every done feature references a completed, passing validation
      that links back to it and covers all its requirements. */
  lemma CleanMeansValidated(docs: seq<Document>, defined: seq<string>, p: int)
    requires Clean(docs, defined) && 0 <= p < |docs| && docs[p].matter.Some?
    requires docs[p].matter.value.kind == Feature && docs[p].matter.value.status == "done"
    ensures exists v | 0 <= v < |docs| && docs[v].matter.Some? ::
      && docs[v].matter.value.kind == Validation
      && docs[v].matter.value.status == "completed" && docs[v].matter.value.verdict == "pass"
      && docs[v].matter.value.featureIds.Items? && IdOf(docs, p) in docs[v].matter.value.featureIds.items
      && Covers(docs[p].matter.value, docs[v].matter.value)
      && To(docs[v].path) in docs[p].matter.value.validationRefs
  {
  }

  /** Main result: after a clean report each requirement a done feature lists is headed in the
      requirements document, once, and listed and mentioned again by a passing validation that
      links back. */
  lemma CleanMeansTraceable(docs: seq<Document>, defined: seq<string>, p: int, item: string)
    requires Clean(docs, defined) && 0 <= p < |docs| && docs[p].matter.Some?
    requires docs[p].matter.value.kind == Feature && docs[p].matter.value.status == "done"
    requires docs[p].matter.value.requirementIds.Items? && item in docs[p].matter.value.requirementIds.items
    ensures Token(item) != "" && Token(item) in defined && Distinct(defined)
    ensures Occurrences(docs[p].text, Token(item)) >= 2
    ensures exists v | 0 <= v < |docs| && docs[v].matter.Some? ::
      && docs[v].matter.value.kind == Validation
      && docs[v].matter.value.status == "completed" && docs[v].matter.value.verdict == "pass"
      && To(docs[v].path) in docs[p].matter.value.validationRefs
      && docs[v].matter.value.requirementIds.Items? && item in docs[v].matter.value.requirementIds.items
      && Occurrences(docs[v].text, Token(item)) >= 2
  {
    var items := docs[p].matter.value.requirementIds.items;
    var k :| 0 <= k < |items| && items[k] == item;
    assert InOrder(docs, defined, docs[p]);
    assert RequirementInOrder(defined, docs[p], items[k]);
    CleanMeansValidated(docs, defined, p);
    var v :| 0 <= v < |docs| && docs[v].matter.Some? && docs[v].matter.value.kind == Validation
      && docs[v].matter.value.status == "completed" && docs[v].matter.value.verdict == "pass"
      && Covers(docs[p].matter.value, docs[v].matter.value)
      && To(docs[v].path) in docs[p].matter.value.validationRefs;
    assert Covers(docs[p].matter.value, docs[v].matter.value) && docs[v].matter.value.requirementIds.Items?;
    var listed := docs[v].matter.value.requirementIds.items;
    assert item in listed;
    var n :| 0 <= n < |listed| && listed[n] == item;
    assert InOrder(docs, defined, docs[v]);
    assert RequirementInOrder(defined, docs[v], listed[n]);
  }

  /** Main result: after a clean report every feature id a document lists names exactly one
      document, and that is a feature. */
  lemma CleanMeansFeaturesResolve(docs: seq<Document>, defined: seq<string>, p: int, item: string)
    requires Clean(docs, defined) && 0 <= p < |docs| && docs[p].matter.Some?
    requires docs[p].matter.value.featureIds.Items? && item in docs[p].matter.value.featureIds.items
    ensures exists f | 0 <= f < |docs| && docs[f].matter.Some? ::
      && docs[f].matter.value.kind == Feature && IdOf(docs, f) == Token(item)
      && forall q | 0 <= q < |docs| && docs[q].matter.Some? && IdOf(docs, q) == Token(item) :: q == f
  {
    var items := docs[p].matter.value.featureIds.items;
    var k :| 0 <= k < |items| && items[k] == item;
    assert InOrder(docs, defined, docs[p]);
    assert FeatureIdInOrder(docs, items[k]);
    var f :| 0 <= f < |docs| && Carries(docs[f], Token(item)) && docs[f].matter.value.kind == Feature;
    forall q | 0 <= q < |docs| && docs[q].matter.Some? && IdOf(docs, q) == Token(item) ensures q == f {
      CleanMeansUniqueIds(docs, defined, q, f);
    }
  }

  /** Main result: after a clean report every decision or validation a feature references is a document of that
      kind that links back to the feature, and every source reference of a document with a feature list
      leads somewhere. */
  lemma CleanMeansRefsLinkBack(docs: seq<Document>, defined: seq<string>, p: int)
    requires Clean(docs, defined) && 0 <= p < |docs| && docs[p].matter.Some?
    ensures var m := docs[p].matter.value;
      && (m.kind == Feature ==>
            && (forall r | r in m.decisionRefs :: exists q | 0 <= q < |docs| ::
                  r == To(docs[q].path) && docs[q].matter.Some? && docs[q].matter.value.kind == Decision
                  && docs[q].matter.value.featureIds.Items? && IdOf(docs, p) in docs[q].matter.value.featureIds.items)
            && (forall r | r in m.validationRefs :: exists q | 0 <= q < |docs| ::
                  r == To(docs[q].path) && docs[q].matter.Some? && docs[q].matter.value.kind == Validation
                  && docs[q].matter.value.featureIds.Items? && IdOf(docs, p) in docs[q].matter.value.featureIds.items))
      && (m.featureIds.Items? ==> forall r | r in m.sourceRefs :: r.To?)
  {
    var m := docs[p].matter.value;
    assert InOrder(docs, defined, docs[p]);
    forall r | m.kind == Feature && r in m.decisionRefs
      ensures exists q | 0 <= q < |docs| ::
        r == To(docs[q].path) && docs[q].matter.Some? && docs[q].matter.value.kind == Decision
        && docs[q].matter.value.featureIds.Items? && IdOf(docs, p) in docs[q].matter.value.featureIds.items
    {
      var k :| 0 <= k < |m.decisionRefs| && m.decisionRefs[k] == r;
      assert RefInOrder(docs, m, m.decisionRefs[k], Decision);
    }
    forall r | m.kind == Feature && r in m.validationRefs
      ensures exists q | 0 <= q < |docs| ::
        r == To(docs[q].path) && docs[q].matter.Some? && docs[q].matter.value.kind == Validation
        && docs[q].matter.value.featureIds.Items? && IdOf(docs, p) in docs[q].matter.value.featureIds.items
    {
      var k :| 0 <= k < |m.validationRefs| && m.validationRefs[k] == r;
      assert RefInOrder(docs, m, m.validationRefs[k], Validation);
    }
  }
}
