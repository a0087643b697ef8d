/** The survey-level decisions a response set makes: which mandatory questions are
    still missing an answer, which dependent questions and groups to show, to show
    as mandatory, or to hide, the correctness counts, and the name a report shows
    for the respondent.

    What the database and other models supply is taken as input: the survey's
    sections, the stored dependencies, and the predicates `isMet` (a dependency's
    `is_met?` for this response set), `isAnswered` (`is_answered?`) and
    `isCorrect` (a response's `correct?`). */
module ResponseSetMethods {
  import opened Common
  import opened Records
  import opened Decimal

  /** A stored dependency, attached to a question, to a question group, or (in a group)
      both. Each record has its own id and its own conditions, so two dependencies on
      the same question can get different `isMet` verdicts. */
  datatype Dependency = Dependency(id: nat, question: Option<Question>, questionGroupId: Option<nat>)

  /** `sections.map(&:questions).flatten`. */
  function Flatten(sections: seq<Section>): (qs: seq<Question>)
    ensures |qs| == TotalQuestions(sections)
    ensures forall q :: q in qs <==> exists i :: 0 <= i < |sections| && q in sections[i].questions
    ensures InSectionOrder(sections, qs)
  {
    if sections == [] then []
    else
      var rest := Flatten(sections[1..]);
      assert forall i :: 1 <= i < |sections| ==> sections[i] == sections[1..][i - 1];
      InSectionOrderCons(sections, rest);
      sections[0].questions + rest
  }

  /** Question j of section i sits at position j after all questions of the sections
      before i: the list is the sections' questions joined in section order. */
  predicate InSectionOrder(sections: seq<Section>, qs: seq<Question>) {
    forall i, j :: 0 <= i < |sections| && 0 <= j < |sections[i].questions| ==> PlacedAt(sections, qs, i, j)
  }

  /** Question j of section i is at position TotalQuestions(sections[..i]) + j of qs. */
  predicate PlacedAt(sections: seq<Section>, qs: seq<Question>, i: int, j: int)
    requires 0 <= i < |sections| && 0 <= j < |sections[i].questions|
  {
    && TotalQuestions(sections[..i]) + j < |qs|
    && qs[TotalQuestions(sections[..i]) + j] == sections[i].questions[j]
  }

  lemma InSectionOrderCons(sections: seq<Section>, rest: seq<Question>)
    requires sections != []
    requires InSectionOrder(sections[1..], rest)
    ensures InSectionOrder(sections, sections[0].questions + rest)
  {
    var qs := sections[0].questions + rest;
    forall i, j | 0 <= i < |sections| && 0 <= j < |sections[i].questions|
      ensures PlacedAt(sections, qs, i, j)
    {
      if i == 0 {
        assert sections[..i] == [];
      } else {
        assert sections[..i][1..] == sections[1..][..i - 1];
        assert sections[1..][i - 1] == sections[i];
        var tail := sections[1..];
        assert PlacedAt(tail, rest, i - 1, j);
        var k := TotalQuestions(tail[..i - 1]);
        assert TotalQuestions(sections[..i]) == |sections[0].questions| + k;
      }
    }
  }

  /** The number of questions over all sections, counted section by section. */
  function TotalQuestions(sections: seq<Section>): nat {
    if sections == [] then 0 else |sections[0].questions| + TotalQuestions(sections[1..])
  }

  function QuestionIds(qs: seq<Question>): set<nat> {
    set q | q in qs :: q.id
  }

  /** Ids of the questions that the given dependencies target (`ds.map(&:question)`). */
  function TargetIds(ds: seq<Dependency>): set<nat> {
    set d | d in ds && d.question.Some? :: d.question.value.id
  }

  /** Keeps a question whose id is not among `ids`. Active Record objects compare by
      id, so Ruby's array difference `a - b` is `Filter(a, IdNotIn(ids of b))`. */
  function IdNotIn(ids: set<nat>): Question -> bool {
    (q: Question) => q.id !in ids
  }

  function IsMandatory(q: Question): bool {
    q.mandatory
  }

  function MandatoryAndAnswered(isAnswered: Question -> bool): Question -> bool {
    (q: Question) => q.mandatory && isAnswered(q)
  }

  function TargetsOneOf(ids: set<nat>): Dependency -> bool {
    (d: Dependency) => d.question.Some? && d.question.value.id in ids
  }

  /** `Dependency.where(question_id: qs.map(&:id))`: the stored dependencies whose
      question is one of `qs`. The `||` alternative in the source is never taken,
      since an array is always truthy. */
  function FetchDependencies(store: seq<Dependency>, qs: seq<Question>): (ds: seq<Dependency>)
    ensures forall d :: d in ds <==> d in store && d.question.Some? && exists q :: q in qs && q.id == d.question.value.id
    ensures IsSubsequence(ds, store)
  {
    forall d
      ensures d in Filter(store, TargetsOneOf(QuestionIds(qs)))
          <==> d in store && d.question.Some? && exists q :: q in qs && q.id == d.question.value.id
    {
      FilterMember(store, TargetsOneOf(QuestionIds(qs)), d);
    }
    FilterIsSubsequence(store, TargetsOneOf(QuestionIds(qs)));
    Filter(store, TargetsOneOf(QuestionIds(qs)))
  }

  /** The mandatory questions of the survey that are triggered (no unmet dependency
      targets them) and not yet answered, in survey order. */
  function TriggeredMandatoryMissing(
    sections: seq<Section>, store: seq<Dependency>,
    isMet: Dependency -> bool, isAnswered: Question -> bool): (missing: seq<Question>)
    ensures forall i :: 0 <= i < |missing| ==>
      missing[i] in Flatten(sections) && missing[i].mandatory && !isAnswered(missing[i])
    ensures forall d, i :: d in store && d.question.Some? && !isMet(d) && 0 <= i < |missing| ==>
      missing[i].id != d.question.value.id
  {
    var qs := Flatten(sections);
    var ds := FetchDependencies(store, qs);
    var triggered := Filter(qs, IdNotIn(TargetIds(Filter(ds, Not(isMet)))));
    var triggeredMandatory := Filter(triggered, IsMandatory);
    var completed := Filter(triggered, MandatoryAndAnswered(isAnswered));
    var missing := Filter(triggeredMandatory, IdNotIn(QuestionIds(completed)));
    MissingSound(qs, store, ds, triggered, triggeredMandatory, completed, missing, isMet, isAnswered);
    missing
  }

  lemma MissingSound(
    qs: seq<Question>, store: seq<Dependency>, ds: seq<Dependency>,
    triggered: seq<Question>, triggeredMandatory: seq<Question>,
    completed: seq<Question>, missing: seq<Question>,
    isMet: Dependency -> bool, isAnswered: Question -> bool)
    requires ds == FetchDependencies(store, qs)
    requires triggered == Filter(qs, IdNotIn(TargetIds(Filter(ds, Not(isMet)))))
    requires triggeredMandatory == Filter(triggered, IsMandatory)
    requires completed == Filter(triggered, MandatoryAndAnswered(isAnswered))
    requires missing == Filter(triggeredMandatory, IdNotIn(QuestionIds(completed)))
    ensures forall i :: 0 <= i < |missing| ==> missing[i] in qs && missing[i].mandatory && !isAnswered(missing[i])
    ensures forall d, i :: d in store && d.question.Some? && !isMet(d) && 0 <= i < |missing| ==>
      missing[i].id != d.question.value.id
  {
    forall i | 0 <= i < |missing|
      ensures missing[i] in qs && missing[i].mandatory && !isAnswered(missing[i])
    {
      var q := missing[i];
      assert q in triggered;
      FilterMember(triggered, MandatoryAndAnswered(isAnswered), q);
      assert q in completed ==> q.id in QuestionIds(completed);
    }
    forall d, i | d in store && d.question.Some? && !isMet(d) && 0 <= i < |missing|
      ensures missing[i].id != d.question.value.id
    {
      var q := missing[i];
      assert q in triggered;
      assert q.id in QuestionIds(qs);
      FilterMember(store, TargetsOneOf(QuestionIds(qs)), d);
      FilterMember(ds, Not(isMet), d);
      assert q.id == d.question.value.id ==> d in Filter(ds, Not(isMet));
      assert d in Filter(ds, Not(isMet)) ==> d.question.value.id in TargetIds(Filter(ds, Not(isMet)));
    }
  }

  /** A question is still required when it is mandatory, unanswered, and every
      stored dependency that targets it is met. */
  predicate StillRequired(q: Question, store: seq<Dependency>, isMet: Dependency -> bool, isAnswered: Question -> bool) {
    && q.mandatory
    && !isAnswered(q)
    && forall d :: d in store && d.question.Some? && d.question.value.id == q.id ==> isMet(d)
  }

  function RequiredBy(store: seq<Dependency>, isMet: Dependency -> bool, isAnswered: Question -> bool): Question -> bool {
    (q: Question) => StillRequired(q, store, isMet, isAnswered)
  }

  /** The chain of selections and differences is one selection of the survey's
      questions by `StillRequired`: the result keeps survey order and holds exactly
      the questions still required. */
  lemma TriggeredMandatoryMissingIsFilter(
    sections: seq<Section>, store: seq<Dependency>,
    isMet: Dependency -> bool, isAnswered: Question -> bool)
    ensures TriggeredMandatoryMissing(sections, store, isMet, isAnswered)
         == Filter(Flatten(sections), RequiredBy(store, isMet, isAnswered))
  {
    var qs := Flatten(sections);
    var ds := FetchDependencies(store, qs);
    var unmet := IdNotIn(TargetIds(Filter(ds, Not(isMet))));
    var triggered := Filter(qs, unmet);
    var completed := Filter(triggered, MandatoryAndAnswered(isAnswered));
    var notCompleted := IdNotIn(QuestionIds(completed));
    var both: Question -> bool := q => unmet(q) && IsMandatory(q);
    var all: Question -> bool := q => both(q) && notCompleted(q);
    FilterFilter(qs, unmet, IsMandatory, both);
    FilterFilter(qs, both, notCompleted, all);
    forall q | q in qs
      ensures all(q) == RequiredBy(store, isMet, isAnswered)(q)
    {
      RequiredAt(qs, store, isMet, isAnswered, q);
    }
    FilterExtensional(qs, all, RequiredBy(store, isMet, isAnswered));
  }

  lemma RequiredAt(qs: seq<Question>, store: seq<Dependency>, isMet: Dependency -> bool, isAnswered: Question -> bool, q: Question)
    requires q in qs
    ensures
      var ds := FetchDependencies(store, qs);
      var triggered := Filter(qs, IdNotIn(TargetIds(Filter(ds, Not(isMet)))));
      var completed := Filter(triggered, MandatoryAndAnswered(isAnswered));
      (q.id !in TargetIds(Filter(ds, Not(isMet))) && q.mandatory && q.id !in QuestionIds(completed))
        == StillRequired(q, store, isMet, isAnswered)
  {
    var ds := FetchDependencies(store, qs);
    var unmetIds := TargetIds(Filter(ds, Not(isMet)));
    var triggered := Filter(qs, IdNotIn(unmetIds));
    var completed := Filter(triggered, MandatoryAndAnswered(isAnswered));
    assert q.id in QuestionIds(qs);
    // the unmet dependencies targeting q are exactly the stored ones
    if q.id in unmetIds {
      var d :| d in Filter(ds, Not(isMet)) && d.question.Some? && d.question.value.id == q.id;
      FilterMember(ds, Not(isMet), d);
      FilterMember(store, TargetsOneOf(QuestionIds(qs)), d);
    } else {
      forall d | d in store && d.question.Some? && d.question.value.id == q.id
        ensures isMet(d)
      {
        FilterMember(store, TargetsOneOf(QuestionIds(qs)), d);
        FilterMember(ds, Not(isMet), d);
      }
      FilterMember(qs, IdNotIn(unmetIds), q);
      // q is triggered: it is among the completed ones exactly when it is answered
      if q.mandatory {
        if q.id in QuestionIds(completed) {
          var q' :| q' in completed && q'.id == q.id;
          FilterMember(triggered, MandatoryAndAnswered(isAnswered), q');
          // a question is its id and its mandatory flag, so q' is q
          assert q' == q;
        } else {
          FilterMember(triggered, MandatoryAndAnswered(isAnswered), q);
        }
      }
    }
  }

  /** A mandatory, unanswered question whose dependencies are all met (in particular,
      one that no dependency targets) is reported missing. */
  lemma TriggeredMandatoryMissingComplete(
    sections: seq<Section>, store: seq<Dependency>,
    isMet: Dependency -> bool, isAnswered: Question -> bool, q: Question)
    requires q in Flatten(sections) && q.mandatory && !isAnswered(q)
    requires forall d :: d in store && d.question.Some? && d.question.value.id == q.id ==> isMet(d)
    ensures q in TriggeredMandatoryMissing(sections, store, isMet, isAnswered)
  {
    TriggeredMandatoryMissingIsFilter(sections, store, isMet, isAnswered);
    FilterMember(Flatten(sections), RequiredBy(store, isMet, isAnswered), q);
  }

  /** The result lists questions in the order the survey's sections list them. */
  lemma TriggeredMandatoryMissingKeepsOrder(
    sections: seq<Section>, store: seq<Dependency>,
    isMet: Dependency -> bool, isAnswered: Question -> bool)
    ensures IsSubsequence(TriggeredMandatoryMissing(sections, store, isMet, isAnswered), Flatten(sections))
  {
    TriggeredMandatoryMissingIsFilter(sections, store, isMet, isAnswered);
    FilterIsSubsequence(Flatten(sections), RequiredBy(store, isMet, isAnswered));
  }

  /** Q1 is mandatory and ungated; Q2 is mandatory and gated by a dependency on Q1's
      answer. Before any answer only Q1 is missing. */
  lemma TriggeredMandatoryMissingBeforeAnswer()
    ensures
      var q1 := Question(1, true);
      var q2 := Question(2, true);
      TriggeredMandatoryMissing([Section([q1, q2])], [Dependency(1, Some(q2), None)], d => false, q => false) == [q1]
  {
    var q1 := Question(1, true);
    var q2 := Question(2, true);
    var gate := Dependency(1, Some(q2), None);
    var sections := [Section([q1, q2])];
    assert Flatten(sections) == [q1, q2];
    var required := RequiredBy([gate], d => false, q => false);
    assert required(q1);
    assert !required(q2) by { assert gate in [gate]; }
    TriggeredMandatoryMissingIsFilter(sections, [gate], d => false, q => false);
    assert Filter([q1, q2], required) == [q1] by {
      assert [q1, q2][1..] == [q2];
      assert [q2][1..] == [];
    }
  }

  /** Once Q1's answer meets the dependency, only Q2 is missing. */
  lemma TriggeredMandatoryMissingAfterAnswer()
    ensures
      var q1 := Question(1, true);
      var q2 := Question(2, true);
      TriggeredMandatoryMissing([Section([q1, q2])], [Dependency(1, Some(q2), None)], d => true, q => q == q1) == [q2]
  {
    var q1 := Question(1, true);
    var q2 := Question(2, true);
    var gate := Dependency(1, Some(q2), None);
    var sections := [Section([q1, q2])];
    assert Flatten(sections) == [q1, q2];
    var required := RequiredBy([gate], d => true, q => q == q1);
    assert !required(q1);
    assert required(q2);
    TriggeredMandatoryMissingIsFilter(sections, [gate], d => true, q => q == q1);
    assert Filter([q1, q2], required) == [q2] by {
      assert [q1, q2][1..] == [q2];
      assert [q2][1..] == [];
    }
  }
  /** Q2 carries two dependencies of its own, one met and one not: the unmet one
      keeps it out of the result even though the other is met. */
  lemma TriggeredMandatoryMissingOneUnmetSuffices()
    ensures
      var q2 := Question(2, true);
      var met, unmet := Dependency(1, Some(q2), None), Dependency(2, Some(q2), None);
      TriggeredMandatoryMissing([Section([q2])], [met, unmet], d => d == met, q => false) == []
  {
    var q2 := Question(2, true);
    var met, unmet := Dependency(1, Some(q2), None), Dependency(2, Some(q2), None);
    var sections := [Section([q2])];
    assert Flatten(sections) == [q2];
    var isMet: Dependency -> bool := d => d == met;
    assert !RequiredBy([met, unmet], isMet, q => false)(q2) by { assert unmet in [met, unmet]; }
    TriggeredMandatoryMissingIsFilter(sections, [met, unmet], isMet, q => false);
    assert [q2][1..] == [];
  }

  // ---------------------------------------------------------------- all_dependencies

  /** What a dependency shows or hides: a question group, or a single question
      (whose id may be missing). */
  datatype Target = GroupTarget(groupId: nat) | QuestionTarget(questionId: Option<nat>)

  function TargetOf(d: Dependency): Target {
    if d.questionGroupId.Some? then GroupTarget(d.questionGroupId.value)
    else QuestionTarget(if d.question.Some? then Some(d.question.value.id) else None)
  }

  /** The element id of a dependency's target: `g_<question_group_id>` when it has a
      question group, else `q_<question_id>` (Ruby renders a missing id as nothing). */
  function ElementId(d: Dependency): (s: string)
    ensures |s| >= 2 && s[1] == '_'
    ensures s[0] == 'g' <==> d.questionGroupId.Some?
    ensures s[0] == 'q' <==> d.questionGroupId.None?
  {
    match TargetOf(d)
    case GroupTarget(g) => "g_" + NatToString(g)
    case QuestionTarget(q) => "q_" + (if q.Some? then NatToString(q.value) else "")
  }

  /** Reads an element id back into the target it names. */
  function ParseElementId(s: string): Option<Target> {
    if |s| < 2 || s[1] != '_' then None
    else if s[0] == 'g' && |s| > 2 && AllDigits(s[2..]) then Some(GroupTarget(ParseNat(s[2..])))
    else if s[0] == 'q' && |s| == 2 then Some(QuestionTarget(None))
    else if s[0] == 'q' && AllDigits(s[2..]) then Some(QuestionTarget(Some(ParseNat(s[2..]))))
    else None
  }

  /** Element ids name their targets unambiguously. */
  lemma ElementIdRoundTrip(d: Dependency)
    ensures ParseElementId(ElementId(d)) == Some(TargetOf(d))
  {
    var s := ElementId(d);
    match TargetOf(d)
    case GroupTarget(g) =>
      assert s[2..] == NatToString(g);
      ParseNatToString(g);
    case QuestionTarget(q) =>
      if q.Some? {
        assert s[2..] == NatToString(q.value);
        ParseNatToString(q.value);
      }
  }

  lemma ElementIdInjective(d1: Dependency, d2: Dependency)
    requires ElementId(d1) == ElementId(d2)
    ensures TargetOf(d1) == TargetOf(d2)
  {
    ElementIdRoundTrip(d1);
    ElementIdRoundTrip(d2);
  }

  /** A met dependency can be classified as mandatory: it has a question group, or a
      question whose `is_mandatory?` can be asked (Ruby raises on a missing one). */
  predicate Classifiable(d: Dependency) {
    d.questionGroupId.Some? || d.question.Some?
  }

  /** The `show_mandatory` entry of a met dependency: its element id when it has a
      group or a mandatory question, `nil` otherwise. */
  function MandatoryElementId(d: Dependency): (r: Option<string>)
    requires Classifiable(d)
    ensures r.Some? <==> d.questionGroupId.Some? || d.question.value.mandatory
    ensures r.Some? ==> r.value == ElementId(d)
  {
    if d.questionGroupId.Some? then Some(ElementId(d))
    else if d.question.value.mandatory then Some(ElementId(d))
    else None
  }

  /** `show_mandatory` for the met dependencies, position by position. */
  function MandatoryIds(met: seq<Dependency>): (r: seq<Option<string>>)
    requires forall i :: 0 <= i < |met| ==> Classifiable(met[i])
    ensures |r| == |met|
    ensures forall i :: 0 <= i < |met| ==> r[i] == MandatoryElementId(met[i])
  {
    if met == [] then [] else [MandatoryElementId(met[0])] + MandatoryIds(met[1..])
  }

  /** The three lists `all_dependencies` returns. */
  datatype DependencyLists = DependencyLists(show: seq<string>, showMandatory: seq<Option<string>>, hide: seq<string>)

  /** Partitions the fetched dependencies into met and unmet and maps each to the
      element id of its target. */
  function AllDependencies(deps: seq<Dependency>, isMet: Dependency -> bool): (r: DependencyLists)
    requires forall d :: d in deps && isMet(d) ==> Classifiable(d)
    ensures |r.show| == |r.showMandatory| == |Filter(deps, isMet)|
    ensures |r.hide| == |Filter(deps, Not(isMet))|
    ensures |r.show| + |r.hide| == |deps|
    ensures multiset(r.show) + multiset(r.hide) == multiset(Map(deps, ElementId))
    ensures forall i :: 0 <= i < |r.show| ==>
      r.showMandatory[i] == None || r.showMandatory[i] == Some(r.show[i])
    ensures forall i :: 0 <= i < |r.show| && "g_" <= r.show[i] ==> r.showMandatory[i] == Some(r.show[i])
    ensures forall i :: 0 <= i < |r.show| ==> r.show[i] == ElementId(Filter(deps, isMet)[i])
    ensures forall i :: 0 <= i < |r.hide| ==> r.hide[i] == ElementId(Filter(deps, Not(isMet))[i])
    ensures forall i :: 0 <= i < |r.show| ==>
      var d := Filter(deps, isMet)[i];
      r.showMandatory[i].Some? <==> d.questionGroupId.Some? || (d.question.Some? && d.question.value.mandatory)
  {
    var parts := Partition(deps, isMet);
    var met, unmet := parts.0, parts.1;
    assert met == Filter(deps, isMet) && unmet == Filter(deps, Not(isMet));
    MapPartition(deps, isMet, ElementId);
    MandatoryIdsAgree(met);
    DependencyLists(Map(met, ElementId), MandatoryIds(met), Map(unmet, ElementId))
  }

  /** Position by position, a `show_mandatory` entry is `nil` or the `show` entry, and it
      is the `show` entry for a group and for a mandatory question. */
  lemma MandatoryIdsAgree(met: seq<Dependency>)
    requires forall i :: 0 <= i < |met| ==> Classifiable(met[i])
    ensures forall i :: 0 <= i < |met| ==>
      && (MandatoryIds(met)[i] == None || MandatoryIds(met)[i] == Some(Map(met, ElementId)[i]))
      && ("g_" <= Map(met, ElementId)[i] ==> MandatoryIds(met)[i] == Some(Map(met, ElementId)[i]))
      && (MandatoryIds(met)[i].Some? <==>
            met[i].questionGroupId.Some? || (met[i].question.Some? && met[i].question.value.mandatory))
  {
    forall i | 0 <= i < |met|
      ensures "g_" <= Map(met, ElementId)[i] ==> met[i].questionGroupId.Some?
    {
      var id := ElementId(met[i]);
      if "g_" <= id {
        assert id[0] == 'g';
      }
    }
  }

  lemma {:induction false} MandatoryIdsConcat(a: seq<Dependency>, b: seq<Dependency>)
    requires forall i :: 0 <= i < |a| ==> Classifiable(a[i])
    requires forall i :: 0 <= i < |b| ==> Classifiable(b[i])
    ensures MandatoryIds(a + b) == MandatoryIds(a) + MandatoryIds(b)
  {
    var ab := a + b;
    assert forall i :: 0 <= i < |ab| ==> ab[i] == if i < |a| then a[i] else b[i - |a|];
    var whole, parts := MandatoryIds(ab), MandatoryIds(a) + MandatoryIds(b);
    assert |whole| == |parts|;
    forall i | 0 <= i < |ab|
      ensures whole[i] == parts[i]
    {
      if i < |a| {
        assert parts[i] == MandatoryIds(a)[i];
      } else {
        assert parts[i] == MandatoryIds(b)[i - |a|];
      }
    }
  }

  /** The lists follow the fetch order: one more dependency extends `show` and
      `show_mandatory` when it is met, and `hide` when it is not. */
  lemma AllDependenciesAppend(deps: seq<Dependency>, d: Dependency, isMet: Dependency -> bool)
    requires forall e :: e in deps + [d] && isMet(e) ==> Classifiable(e)
    ensures
      var r := AllDependencies(deps, isMet);
      AllDependencies(deps + [d], isMet)
        == if isMet(d) then DependencyLists(r.show + [ElementId(d)], r.showMandatory + [MandatoryElementId(d)], r.hide)
           else DependencyLists(r.show, r.showMandatory, r.hide + [ElementId(d)])
  {
    AllDependenciesFields(deps, isMet);
    AllDependenciesFields(deps + [d], isMet);
    FilterMapSnoc(deps, d, isMet, ElementId);
    FilterMapSnoc(deps, d, Not(isMet), ElementId);
    MandatoryIdsSnoc(deps, d, isMet);
  }

  lemma AllDependenciesFields(deps: seq<Dependency>, isMet: Dependency -> bool)
    requires forall d :: d in deps && isMet(d) ==> Classifiable(d)
    ensures AllDependencies(deps, isMet).show == Map(Filter(deps, isMet), ElementId)
    ensures AllDependencies(deps, isMet).showMandatory == MandatoryIds(Filter(deps, isMet))
    ensures AllDependencies(deps, isMet).hide == Map(Filter(deps, Not(isMet)), ElementId)
  {
  }

  lemma MandatoryIdsSnoc(deps: seq<Dependency>, d: Dependency, isMet: Dependency -> bool)
    requires forall e :: e in deps + [d] && isMet(e) ==> Classifiable(e)
    ensures MandatoryIds(Filter(deps + [d], isMet))
         == MandatoryIds(Filter(deps, isMet)) + if isMet(d) then [MandatoryElementId(d)] else []
  {
    var met := Filter(deps, isMet);
    FilterConcat(deps, [d], isMet);
    assert [d][1..] == [];
    var last := Filter([d], isMet);
    assert last == if isMet(d) then [d] else [];
    assert forall i :: 0 <= i < |met| ==> met[i] in deps + [d];
    assert forall i :: 0 <= i < |last| ==> Classifiable(last[i]);
    MandatoryIdsConcat(met, last);
    assert MandatoryIds(last) == if isMet(d) then [MandatoryElementId(d)] else [];
  }

  /** A met dependency on a group is shown and shown as mandatory; a met dependency
      on a non-mandatory question is shown with a `nil` in `show_mandatory`. */
  lemma AllDependenciesSingle(gid: nat, qid: nat)
    ensures
      var onGroup := Dependency(1, None, Some(gid));
      var r := AllDependencies([onGroup], e => true);
      r.show == ["g_" + NatToString(gid)] && r.showMandatory == [Some("g_" + NatToString(gid))] && r.hide == []
    ensures
      var onQuestion := Dependency(2, Some(Question(qid, false)), None);
      var r := AllDependencies([onQuestion], e => true);
      r.show == ["q_" + NatToString(qid)] && r.showMandatory == [None] && r.hide == []
  {
    var met: Dependency -> bool := e => true;
    var onGroup := Dependency(1, None, Some(gid));
    var onQuestion := Dependency(2, Some(Question(qid, false)), None);
    assert Filter([onGroup], met) == [onGroup];
    assert Filter([onGroup], Not(met)) == [];
    assert Filter([onQuestion], met) == [onQuestion];
    assert Filter([onQuestion], Not(met)) == [];
  }

  // ---------------------------------------------------------------- correctness_hash

  /** The `{questions:, responses:, correct:}` counts. */
  datatype Correctness = Correctness(questions: nat, responses: nat, correct: nat)

  function CorrectnessHash(sections: seq<Section>, responses: seq<Response>, isCorrect: Response -> bool): (h: Correctness)
    ensures h.questions == TotalQuestions(sections)
    ensures h.responses == |responses|
    ensures h.correct == Count(responses, isCorrect)
    ensures h.correct <= h.responses
    ensures h.correct == h.responses <==> forall r :: r in responses ==> isCorrect(r)
    ensures h.correct == 0 <==> forall r :: r in responses ==> !isCorrect(r)
  {
    FilterCount(responses, isCorrect);
    FilterKeepsAll(responses, isCorrect);
    var correct := Filter(responses, isCorrect);
    assert correct != [] ==> correct[0] in correct;
    Correctness(|Flatten(sections)|, |responses|, |correct|)
  }

  // ---------------------------------------------------------------- report_user_name

  /** The stand-in names for test users, keyed by `user_id.to_s`. */
  const FAKE_USERS: map<string, string> := map[
    "0" := "Bob", "-1" := "Kishore", "-2" := "Tina", "-3" := "Xiao", "-4" := "Marshal",
    "-5" := "Lana", "-6" := "Demarius", "-7" := "Taylor", "-8" := "Cameron", "-9" := "Clio"]

  /** The same names, listed by minus the user id. */
  const FAKE_USER_NAMES: seq<string> :=
    ["Bob", "Kishore", "Tina", "Xiao", "Marshal", "Lana", "Demarius", "Taylor", "Cameron", "Clio"]

  /** A report shows a user name, or else the response set's record id. */
  datatype ReportName = UserName(name: string) | RecordId(id: nat)

  /** `user_id.to_s`, where `nil.to_s` is the empty string. */
  function UserIdString(userId: Option<int>): (s: string)
    ensures userId.None? <==> s == ""
    ensures userId.Some? ==> ParseInt(s) == Some(userId.value)
  {
    if userId.Some? then
      ParseIntToString(userId.value);
      IntToString(userId.value)
    else ""
  }

  /** The renderings of 0 down to -9, spelled out. */
  lemma Renderings()
    ensures IntToString(0) == "0" && IntToString(-1) == "-1" && IntToString(-2) == "-2"
    ensures IntToString(-3) == "-3" && IntToString(-4) == "-4" && IntToString(-5) == "-5"
    ensures IntToString(-6) == "-6" && IntToString(-7) == "-7" && IntToString(-8) == "-8"
    ensures IntToString(-9) == "-9"
  {
    assert IntToString(-1) == "-" + NatToString(1);
    assert IntToString(-5) == "-" + NatToString(5);
    assert IntToString(-9) == "-" + NatToString(9);
  }

  /** The keys of the fake-user table are the renderings of 0 down to -9. */
  lemma FakeUserKeys()
    ensures forall k :: -9 <= k <= 0 ==>
      IntToString(k) in FAKE_USERS && FAKE_USERS[IntToString(k)] == FAKE_USER_NAMES[-k]
    ensures forall key :: key in FAKE_USERS ==> exists k :: -9 <= k <= 0 && key == IntToString(k)
  {
    Renderings();
  }

  /** The fake-user table has an entry exactly for the user ids 0 down to -9. */
  lemma FakeUserKey(userId: Option<int>)
    ensures UserIdString(userId) in FAKE_USERS <==> userId.Some? && -9 <= userId.value <= 0
    ensures userId.Some? && -9 <= userId.value <= 0 ==>
      FAKE_USERS[UserIdString(userId)] == FAKE_USER_NAMES[-userId.value]
  {
    FakeUserKeys();
    if UserIdString(userId) in FAKE_USERS {
      var k :| -9 <= k <= 0 && UserIdString(userId) == IntToString(k);
      assert userId.Some?;
      IntToStringInjective(userId.value, k);
    }
  }

  /** `user_name || fake_users[user_id.to_s] || id`, where `resolved` is the name the
      optional `ResponseSetUser` resolver returns (`None` when it is not defined or
      returns `nil`). */
  function ReportUserName(resolved: Option<string>, userId: Option<int>, id: nat): (r: ReportName)
    ensures resolved.Some? ==> r == UserName(resolved.value)
    ensures resolved.None? && userId.Some? && -9 <= userId.value <= 0 ==>
      r == UserName(FAKE_USER_NAMES[-userId.value])
    ensures resolved.None? && !(userId.Some? && -9 <= userId.value <= 0) ==> r == RecordId(id)
  {
    FakeUserKey(userId);
    var key := UserIdString(userId);
    if resolved.Some? then UserName(resolved.value)
    else if key in FAKE_USERS then UserName(FAKE_USERS[key])
    else RecordId(id)
  }
}
