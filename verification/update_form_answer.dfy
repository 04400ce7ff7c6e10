/** The "update answers for an athlete's form" handler: find the athlete's copy of the
    form, write each listed question's observation, fold the listed answers into one
    JSON object keyed by question id, and store it as the athlete-form's single answer
    row, creating the row or replacing its contents.

    Unlike the other handlers this one runs no transaction: each question update is
    its own write, so a failing one leaves the others in place. */
module FormAnswers {
  import opened Store

  const FormNotFoundMessage: string := "Form not found for athlete"

  /** One entry of the request's `questions` list; an omitted observation is `None`. */
  datatype QuestionInput = QuestionInput(id: QuestionId, answer: AnswerValue, observation: Option<string>)

  /** The store the handler leaves behind, and the error it ends in, if any. */
  datatype Reply = Reply(db: Db, error: Option<Error>)

  /** The first athlete-form of `athleteId` whose form has `slug`. */
  function FindAthleteForm(forms: seq<AthleteForm>, athleteId: AthleteId, slug: string): (r: Option<AthleteForm>)
    ensures r.None? <==> forall i :: 0 <= i < |forms| ==> !(forms[i].athleteId == athleteId && forms[i].slug == slug)
    ensures r.Some? ==> r.value in forms && r.value.athleteId == athleteId && r.value.slug == slug
  {
    match FirstIndex(forms, (f: AthleteForm) => f.athleteId == athleteId && f.slug == slug)
    case None => None
    case Some(i) => Some(forms[i])
  }

  /** The position of the last entry for question `id`: the entry whose values win. */
  function LastIndexOf(qs: seq<QuestionInput>, id: QuestionId): (r: Option<nat>)
    ensures r.None? <==> forall i :: 0 <= i < |qs| ==> qs[i].id != id
    ensures r.Some? ==> r.value < |qs| && qs[r.value].id == id
    ensures r.Some? ==> forall j :: r.value < j < |qs| ==> qs[j].id != id
  {
    if |qs| == 0 then None
    else if qs[|qs| - 1].id == id then Some(|qs| - 1)
    else LastIndexOf(qs[..|qs| - 1], id)
  }

  function QuestionIds(qs: seq<QuestionInput>): set<QuestionId>
  {
    set q | q in qs :: q.id
  }

  /** `data`: the request's answers folded left into an object keyed by question id,
      so that a later entry for the same id overwrites an earlier one. */
  function CollectAnswers(qs: seq<QuestionInput>): (data: AnswerData)
    ensures data.Keys == QuestionIds(qs)
    ensures forall id :: id in data ==> LastIndexOf(qs, id).Some? && data[id] == qs[LastIndexOf(qs, id).value].answer
  {
    if |qs| == 0 then map[]
    else
      var init := qs[..|qs| - 1];
      var q := qs[|qs| - 1];
      assert qs == init + [q];
      assert QuestionIds(qs) == QuestionIds(init) + {q.id};
      CollectAnswers(init)[q.id := q.answer]
  }

  /** The observation a question ends with: that of its last entry, or its own when
      the request does not list it. */
  function FinalObservation(qs: seq<QuestionInput>, id: QuestionId, current: Option<string>): Option<string>
  {
    match LastIndexOf(qs, id)
    case None => current
    case Some(i) => qs[i].observation
  }

  /** The `question.update` calls, one per entry, in request order: each existing
      question listed gets the entry's observation, or none when it is omitted. An
      entry whose id has no question row writes nothing. */
  function ResetObservations(questions: map<QuestionId, Question>, qs: seq<QuestionInput>)
    : (r: map<QuestionId, Question>)
    ensures r.Keys == questions.Keys
    ensures forall id :: id in r ==> r[id].title == questions[id].title
    ensures forall id :: id in r ==> r[id].observation == FinalObservation(qs, id, questions[id].observation)
  {
    if |qs| == 0 then questions
    else
      var init := qs[..|qs| - 1];
      var q := qs[|qs| - 1];
      var before := ResetObservations(questions, init);
      if q.id in before then before[q.id := before[q.id].(observation := q.observation)]
      else before
  }

  /** A question the request does not list keeps its row; a listed one takes the
      observation of its last entry. */
  lemma ResetWritesListedOnly(questions: map<QuestionId, Question>, qs: seq<QuestionInput>)
    ensures forall id :: id in questions && id !in QuestionIds(qs) ==>
              ResetObservations(questions, qs)[id] == questions[id]
    ensures forall i :: 0 <= i < |qs| && qs[i].id in questions && LastIndexOf(qs, qs[i].id) == Some(i) ==>
              ResetObservations(questions, qs)[qs[i].id].observation == qs[i].observation
  {
    var r := ResetObservations(questions, qs);
    forall id | id in questions && id !in QuestionIds(qs) ensures r[id] == questions[id] {
      assert LastIndexOf(qs, id).None?;
    }
  }

  predicate AllQuestionsExist(questions: map<QuestionId, Question>, qs: seq<QuestionInput>)
  {
    forall i :: 0 <= i < |qs| ==> qs[i].id in questions
  }

  function UpdateFormAnswer(db: Db, athleteId: AthleteId, slug: string, qs: seq<QuestionInput>): (r: Reply)
    // no matching athlete-form: NotFound, and nothing is written
    ensures FindAthleteForm(db.athleteForms, athleteId, slug).None? <==> r.error == Some(NotFound(FormNotFoundMessage))
    ensures FindAthleteForm(db.athleteForms, athleteId, slug).None? ==> r.db == db
    // past the lookup, every listed question's observation is written, even when the handler fails
    ensures FindAthleteForm(db.athleteForms, athleteId, slug).Some? ==>
              && r.db.questions.Keys == db.questions.Keys
              && (forall id :: id in db.questions ==> r.db.questions[id].title == db.questions[id].title)
              && (forall id :: id in db.questions && id !in QuestionIds(qs) ==> r.db.questions[id] == db.questions[id])
              && (forall i :: 0 <= i < |qs| && qs[i].id in db.questions && LastIndexOf(qs, qs[i].id) == Some(i) ==>
                    r.db.questions[qs[i].id].observation == qs[i].observation)
    ensures r.error.None? <==> FindAthleteForm(db.athleteForms, athleteId, slug).Some? && AllQuestionsExist(db.questions, qs)
    ensures r.error.Some? && !r.error.value.NotFound? ==> r.error == Some(DbRejected(MissingRow)) && r.db.answers == db.answers
    // a listed id without a question row: the request ends in MissingRow and no answer is written
    ensures FindAthleteForm(db.athleteForms, athleteId, slug).Some? && !AllQuestionsExist(db.questions, qs) ==>
              r.error == Some(DbRejected(MissingRow)) && r.db.answers == db.answers
    // on success the athlete-form's answer holds exactly the request's answers, last entry winning
    ensures r.error.None? ==> var af := FindAthleteForm(db.athleteForms, athleteId, slug).value;
              && r.db.answers.Keys == db.answers.Keys + {af.id}
              && (forall k :: k in db.answers && k != af.id ==> r.db.answers[k] == db.answers[k])
              && r.db.answers[af.id].Keys == QuestionIds(qs)
              && (forall i :: 0 <= i < |qs| && LastIndexOf(qs, qs[i].id) == Some(i) ==>
                    r.db.answers[af.id][qs[i].id] == qs[i].answer)
    ensures r.db.(questions := db.questions, answers := db.answers) == db
  {
    match FindAthleteForm(db.athleteForms, athleteId, slug)
    case None => Reply(db, Some(NotFound(FormNotFoundMessage)))
    case Some(af) =>
      ResetWritesListedOnly(db.questions, qs);
      WriteAnswers(db, af, qs)
  }

  /** The writes once the athlete-form `af` is found. */
  function WriteAnswers(db: Db, af: AthleteForm, qs: seq<QuestionInput>): (r: Reply)
    ensures r.db.questions == ResetObservations(db.questions, qs)
    ensures r.error.None? <==> AllQuestionsExist(db.questions, qs)
    ensures r.error.Some? ==> r.error == Some(DbRejected(MissingRow)) && r.db.answers == db.answers
    ensures r.error.None? ==>
              && r.db.answers.Keys == db.answers.Keys + {af.id}
              && (forall k :: k in db.answers && k != af.id ==> r.db.answers[k] == db.answers[k])
              && r.db.answers[af.id].Keys == QuestionIds(qs)
              && (forall i :: 0 <= i < |qs| && LastIndexOf(qs, qs[i].id) == Some(i) ==>
                    r.db.answers[af.id][qs[i].id] == qs[i].answer)
    ensures r.db.(questions := db.questions, answers := db.answers) == db
  {
    var written := db.(questions := ResetObservations(db.questions, qs));
    if !AllQuestionsExist(db.questions, qs) then Reply(written, Some(DbRejected(MissingRow)))
    else
      // `answer.create` when the athlete-form has no answer, `answer.update` of its data otherwise
      var data := CollectAnswers(qs);
      Reply(written.(answers := written.answers[af.id := data]), None)
  }

  /** Without an answer row, a successful request creates exactly one; with one, it
      replaces that row's data, so a key of the old data the request does not list
      is gone. */
  lemma CreatesOrReplacesAnswer(db: Db, athleteId: AthleteId, slug: string, qs: seq<QuestionInput>)
    requires UpdateFormAnswer(db, athleteId, slug, qs).error.None?
    ensures var af := FindAthleteForm(db.athleteForms, athleteId, slug).value;
            var db' := UpdateFormAnswer(db, athleteId, slug, qs).db;
            && (af.id !in db.answers ==> |db'.answers| == |db.answers| + 1)
            && (af.id in db.answers ==> |db'.answers| == |db.answers|)
            && (forall k :: af.id in db.answers && k in db.answers[af.id] && k !in QuestionIds(qs) ==>
                  k !in db'.answers[af.id])
  {
  }

  /** Two requests agree on which entry wins for every question id. */
  ghost predicate SameWinningEntries(qs: seq<QuestionInput>, qs': seq<QuestionInput>)
  {
    forall id :: SameWinner(qs, qs', id)
  }

  predicate SameWinner(qs: seq<QuestionInput>, qs': seq<QuestionInput>, id: QuestionId)
  {
    match (LastIndexOf(qs, id), LastIndexOf(qs', id))
    case (None, None) => true
    case (Some(k), Some(k')) => qs[k] == qs'[k']
    case _ => false
  }

  /** The stored answer depends only on the winning entry of each id. */
  lemma CollectDependsOnWinners(qs: seq<QuestionInput>, qs': seq<QuestionInput>)
    requires SameWinningEntries(qs, qs')
    ensures CollectAnswers(qs) == CollectAnswers(qs')
  {
    var d := CollectAnswers(qs);
    var d' := CollectAnswers(qs');
    forall id ensures (id in d <==> id in d') && (id in d ==> d[id] == d'[id]) {
      CollectAgreesAt(qs, qs', id);
    }
  }

  lemma CollectAgreesAt(qs: seq<QuestionInput>, qs': seq<QuestionInput>, id: QuestionId)
    requires SameWinner(qs, qs', id)
    ensures id in CollectAnswers(qs) <==> id in CollectAnswers(qs')
    ensures id in CollectAnswers(qs) ==> CollectAnswers(qs)[id] == CollectAnswers(qs')[id]
  {
  }

  /** The observations written depend only on the winning entry of each id. */
  lemma ResetDependsOnWinners(questions: map<QuestionId, Question>, qs: seq<QuestionInput>, qs': seq<QuestionInput>)
    requires SameWinningEntries(qs, qs')
    ensures ResetObservations(questions, qs) == ResetObservations(questions, qs')
  {
    var r := ResetObservations(questions, qs);
    var r' := ResetObservations(questions, qs');
    forall id | id in r ensures r[id] == r'[id] {
      assert SameWinner(qs, qs', id);
    }
  }

  /** An entry followed by a later entry for the same question changes neither the
      stored answer nor any question's observation. */
  lemma ShadowedEntryIsIrrelevant(qs: seq<QuestionInput>, i: nat, j: nat, questions: map<QuestionId, Question>)
    requires i < j < |qs| && qs[i].id == qs[j].id
    ensures CollectAnswers(qs[..i] + qs[i+1..]) == CollectAnswers(qs)
    ensures ResetObservations(questions, qs[..i] + qs[i+1..]) == ResetObservations(questions, qs)
  {
    var qs' := qs[..i] + qs[i+1..];
    forall id ensures SameWinner(qs, qs', id) {
      LastIndexAfterRemoval(qs, i, j, id);
      match LastIndexOf(qs, id)
      case None =>
      case Some(k) =>
        if k > i {
          assert qs'[k - 1] == qs[k];
        } else {
          assert qs'[k] == qs[k];
        }
    }
    CollectDependsOnWinners(qs, qs');
    ResetDependsOnWinners(questions, qs, qs');
  }

  /** Positions after a removed entry move down by one. */
  function ShiftIndex(o: Option<nat>, removed: nat): Option<nat>
  {
    match o
    case None => None
    case Some(k) => if k > removed then Some(k - 1) else Some(k)
  }

  /** Removing a shadowed entry moves the last entry of every id down by at most one
      place and never makes it the removed entry. */
  lemma LastIndexAfterRemoval(qs: seq<QuestionInput>, i: nat, j: nat, id: QuestionId)
    requires i < j < |qs| && qs[i].id == qs[j].id
    ensures LastIndexOf(qs, id) != Some(i)
    ensures LastIndexOf(qs[..i] + qs[i+1..], id) == ShiftIndex(LastIndexOf(qs, id), i)
  {
    var qs' := qs[..i] + qs[i+1..];
    RemovedAt(qs, i);
    match LastIndexOf(qs, id)
    case None =>
    case Some(k) =>
      var expected := if k > i then k - 1 else k;
      assert qs'[expected] == qs[k];
      LastIndexUnique(qs', id, expected);
  }

  /** Dropping entry `i` keeps the entries before it and moves the later ones down. */
  lemma RemovedAt(qs: seq<QuestionInput>, i: nat)
    requires i < |qs|
    ensures |qs[..i] + qs[i+1..]| == |qs| - 1
    ensures forall k :: 0 <= k < i ==> (qs[..i] + qs[i+1..])[k] == qs[k]
    ensures forall k :: i < k < |qs| ==> (qs[..i] + qs[i+1..])[k - 1] == qs[k]
  {
  }

  /** The last entry for `id` is the one with `id` that no later entry shares. */
  lemma LastIndexUnique(qs: seq<QuestionInput>, id: QuestionId, k: nat)
    requires k < |qs| && qs[k].id == id
    requires forall m :: k < m < |qs| ==> qs[m].id != id
    ensures LastIndexOf(qs, id) == Some(k)
  {
  }
}
