/**
 * The results table of a template's forms: per-question text filters
 * applied to the full form list, and the text shown in a question's cell.
 */
module ResultsTable {
  import opened Wrappers
  import opened Text
  import opened Js
  import opened Collections

  datatype ResultAnswer = ResultAnswer(questionId: int, value: JsValue)

  /** A form as listed: its id and its answers. */
  datatype ResultForm = ResultForm(id: int, answers: seq<ResultAnswer>)

  /** `answers.find(a => a.questionId === questionId)` */
  function FindAnswer(answers: seq<ResultAnswer>, questionId: int): (r: Option<ResultAnswer>)
    ensures r.Some? ==> r.value in answers && r.value.questionId == questionId
    ensures r.None? <==> forall a | a in answers :: a.questionId != questionId
  {
    if answers == [] then None
    else if answers[0].questionId == questionId then Some(answers[0])
    else FindAnswer(answers[1..], questionId)
  }

  /** A filter value takes part only when truthy. */
  predicate Active(value: Option<string>) {
    TruthyString(value)
  }

  /**
   * The form has an answer to the question whose text contains `text`,
   * ignoring case: a form without an answer never passes, and the empty
   * text passes every answered form.
   */
  predicate Passes(form: ResultForm, questionId: int, text: string)
    ensures Passes(form, questionId, text) ==> FindAnswer(form.answers, questionId).Some?
    ensures text == "" && FindAnswer(form.answers, questionId).Some? ==> Passes(form, questionId, text)
  {
    var a := FindAnswer(form.answers, questionId);
    assert a.Some? ==> ContainsIgnoringCase(ToString(a.value.value), "") by {
      if a.Some? {
        ContainsEmpty(ToLower(ToString(a.value.value)));
        assert ToLower("") == "";
      }
    }
    a.Some? && ContainsIgnoringCase(ToString(a.value.value), text)
  }

  /** The filter stored under `k` lets the form through. */
  predicate PassesOne(form: ResultForm, filters: map<int, Option<string>>, k: int)
    requires k in filters
  {
    Active(filters[k]) ==> Passes(form, k, filters[k].value)
  }

  /** Every active filter lets the form through: the filters combine by AND. */
  predicate PassesAll(form: ResultForm, filters: map<int, Option<string>>) {
    forall k | k in filters :: PassesOne(form, filters, k)
  }

  /** The filters whose keys are `ks`, applied one after the other. */
  predicate PassesKeys(form: ResultForm, filters: map<int, Option<string>>, ks: seq<int>)
    requires forall k | k in ks :: k in filters
    decreases |ks|
  {
    ks == [] || (PassesKeys(form, filters, ks[..|ks| - 1]) && PassesOne(form, filters, ks[|ks| - 1]))
  }

  function KeysFilter(filters: map<int, Option<string>>, ks: seq<int>): ResultForm -> bool
    requires forall k | k in ks :: k in filters
  {
    f => PassesKeys(f, filters, ks)
  }

  function AllFilter(filters: map<int, Option<string>>): ResultForm -> bool {
    f => PassesAll(f, filters)
  }

  /** The forms the table shows for the given filters. */
  function Filtered(forms: seq<ResultForm>, filters: map<int, Option<string>>): seq<ResultForm> {
    Filter(forms, AllFilter(filters))
  }

  lemma {:induction false} PassesKeysEach(form: ResultForm, filters: map<int, Option<string>>, ks: seq<int>)
    requires forall k | k in ks :: k in filters
    ensures PassesKeys(form, filters, ks) <==> forall j | 0 <= j < |ks| :: PassesOne(form, filters, ks[j])
    decreases |ks|
  {
    if ks != [] {
      var init := ks[..|ks| - 1];
      PassesKeysEach(form, filters, init);
      assert forall j | 0 <= j < |init| :: init[j] == ks[j];
    }
  }

  /** Applying the filters of every key, in any order, is applying them all. */
  lemma PassesKeysAll(form: ResultForm, filters: map<int, Option<string>>, ks: seq<int>)
    requires forall k | k in ks :: k in filters
    requires forall k | k in filters :: k in ks
    ensures PassesKeys(form, filters, ks) <==> PassesAll(form, filters)
  {
    PassesKeysEach(form, filters, ks);
  }

  /** The filters of the first `i + 1` keys are those of the first `i` and the filter of key `i`. */
  lemma PassesKeysStep(form: ResultForm, filters: map<int, Option<string>>, ks: seq<int>, i: nat)
    requires i < |ks| && forall k | k in ks :: k in filters
    ensures PassesKeys(form, filters, ks[..i + 1]) <==> PassesKeys(form, filters, ks[..i]) && PassesOne(form, filters, ks[i])
  {
    assert ks[..i + 1][..i] == ks[..i];
  }

  /** One step of the loop with an active filter: filtering the kept forms by key `i`. */
  lemma FilterStepActive(forms: seq<ResultForm>, filters: map<int, Option<string>>, ks: seq<int>, i: nat)
    requires i < |ks| && forall k | k in ks :: k in filters
    requires ks[i] in filters && Active(filters[ks[i]])
    ensures Filter(Filter(forms, KeysFilter(filters, ks[..i])), (f: ResultForm) => Passes(f, ks[i], filters[ks[i]].value))
      == Filter(forms, KeysFilter(filters, ks[..i + 1]))
  {
    var p := KeysFilter(filters, ks[..i]);
    var q := (f: ResultForm) => Passes(f, ks[i], filters[ks[i]].value);
    FilterFilter(forms, p, q);
    forall f | f in forms ensures (p(f) && q(f)) == KeysFilter(filters, ks[..i + 1])(f) {
      PassesKeysStep(f, filters, ks, i);
    }
    FilterCongruent(forms, x => p(x) && q(x), KeysFilter(filters, ks[..i + 1]));
  }

  /** One step of the loop with an inactive filter: the kept forms stay. */
  lemma FilterStepInactive(forms: seq<ResultForm>, filters: map<int, Option<string>>, ks: seq<int>, i: nat)
    requires i < |ks| && forall k | k in ks :: k in filters
    requires ks[i] in filters && !Active(filters[ks[i]])
    ensures Filter(forms, KeysFilter(filters, ks[..i])) == Filter(forms, KeysFilter(filters, ks[..i + 1]))
  {
    forall f | f in forms ensures KeysFilter(filters, ks[..i])(f) == KeysFilter(filters, ks[..i + 1])(f) {
      PassesKeysStep(f, filters, ks, i);
    }
    FilterCongruent(forms, KeysFilter(filters, ks[..i]), KeysFilter(filters, ks[..i + 1]));
  }

  /**
   * The filter loop of handleFilterChange: start from a copy of the full
   * list and, for each filter with a truthy value, keep the forms it lets
   * through.
   */
  method ApplyFilters(forms: seq<ResultForm>, filters: map<int, Option<string>>) returns (result: seq<ResultForm>)
    ensures result == Filtered(forms, filters)
  {
    var keys := SortedKeys(filters.Keys);
    result := forms;
    FilterAll(forms, KeysFilter(filters, keys[..0]));
    var i := 0;
    while i < |keys|
      invariant 0 <= i <= |keys|
      invariant result == Filter(forms, KeysFilter(filters, keys[..i]))
    {
      var k := keys[i];
      if TruthyString(filters[k]) {
        FilterStepActive(forms, filters, keys, i);
        result := Filter(result, (f: ResultForm) => Passes(f, k, filters[k].value));
      } else {
        FilterStepInactive(forms, filters, keys, i);
      }
      i := i + 1;
    }
    assert keys[..i] == keys;
    forall f | f in forms ensures KeysFilter(filters, keys)(f) == AllFilter(filters)(f) {
      PassesKeysAll(f, filters, keys);
    }
    FilterCongruent(forms, KeysFilter(filters, keys), AllFilter(filters));
  }

  /**
   * handleFilterChange: the question's filter set (or replaced), then all
   * filters applied to the full list of forms, not to the list on screen.
   */
  method FilterChange(forms: seq<ResultForm>, filters: map<int, Option<string>>, questionId: int, value: Option<string>)
    returns (newFilters: map<int, Option<string>>, shown: seq<ResultForm>)
    ensures newFilters == filters[questionId := value]
    ensures shown == Filtered(forms, newFilters)
  {
    newFilters := filters[questionId := value];
    shown := ApplyFilters(forms, newFilters);
  }

  /** The table only ever shows forms of the full list, in their order. */
  lemma FilteredIsSubsequence(forms: seq<ResultForm>, filters: map<int, Option<string>>)
    ensures IsSubsequence(Filtered(forms, filters), forms)
  {
    FilterIsSubsequence(forms, AllFilter(filters));
  }

  /** A form is shown exactly when it is in the list and passes every active filter. */
  lemma FilteredMembers(forms: seq<ResultForm>, filters: map<int, Option<string>>, f: ResultForm)
    ensures f in Filtered(forms, filters) <==> f in forms && forall k | k in filters && Active(filters[k]) :: Passes(f, k, filters[k].value)
  {
  }

  /** With no truthy filter value the full list is shown. */
  lemma NoActiveFilterShowsAll(forms: seq<ResultForm>, filters: map<int, Option<string>>)
    requires forall k | k in filters :: !Active(filters[k])
    ensures Filtered(forms, filters) == forms
  {
    FilterAll(forms, AllFilter(filters));
  }

  /** A new value for a question replaces its old filter: only the new value counts for that question. */
  lemma NewValueReplacesOld(form: ResultForm, filters: map<int, Option<string>>, questionId: int, value: Option<string>)
    ensures PassesAll(form, filters[questionId := value])
        <==> PassesAll(form, filters - {questionId}) && (Active(value) ==> Passes(form, questionId, value.value))
  {
    var m := filters[questionId := value];
    if PassesAll(form, m) {
      forall k | k in filters - {questionId} ensures PassesOne(form, filters - {questionId}, k) {
        assert PassesOne(form, m, k);
      }
      assert PassesOne(form, m, questionId);
    }
    if PassesAll(form, filters - {questionId}) && (Active(value) ==> Passes(form, questionId, value.value)) {
      forall k | k in m ensures PassesOne(form, m, k) {
        if k != questionId {
          assert PassesOne(form, filters - {questionId}, k);
        }
      }
    }
  }

  /** Clearing a question's filter shows what the other filters alone show, whatever was filtered before. */
  lemma ClearingAFilter(forms: seq<ResultForm>, filters: map<int, Option<string>>, questionId: int)
    ensures Filtered(forms, filters[questionId := Some("")]) == Filtered(forms, filters - {questionId})
  {
    forall f | f in forms ensures AllFilter(filters[questionId := Some("")])(f) == AllFilter(filters - {questionId})(f) {
      NewValueReplacesOld(f, filters, questionId, Some(""));
    }
    FilterCongruent(forms, AllFilter(filters[questionId := Some("")]), AllFilter(filters - {questionId}));
  }

  /** What a question's cell shows; `Throws` is `join` called on a value that is not an array. */
  datatype Cell = Dash | Joined(text: string) | Raw(value: JsValue) | Throws

  /** The cell of a question column: '-' without an answer, a CHECKBOX answer joined by ', ', else the raw value. */
  function CellOf(questionId: int, qtype: Option<string>, form: ResultForm): (r: Cell)
    ensures r == Dash <==> FindAnswer(form.answers, questionId).None?
    ensures r == Throws <==> qtype == Some("CHECKBOX") && FindAnswer(form.answers, questionId).Some? && !FindAnswer(form.answers, questionId).value.value.Arr?
    ensures r.Raw? <==> qtype != Some("CHECKBOX") && FindAnswer(form.answers, questionId).Some?
    ensures r.Raw? ==> r.value == FindAnswer(form.answers, questionId).value.value
  {
    match FindAnswer(form.answers, questionId)
    case None => Dash
    case Some(a) =>
      if qtype == Some("CHECKBOX") then
        if a.value.Arr? then Joined(JoinArray(a.value, ", ")) else Throws
      else Raw(a.value)
  }

  /** A CHECKBOX answer holding the strings `texts` shows them joined by ', '. */
  lemma CheckboxCellJoins(questionId: int, form: ResultForm, texts: seq<string>)
    requires FindAnswer(form.answers, questionId).Some?
    requires FindAnswer(form.answers, questionId).value.value == Arr(seq(|texts|, i requires 0 <= i < |texts| => Str(texts[i])))
    ensures CellOf(questionId, Some("CHECKBOX"), form) == Joined(Join(texts, ", "))
  {
    var v := FindAnswer(form.answers, questionId).value.value;
    JoinStrings(v, v.items, texts, ", ");
  }
}
