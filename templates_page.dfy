/**
 * The templates page's search box: the caller's templates and the public
 * templates, each filtered by a case-insensitive match on title or
 * description.
 */
module TemplatesPage {
  import opened Wrappers
  import opened Text
  import opened Collections
  import opened Store

  /**
   * The search predicate as written, on one template: `None` when it
   * throws, which `toLowerCase()` on a missing title does, and on a
   * missing description when the title does not match.
   */
  function MatchAsWritten(t: Template, search: string): (r: Option<bool>)
    ensures t.title.Some? && ContainsIgnoringCase(t.title.value, search) ==> r == Some(true)
    ensures r.None? <==> t.title.None? || (!ContainsIgnoringCase(t.title.value, search) && t.description.None?)
  {
    if t.title.None? then None
    else if ContainsIgnoringCase(t.title.value, search) then Some(true)
    else if t.description.None? then None
    else Some(ContainsIgnoringCase(t.description.value, search))
  }

  /** `templates.filter(...)` as written: `None` when some template makes the predicate throw. */
  function SearchAsWritten(ts: seq<Template>, search: string): (r: Option<seq<Template>>)
    ensures r.None? <==> exists i | 0 <= i < |ts| :: MatchAsWritten(ts[i], search).None?
  {
    if ts == [] then Some([])
    else
      var rest := SearchAsWritten(ts[1..], search);
      assert forall i | 1 <= i < |ts| :: ts[i] == ts[1..][i - 1];
      match MatchAsWritten(ts[0], search)
      case None => None
      case Some(keep) =>
        if rest.None? then None
        else if keep then Some([ts[0]] + rest.value) else rest
  }

  /** A template saved without a description makes any search that its title does not match throw, so the page fails to render. */
  lemma MissingDescriptionBreaksSearch(t: Template)
    requires t.title == Some("Survey") && t.description.None?
    ensures SearchAsWritten([t], "zzz").None?
  {
    assert !ContainsIgnoringCase("Survey", "zzz") by {
      assert ToLower("zzz")[0] == 'z';
      assert forall i | 0 <= i < |ToLower("Survey")| :: ToLower("Survey")[i] != 'z';
      MissingFirstChar(ToLower("Survey"), ToLower("zzz"));
    }
  }

  /** The intended match: the title or, when there is one, the description contains the search text, ignoring case. */
  predicate Matches(t: Template, search: string) {
    (t.title.Some? && ContainsIgnoringCase(t.title.value, search))
    || (t.description.Some? && ContainsIgnoringCase(t.description.value, search))
  }

  /** The search box's result: the templates that match, in list order. */
  function Search(ts: seq<Template>, search: string): (r: seq<Template>)
    ensures IsSubsequence(r, ts)
    ensures forall t | t in r :: Matches(t, search)
    ensures forall t | t in ts && Matches(t, search) :: t in r
  {
    FilterIsSubsequence(ts, t => Matches(t, search));
    Filter(ts, t => Matches(t, search))
  }

  /** Where the written predicate does not throw, it agrees with the intended one. */
  lemma SearchAgreesWhereDefined(ts: seq<Template>, search: string)
    requires SearchAsWritten(ts, search).Some?
    ensures SearchAsWritten(ts, search).value == Search(ts, search)
    decreases |ts|
  {
    if ts != [] {
      assert SearchAsWritten(ts[1..], search).Some?;
      SearchAgreesWhereDefined(ts[1..], search);
    }
  }

  /** An empty search shows every template that has a title. */
  lemma EmptySearchShowsAll(ts: seq<Template>)
    requires forall t | t in ts :: t.title.Some?
    ensures Search(ts, "") == ts
  {
    forall t | t in ts ensures Matches(t, "") {
      ContainsEmpty(ToLower(t.title.value));
    }
    FilterAll(ts, t => Matches(t, ""));
  }
}
