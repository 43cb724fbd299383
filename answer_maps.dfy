/**
 * The answer dictionary both form pages keep: an object whose property
 * keys are question ids turned into strings, changed one entry at a time,
 * and turned into the `{ questionId, value }` list the server takes.
 */
module AnswerMaps {
  import opened Wrappers
  import opened Js
  import opened Collections

  datatype OptionRow = OptionRow(id: int, value: string)

  /** A question as the pages read it: id, type and option rows. */
  datatype PageQuestion = PageQuestion(id: int, qtype: Option<string>, options: seq<OptionRow>)

  type AnswerMap = map<string, JsValue>

  /** The property key a numeric question id becomes. */
  function Key(questionId: int): string {
    NumToString(questionId)
  }

  lemma KeyInjective(a: int, b: int)
    ensures Key(a) == Key(b) <==> a == b
  {
    ParseIntNumToString(a);
    ParseIntNumToString(b);
  }

  /** Every key is the key of a question id, and `parseInt` gives that id back. */
  predicate IdKeyed(m: AnswerMap) {
    forall k | k in m :: ParseInt(k).Some? && Key(ParseInt(k).value) == k
  }

  /** handleAnswerChange: `{ ...prev, [questionId]: value }`. */
  function ChangeAnswer(m: AnswerMap, questionId: int, value: JsValue): (r: AnswerMap)
    ensures r.Keys == m.Keys + {Key(questionId)}
    ensures r[Key(questionId)] == value
    ensures forall q | Key(q) in m && q != questionId :: r[Key(q)] == m[Key(q)]
    ensures IdKeyed(m) ==> IdKeyed(r)
  {
    ParseIntNumToString(questionId);
    forall q | q != questionId ensures Key(q) != Key(questionId) {
      KeyInjective(q, questionId);
    }
    m[Key(questionId) := value]
  }

  /** One element of the answers array; `parseInt` may give NaN, here `None`. */
  datatype SentAnswer = SentAnswer(questionId: Option<int>, value: JsValue)

  /** `order` lists every key of the dictionary once, in the order `Object.entries` yields them. */
  predicate ListsKeys(order: seq<string>, m: AnswerMap) {
    && (forall i, j | 0 <= i < j < |order| :: order[i] != order[j])
    && (forall k | k in order :: k in m)
    && (forall k | k in m :: k in order)
  }

  /** `Object.entries(answers).map(([questionId, value]) => ({ questionId: parseInt(questionId), value }))` */
  function AnswersArray(m: AnswerMap, order: seq<string>): (r: seq<SentAnswer>)
    requires ListsKeys(order, m)
    ensures |r| == |order| == |m|
    ensures forall i | 0 <= i < |r| :: r[i] == SentAnswer(ParseInt(order[i]), m[order[i]])
  {
    DistinctCard(order);
    assert (set x | x in order) == m.Keys;
    seq(|order|, i requires 0 <= i < |order| => SentAnswer(ParseInt(order[i]), m[order[i]]))
  }

  /** From a dictionary keyed by question ids, every entry has an integer id carrying the dictionary's value for it. */
  lemma AnswersArrayIds(m: AnswerMap, order: seq<string>)
    requires ListsKeys(order, m) && IdKeyed(m)
    ensures var r := AnswersArray(m, order);
      forall i | 0 <= i < |r| :: r[i].questionId.Some? && Key(r[i].questionId.value) == order[i] && r[i].value == m[order[i]]
  {
    var r := AnswersArray(m, order);
    forall i | 0 <= i < |r| ensures r[i].questionId.Some? && Key(r[i].questionId.value) == order[i] {
      assert order[i] in m;
    }
  }

  /** No question id is sent twice. */
  lemma AnswersArrayDistinct(m: AnswerMap, order: seq<string>)
    requires ListsKeys(order, m) && IdKeyed(m)
    ensures var r := AnswersArray(m, order);
      forall i, j | 0 <= i < j < |r| :: r[i].questionId != r[j].questionId
  {
    AnswersArrayIds(m, order);
  }

  /** Every entry of the dictionary is sent, under its own id. */
  lemma AnswersArrayComplete(m: AnswerMap, order: seq<string>, q: int)
    requires ListsKeys(order, m) && Key(q) in m
    ensures SentAnswer(Some(q), m[Key(q)]) in AnswersArray(m, order)
  {
    var r := AnswersArray(m, order);
    var i :| 0 <= i < |order| && order[i] == Key(q);
    ParseIntNumToString(q);
    assert r[i] == SentAnswer(Some(q), m[Key(q)]);
  }
}
