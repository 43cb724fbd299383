/**
 * The tag routes: the autocomplete listing (filter, order by count, limit)
 * and the counter upsert under a normalised name.
 */
module TagRoutes {
  import opened Wrappers
  import opened Text
  import opened Js
  import opened Store

  // ---------------------------------------------------------------- listing

  /** `parseInt(limit)` with `limit = 10` when the query leaves it out; `None` is NaN. */
  function LimitParam(limit: Option<string>): Option<int> {
    if limit.None? then Some(10) else ParseInt(limit.value)
  }

  /** `take: n`: the first `n` rows, or for a negative `n` the last `-n` rows. */
  function Take(s: seq<int>, n: int): (r: seq<int>)
    ensures n >= 0 ==> |r| == if n < |s| then n else |s|
    ensures n < 0 ==> |r| == if -n < |s| then -n else |s|
    ensures n >= 0 ==> r == s[..|r|]
    ensures n < 0 ==> r == s[|s| - |r|..]
  {
    if n >= 0 then (if n < |s| then s[..n] else s)
    else (if -n < |s| then s[|s| + n..] else s)
  }

  /** The tags whose name contains `search` case-insensitively. */
  predicate Matches(t: Tag, search: string) {
    ContainsIgnoringCase(t.name, search)
  }

  /**
   * GET /: the tags matching `search` (default ''), by count descending,
   * at most `limit` of them (default 10); a limit that is NaN fails the query.
   */
  function ListTags(tags: map<int, Tag>, search: Option<string>, limit: Option<string>): (r: (int, seq<int>))
    ensures r.0 == Ok <==> LimitParam(limit).Some?
    ensures r.0 != Ok ==> r.0 == ServerError && r.1 == []
    ensures forall k | k in r.1 :: k in tags && Matches(tags[k], search.GetOr(""))
    ensures forall i, j | 0 <= i < j < |r.1| :: r.1[i] != r.1[j]
    ensures forall i | 0 <= i < |r.1| :: r.1[i] in tags
    ensures forall i, j | 0 <= i < j < |r.1| :: tags[r.1[i]].count >= tags[r.1[j]].count
    ensures r.0 == Ok ==> |r.1| <= if LimitParam(limit).value >= 0 then LimitParam(limit).value else -LimitParam(limit).value
    ensures r.0 == Ok ==> forall k | k in tags && Matches(tags[k], search.GetOr("")) && k !in r.1 ::
      |r.1| == if LimitParam(limit).value >= 0 then LimitParam(limit).value else -LimitParam(limit).value
    ensures r.0 == Ok ==> forall k, i | k in tags && Matches(tags[k], search.GetOr("")) && k !in r.1 && 0 <= i < |r.1| ::
      if LimitParam(limit).value >= 0 then tags[k].count <= tags[r.1[i]].count else tags[k].count >= tags[r.1[i]].count
  {
    match LimitParam(limit)
    case None => (ServerError, [])
    case Some(n) =>
      var all := FindManyOrderedDesc(tags, (t: Tag) => Matches(t, search.GetOr("")), (t: Tag) => t.count);
      var r := Take(all, n);
      TakeKeeps(all, n, tags, search.GetOr(""));
      TakeTop(all, n, tags);
      (Ok, r)
  }

  /** A `take` of the ordered matches keeps them matching, distinct and ordered, and drops some only when full. */
  lemma TakeKeeps(all: seq<int>, n: int, tags: map<int, Tag>, search: string)
    requires forall k | k in all :: k in tags && Matches(tags[k], search)
    requires forall k | k in tags && Matches(tags[k], search) :: k in all
    requires forall i, j | 0 <= i < j < |all| :: all[i] != all[j]
    requires forall i | 0 <= i < |all| :: all[i] in tags
    requires forall i, j | 0 <= i < j < |all| :: tags[all[i]].count >= tags[all[j]].count
    ensures var r := Take(all, n);
      && (forall k | k in r :: k in tags && Matches(tags[k], search))
      && (forall i, j | 0 <= i < j < |r| :: r[i] != r[j])
      && (forall i | 0 <= i < |r| :: r[i] in tags)
      && (forall i, j | 0 <= i < j < |r| :: tags[r[i]].count >= tags[r[j]].count)
      && (forall k | k in tags && Matches(tags[k], search) && k !in r :: |r| == if n >= 0 then n else -n)
  {
    var off := TakeOffset(all, n);
    TakeMembers(all, n, off, tags, search);
    TakeOrdered(all, n, off, tags);
    TakeFull(all, n, off);
  }

  /**
   * A row left out of a non-negative take counts no more than any kept row,
   * and one left out of a negative take (the tail) no less.
   */
  lemma TakeTop(all: seq<int>, n: int, tags: map<int, Tag>)
    requires forall i | 0 <= i < |all| :: all[i] in tags
    requires forall i, j | 0 <= i < j < |all| :: tags[all[i]].count >= tags[all[j]].count
    ensures var r := Take(all, n);
      forall k, i | k in all && k !in r && 0 <= i < |r| ::
        if n >= 0 then tags[k].count <= tags[r[i]].count else tags[k].count >= tags[r[i]].count
  {
    var r := Take(all, n);
    var off := TakeOffset(all, n);
    forall k, i | k in all && k !in r && 0 <= i < |r|
      ensures if n >= 0 then tags[k].count <= tags[r[i]].count else tags[k].count >= tags[r[i]].count
    {
      var p :| 0 <= p < |all| && all[p] == k;
      assert r[i] == all[off + i];
      assert forall j | 0 <= j < |r| :: r[j] in r;
      if n >= 0 {
        assert i < p;
      } else {
        assert off + |r| == |all|;
        assert p < off + i;
      }
    }
  }

  /** A take is the slice of `all` from `off`. */
  lemma TakeOffset(all: seq<int>, n: int) returns (off: int)
    ensures 0 <= off <= off + |Take(all, n)| <= |all|
    ensures forall i | 0 <= i < |Take(all, n)| :: Take(all, n)[i] == all[off + i]
    ensures off == 0 || |Take(all, n)| < |all|
    ensures if n >= 0 then off == 0 else off + |Take(all, n)| == |all|
  {
    off := if n >= 0 then 0 else |all| - |Take(all, n)|;
  }

  lemma TakeMembers(all: seq<int>, n: int, off: int, tags: map<int, Tag>, search: string)
    requires 0 <= off <= off + |Take(all, n)| <= |all|
    requires forall i | 0 <= i < |Take(all, n)| :: Take(all, n)[i] == all[off + i]
    requires forall k | k in all :: k in tags && Matches(tags[k], search)
    ensures forall k | k in Take(all, n) :: k in tags && Matches(tags[k], search)
    ensures forall i | 0 <= i < |Take(all, n)| :: Take(all, n)[i] in tags
  {
    var r := Take(all, n);
    forall i | 0 <= i < |r| ensures r[i] in tags && Matches(tags[r[i]], search) {
      assert all[off + i] in all;
    }
  }

  lemma TakeOrdered(all: seq<int>, n: int, off: int, tags: map<int, Tag>)
    requires 0 <= off <= off + |Take(all, n)| <= |all|
    requires forall i | 0 <= i < |Take(all, n)| :: Take(all, n)[i] == all[off + i]
    requires forall i, j | 0 <= i < j < |all| :: all[i] != all[j]
    requires forall i | 0 <= i < |all| :: all[i] in tags
    requires forall i, j | 0 <= i < j < |all| :: tags[all[i]].count >= tags[all[j]].count
    ensures forall i, j | 0 <= i < j < |Take(all, n)| :: Take(all, n)[i] != Take(all, n)[j]
    ensures forall i, j | 0 <= i < j < |Take(all, n)| :: tags[Take(all, n)[i]].count >= tags[Take(all, n)[j]].count
  {
    var r := Take(all, n);
    forall i, j | 0 <= i < j < |r| ensures r[i] != r[j] && tags[r[i]].count >= tags[r[j]].count {
      assert r[i] == all[off + i] && r[j] == all[off + j];
    }
  }

  lemma TakeFull(all: seq<int>, n: int, off: int)
    requires 0 <= off <= off + |Take(all, n)| <= |all|
    requires forall i | 0 <= i < |Take(all, n)| :: Take(all, n)[i] == all[off + i]
    requires off == 0 || |Take(all, n)| < |all|
    ensures forall k | k in all && k !in Take(all, n) :: |Take(all, n)| == if n >= 0 then n else -n
  {
    var r := Take(all, n);
    if |r| == |all| {
      forall k | k in all ensures k in r {
        var i :| 0 <= i < |all| && all[i] == k;
        assert r[i] == k;
      }
    }
  }

  /** An empty search (or none) matches every tag. */
  lemma EmptySearchMatchesAll(t: Tag)
    ensures Matches(t, "")
  {
    ContainsEmpty(ToLower(t.name));
  }

  // ---------------------------------------------------------------- upsert

  /**
   * A name passes `!name || name.trim().length < 2` when it is present and
   * non-empty and its trimmed form is at least two UTF-16 units long; the
   * non-empty test is then implied.
   */
  predicate ValidTagName(name: Option<string>)
    ensures ValidTagName(name) <==> name.Some? && Utf16Length(Trim(name.value)) >= 2
  {
    name.Some? && name.value != "" && Utf16Length(Trim(name.value)) >= 2
  }

  /** One character beyond U+FFFF is two UTF-16 units, so it is a long enough tag name. */
  lemma {:induction false} AstralTagNameValid()
    ensures ValidTagName(Some("\U{1F600}"))
  {
    var s := "\U{1F600}";
    assert s[0] == '\U{1F600}' && |s| == 1;
    assert !IsSpace(s[0]);
    assert TrimStart(s) == s;
    assert TrimEnd(s) == s;
    assert s[1..] == [];
    assert Utf16Length(s) == 2;
  }

  /** `name.trim().toLowerCase()`: a lower-case name. */
  function TagName(s: string): (r: string)
    ensures ToLower(r) == r
  {
    ToLowerIdempotent(Trim(s));
    ToLower(Trim(s))
  }

  /** A stored name is as long as the trimmed input, lower case, and trimmed. */
  lemma TagNameNormal(s: string)
    ensures |TagName(s)| == |Trim(s)|
    ensures ToLower(TagName(s)) == TagName(s)
    ensures Trim(TagName(s)) == TagName(s)
  {
    ToLowerIdempotent(Trim(s));
    TrimIdempotent(s);
    TrimToLower(Trim(s));
  }

  /** Inputs that differ only in case or in surrounding white space name the same tag. */
  lemma NameVariants(a: string, b: string, pre: string, post: string)
    requires AllSpace(pre) && AllSpace(post)
    requires ToLower(a) == ToLower(b)
    ensures TagName(pre + a + post) == TagName(b)
  {
    TrimPadded(pre, a, post);
    TrimToLower(a);
    TrimToLower(b);
  }

  /** `tag.findUnique({ where: { name } })`. */
  function FindTag(tags: map<int, Tag>, name: string): (r: Option<int>)
    ensures r.Some? ==> r.value in tags && tags[r.value].name == name
    ensures r.None? <==> forall k | k in tags :: tags[k].name != name
  {
    FindFirst(tags, (t: Tag) => t.name == name)
  }

  /** The count stored under `name`, 0 when there is no such tag. */
  function TagCount(tags: map<int, Tag>, name: string): int {
    match FindTag(tags, name)
    case Some(k) => tags[k].count
    case None => 0
  }

  /** The tag table after the upsert: the existing tag's count plus one, or a new tag under `tagId` with count 1. */
  function Upserted(tags: map<int, Tag>, name: string, tagId: int): map<int, Tag> {
    match FindTag(tags, name)
    case Some(k) => tags[k := Tag(name, tags[k].count + 1)]
    case None => tags[tagId := Tag(name, 1)]
  }

  /** The upsert keeps names unique, adds one to the named count, and leaves every other tag as it was. */
  lemma UpsertSpec(tags: map<int, Tag>, name: string, tagId: int)
    requires TagNamesUnique(tags) && tagId !in tags
    ensures var r := Upserted(tags, name, tagId);
      && TagNamesUnique(r)
      && TagCount(r, name) == TagCount(tags, name) + 1
      && (forall k | k in tags && tags[k].name != name :: k in r && r[k] == tags[k])
      && (forall k | k in r && r[k].name != name :: k in tags)
  {
    UpsertUnique(tags, name, tagId);
    UpsertCount(tags, name, tagId);
  }

  lemma UpsertUnique(tags: map<int, Tag>, name: string, tagId: int)
    requires TagNamesUnique(tags) && tagId !in tags
    ensures TagNamesUnique(Upserted(tags, name, tagId))
  {
  }

  lemma UpsertCount(tags: map<int, Tag>, name: string, tagId: int)
    requires TagNamesUnique(tags) && tagId !in tags
    ensures TagCount(Upserted(tags, name, tagId), name) == TagCount(tags, name) + 1
  {
    var r := Upserted(tags, name, tagId);
    UpsertUnique(tags, name, tagId);
    match FindTag(tags, name)
    case Some(k) =>
      assert r[k].name == name;
      assert FindTag(r, name) == Some(k);
    case None =>
      assert r[tagId].name == name;
      assert FindTag(r, name) == Some(tagId);
  }

  /** The upsert changes no other name's count. */
  lemma UpsertOtherCount(tags: map<int, Tag>, name: string, tagId: int, other: string)
    requires TagNamesUnique(tags) && tagId !in tags && other != name
    ensures TagCount(Upserted(tags, name, tagId), other) == TagCount(tags, other)
  {
    var r := Upserted(tags, name, tagId);
    UpsertSpec(tags, name, tagId);
    match FindTag(tags, other)
    case Some(k) =>
      assert r[k].name == other;
    case None =>
  }

  /**
   * POST /update: 400 for a missing or too short name, else add one to the
   * count of the tag with the normalised name, creating it with count 1.
   */
  method UpdateTag(db: Db, name: Option<string>, tagId: int) returns (status: int, tag: Option<Tag>)
    requires db.Valid() && tagId !in db.tags
    modifies db
    ensures db.Valid()
    ensures !ValidTagName(name) ==> status == BadRequest && tag == None && unchanged(db)
    ensures ValidTagName(name) ==>
      && status == Ok
      && db.State() == old(db.State()).(tags := Upserted(old(db.tags), TagName(name.value), tagId))
      && tag == Some(Tag(TagName(name.value), TagCount(old(db.tags), TagName(name.value)) + 1))
  {
    if !ValidTagName(name) {
      return BadRequest, None;
    }
    ghost var before := db.tags;
    assert before == old(db.tags);
    var tagName := TagName(name.value);
    var row := UpsertTag(db, tagName, tagId);
    assert row == Tag(TagName(name.value), TagCount(old(db.tags), TagName(name.value)) + 1);
    return Ok, Some(row);
  }

  /** The find-then-update-or-create step of POST /update, for an already normalised name. */
  method UpsertTag(db: Db, tagName: string, tagId: int) returns (row: Tag)
    requires db.Valid() && tagId !in db.tags
    modifies db
    ensures db.Valid()
    ensures db.State() == old(db.State()).(tags := Upserted(old(db.tags), tagName, tagId))
    ensures row == Tag(tagName, TagCount(old(db.tags), tagName) + 1)
  {
    UpsertUnique(db.tags, tagName, tagId);
    match FindTag(db.tags, tagName) {
      case Some(k) =>
        row := Tag(tagName, db.tags[k].count + 1);
        db.tags := db.tags[k := row];
      case None =>
        row := Tag(tagName, 1);
        db.tags := db.tags[tagId := row];
    }
  }
}
