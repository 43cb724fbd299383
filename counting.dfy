/**
 * Count objects built by `reduce((acc, k) => { acc[k] = (acc[k] || 0) + 1; ... }, {})`,
 * their properties in the order `Object.entries` and `JSON.stringify` list
 * them (array-index keys first, ascending, then the other keys in the order
 * they were added), and the first entries after a sort by descending count.
 * The last section models the accumulator `{}` as written, which differs on
 * the names of `Object.prototype` members.
 */
module Counting {
  import opened Collections
  import opened Js
  import opened Wrappers

  /** One `[key, count]` pair of a count object. */
  datatype Entry = Entry(key: string, count: nat)

  /** How often `k` occurs in `keys`. */
  function Occurrences(keys: seq<string>, k: string): nat {
    multiset(keys)[k]
  }

  /** The counts of the entries, in order. */
  function Counts(t: seq<Entry>): (r: seq<int>)
    ensures |r| == |t| && forall i | 0 <= i < |t| :: r[i] == t[i].count
  {
    if t == [] then [] else [t[0].count] + Counts(t[1..])
  }

  /** The count recorded for `k`, added over the entries that carry it. */
  function CountOf(t: seq<Entry>, k: string): nat {
    if t == [] then 0 else (if t[0].key == k then t[0].count else 0) + CountOf(t[1..], k)
  }

  predicate DistinctKeys(t: seq<Entry>) {
    forall i, j | 0 <= i < j < |t| :: t[i].key != t[j].key
  }

  predicate Positive(t: seq<Entry>) {
    forall i | 0 <= i < |t| :: t[i].count >= 1
  }

  /** `acc[k] = (acc[k] || 0) + 1`: the entry for `k` counts one more, or a new entry with count 1 goes last. */
  function Bump(t: seq<Entry>, k: string): seq<Entry> {
    if t == [] then [Entry(k, 1)]
    else if t[0].key == k then [Entry(k, t[0].count + 1)] + t[1..]
    else [t[0]] + Bump(t[1..], k)
  }

  /** Bumping `k` adds one to the count of `k` and to no other key's. */
  lemma {:induction false} BumpCountOf(t: seq<Entry>, k: string, x: string)
    ensures CountOf(Bump(t, k), x) == CountOf(t, x) + (if x == k then 1 else 0)
  {
    if t != [] && t[0].key != k {
      BumpCountOf(t[1..], k, x);
      assert Bump(t, k)[1..] == Bump(t[1..], k);
    } else if t != [] {
      assert Bump(t, k)[1..] == t[1..];
    }
  }

  /** Bumping adds one to the total. */
  lemma {:induction false} BumpSum(t: seq<Entry>, k: string)
    ensures Sum(Counts(Bump(t, k))) == Sum(Counts(t)) + 1
  {
    if t != [] && t[0].key != k {
      BumpSum(t[1..], k);
      assert Bump(t, k)[1..] == Bump(t[1..], k);
    } else if t != [] {
      assert Bump(t, k)[1..] == t[1..];
    }
  }

  /** An entry's count is part of the count recorded for its key. */
  lemma {:induction false} CountAtLeast(t: seq<Entry>, i: int)
    requires 0 <= i < |t|
    ensures CountOf(t, t[i].key) >= t[i].count
  {
    if i > 0 {
      CountAtLeast(t[1..], i - 1);
      assert t[1..][i - 1] == t[i];
    }
  }

  /** Bumping keeps the keys distinct and the counts positive. */
  lemma {:induction false} BumpDistinct(t: seq<Entry>, k: string)
    requires DistinctKeys(t) && Positive(t)
    ensures DistinctKeys(Bump(t, k)) && Positive(Bump(t, k))
  {
    var r := Bump(t, k);
    if t != [] && t[0].key != k {
      var rest := Bump(t[1..], k);
      BumpDistinct(t[1..], k);
      assert r == [t[0]] + rest;
      ZeroElsewhere(t[1..], t[0].key);
      BumpCountOf(t[1..], k, t[0].key);
      forall j | 0 <= j < |rest| ensures rest[j].key != t[0].key {
        CountAtLeast(rest, j);
      }
    } else if t != [] {
      assert forall i | 0 < i < |r| :: r[i] == t[i];
    }
  }

  /**
   * The count object built from `keys` by `reduce`: one entry per distinct
   * key, with a positive count, in the order the keys were first added.
   */
  function Tally(keys: seq<string>): (r: seq<Entry>)
    ensures DistinctKeys(r) && Positive(r)
    decreases |keys|
  {
    if keys == [] then []
    else
      var init := Tally(keys[..|keys| - 1]);
      BumpDistinct(init, keys[|keys| - 1]);
      Bump(init, keys[|keys| - 1])
  }

  /** Each key's count is its number of occurrences; keys are distinct; the counts add up to the number of keys. */
  lemma {:induction false} TallySpec(keys: seq<string>)
    ensures DistinctKeys(Tally(keys)) && Positive(Tally(keys))
    ensures forall x :: CountOf(Tally(keys), x) == Occurrences(keys, x)
    ensures Sum(Counts(Tally(keys))) == |keys|
  {
    if keys != [] {
      var init, last := keys[..|keys| - 1], keys[|keys| - 1];
      TallySpec(init);
      assert keys == init + [last];
      BumpDistinct(Tally(init), last);
      BumpSum(Tally(init), last);
      forall x ensures CountOf(Tally(keys), x) == Occurrences(keys, x) {
        BumpCountOf(Tally(init), last, x);
      }
    }
  }

  /** With distinct keys, an entry's count is the count recorded for its key. */
  lemma {:induction false} EntryCount(t: seq<Entry>, i: int)
    requires DistinctKeys(t) && 0 <= i < |t|
    ensures t[i].count == CountOf(t, t[i].key)
  {
    if i > 0 {
      EntryCount(t[1..], i - 1);
      assert t[1..][i - 1] == t[i];
    } else {
      ZeroElsewhere(t[1..], t[0].key);
    }
  }

  /** A key no entry carries has count 0. */
  lemma {:induction false} ZeroElsewhere(t: seq<Entry>, k: string)
    requires forall i | 0 <= i < |t| :: t[i].key != k
    ensures CountOf(t, k) == 0
  {
    if t != [] {
      ZeroElsewhere(t[1..], k);
    }
  }

  /** A key with a positive count has an entry. */
  lemma {:induction false} KeyIndex(t: seq<Entry>, k: string) returns (i: nat)
    requires CountOf(t, k) > 0
    ensures i < |t| && t[i].key == k
  {
    if t[0].key == k {
      i := 0;
    } else {
      var j := KeyIndex(t[1..], k);
      i := j + 1;
    }
  }

  /** Every entry of a count object counts the occurrences of its key, and every key seen has one entry. */
  lemma TallyEntries(keys: seq<string>)
    ensures forall i | 0 <= i < |Tally(keys)| :: Tally(keys)[i].count == Occurrences(keys, Tally(keys)[i].key) >= 1
    ensures forall k | k in keys :: exists i | 0 <= i < |Tally(keys)| :: Tally(keys)[i].key == k
  {
    var t := Tally(keys);
    TallySpec(keys);
    forall i | 0 <= i < |t| ensures t[i].count == Occurrences(keys, t[i].key) {
      EntryCount(t, i);
    }
    forall k | k in keys ensures exists i | 0 <= i < |t| :: t[i].key == k {
      assert Occurrences(keys, k) > 0;
      var i := KeyIndex(t, k);
    }
  }

  /** With distinct keys, every entry occurs once. */
  lemma {:induction false} DistinctOnce(t: seq<Entry>, e: Entry)
    requires DistinctKeys(t)
    ensures multiset(t)[e] <= 1
  {
    if t != [] {
      assert t == [t[0]] + t[1..];
      DistinctOnce(t[1..], e);
      if e == t[0] {
        assert forall j | 0 <= j < |t[1..]| :: t[1..][j].key != e.key;
        assert e !in t[1..];
      }
    }
  }

  /** A reordering of entries with distinct keys has distinct keys. */
  lemma DistinctReordered(t: seq<Entry>, r: seq<Entry>)
    requires DistinctKeys(t) && multiset(r) == multiset(t)
    ensures DistinctKeys(r)
  {
    forall i, j | 0 <= i < j < |r| ensures r[i].key != r[j].key {
      if r[i].key == r[j].key {
        assert r[i] in multiset(t) && r[j] in multiset(t);
        var p :| 0 <= p < |t| && t[p] == r[i];
        var q :| 0 <= q < |t| && t[q] == r[j];
        assert p == q;
        assert r == r[..j] + [r[j]] + r[j + 1..];
        assert r[i] in r[..j];
        assert multiset(r)[r[i]] >= 2;
        DistinctOnce(t, r[i]);
        assert false;
      }
    }
  }

  // ---------------------------------------------------------------- property order

  /** An array index: the canonical decimal spelling of an integer below 2^32 - 1. */
  predicate IsIndexKey(k: string) {
    k != [] && AllDigits(k) && (k[0] != '0' || |k| == 1) && DigitsValue(k) < 0xFFFF_FFFF
  }

  predicate IsIndexEntry(e: Entry) {
    IsIndexKey(e.key)
  }

  predicate IsNamedEntry(e: Entry) {
    !IsIndexKey(e.key)
  }

  /** The number an index key spells, 0 for any other key. */
  function IndexValue(e: Entry): nat {
    if IsIndexKey(e.key) then DigitsValue(e.key) else 0
  }

  /** Ascending index order, as a key for the descending sort. */
  function IndexRank(e: Entry): int {
    var v: int := IndexValue(e);
    -v
  }

  /** `Object.entries(acc)` of a count object whose keys were added in the order of `t`: the same entries. */
  function ObjectEntries(t: seq<Entry>): (r: seq<Entry>)
    ensures multiset(r) == multiset(t)
  {
    FilterSplit(t, IsIndexEntry, IsNamedEntry);
    SortDesc(Filter(t, IsIndexEntry), IndexRank) + Filter(t, IsNamedEntry)
  }

  /**
   * The order of `Object.entries`: every index key comes before every other
   * key and after only smaller index keys, and the other keys keep the order
   * in which they were added.
   */
  lemma ObjectEntriesOrder(t: seq<Entry>)
    ensures var r := ObjectEntries(t);
      forall i, j | 0 <= i < j < |r| && IsIndexEntry(r[j]) :: IsIndexEntry(r[i]) && IndexValue(r[i]) <= IndexValue(r[j])
    ensures var named := Filter(t, IsNamedEntry); var r := ObjectEntries(t);
      |named| <= |r| && r[|r| - |named|..] == named
  {
    var indexed := SortDesc(Filter(t, IsIndexEntry), IndexRank);
    var named := Filter(t, IsNamedEntry);
    SortedIndexEntries(t, indexed);
    assert forall e | e in named :: IsNamedEntry(e);
    IndexedFirst(indexed, named);
    assert (indexed + named)[|indexed|..] == named;
  }

  /** The sorted index part holds only index entries. */
  lemma SortedIndexEntries(t: seq<Entry>, a: seq<Entry>)
    requires a == SortDesc(Filter(t, IsIndexEntry), IndexRank)
    ensures forall i | 0 <= i < |a| :: IsIndexEntry(a[i])
  {
    forall i | 0 <= i < |a| ensures IsIndexEntry(a[i]) {
      assert a[i] in multiset(Filter(t, IsIndexEntry));
    }
  }

  /** Sorted index entries followed by named entries put every index key after the smaller ones only. */
  lemma IndexedFirst(indexed: seq<Entry>, named: seq<Entry>)
    requires SortedDesc(indexed, IndexRank)
    requires forall i | 0 <= i < |indexed| :: IsIndexEntry(indexed[i])
    requires forall e | e in named :: IsNamedEntry(e)
    ensures var r := indexed + named;
      forall i, j | 0 <= i < j < |r| && IsIndexEntry(r[j]) :: IsIndexEntry(r[i]) && IndexValue(r[i]) <= IndexValue(r[j])
  {
    var r := indexed + named;
    forall j | |indexed| <= j < |r| ensures !IsIndexEntry(r[j]) {
      assert r[j] == named[j - |indexed|];
      assert r[j] in named;
    }
    forall i, j | 0 <= i < j < |r| && IsIndexEntry(r[j]) ensures IsIndexEntry(r[i]) && IndexValue(r[i]) <= IndexValue(r[j]) {
      assert r[i] == indexed[i] && r[j] == indexed[j];
      assert IndexRank(indexed[i]) >= IndexRank(indexed[j]);
    }
  }

  /** Option ids counted as "12" then "7" are listed as "7" then "12". */
  lemma {:induction false} NumericKeysAscending()
    ensures ObjectEntries(Tally(["12", "7"])) == [Entry("7", 1), Entry("12", 1)]
  {
    var twelve, seven := Entry("12", 1), Entry("7", 1);
    var t := [twelve, seven];
    TallyTwelveSeven();
    IndexKeysTwelveSeven();
    assert t[1..] == [seven];
    assert Filter(t, IsIndexEntry) == t;
    assert Filter(t, IsNamedEntry) == [];
    assert SortDesc([seven], IndexRank) == [seven];
    assert InsertDesc(twelve, [seven], IndexRank) == [seven, twelve];
    assert SortDesc(t, IndexRank) == [seven, twelve];
  }

  lemma TallyTwelveSeven()
    ensures Tally(["12", "7"]) == [Entry("12", 1), Entry("7", 1)]
  {
    assert ["12", "7"][..1] == ["12"] && ["12"][..0] == [];
    assert Tally(["12"]) == [Entry("12", 1)];
    assert [Entry("12", 1)][1..] == [];
    assert Bump([Entry("12", 1)], "7") == [Entry("12", 1), Entry("7", 1)];
  }

  lemma IndexKeysTwelveSeven()
    ensures IsIndexEntry(Entry("12", 1)) && IndexValue(Entry("12", 1)) == 12
    ensures IsIndexEntry(Entry("7", 1)) && IndexValue(Entry("7", 1)) == 7
  {
    assert "12"[..1] == "1" && "1"[..0] == "";
    assert DigitsValue("1") == 1;
  }

  /** Keeping the elements that satisfy `p` and those that satisfy its negation splits the sequence. */
  lemma {:induction false} FilterSplit<T>(s: seq<T>, p: T -> bool, q: T -> bool)
    requires forall x :: q(x) <==> !p(x)
    ensures multiset(Filter(s, p)) + multiset(Filter(s, q)) == multiset(s)
  {
    if s != [] {
      FilterSplit(s[1..], p, q);
      assert s == [s[0]] + s[1..];
    }
  }

  /** The total of the counts of `t`. */
  function Total(t: seq<Entry>): int {
    if t == [] then 0 else t[0].count + Total(t[1..])
  }

  lemma {:induction false} TotalIsSum(t: seq<Entry>)
    ensures Total(t) == Sum(Counts(t))
  {
    if t != [] {
      TotalIsSum(t[1..]);
      assert Counts(t)[1..] == Counts(t[1..]);
    }
  }

  /** Taking one entry out lowers the total by its count. */
  lemma {:induction false} TotalRemove(r: seq<Entry>, j: int)
    requires 0 <= j < |r|
    ensures Total(r) == r[j].count + Total(r[..j] + r[j + 1..])
  {
    if j == 0 {
      assert r[..j] + r[j + 1..] == r[1..];
    } else {
      var tail := r[1..];
      TotalRemove(tail, j - 1);
      var rest := r[..j] + r[j + 1..];
      assert rest[0] == r[0];
      assert rest[1..] == tail[..j - 1] + tail[j..];
    }
  }

  /** Reordering entries keeps the total of their counts. */
  lemma {:induction false} TotalReordered(t: seq<Entry>, r: seq<Entry>)
    requires multiset(r) == multiset(t)
    ensures Total(r) == Total(t)
    decreases |t|
  {
    if t == [] {
      assert |multiset(r)| == 0;
    } else {
      var j := Reordered(t, r, 0);
      var rest := r[..j] + r[j + 1..];
      assert r == r[..j] + [r[j]] + r[j + 1..];
      assert t == [t[0]] + t[1..];
      assert multiset(rest) == multiset(r) - multiset{t[0]};
      assert multiset(t[1..]) == multiset(t) - multiset{t[0]};
      TotalReordered(t[1..], rest);
      TotalRemove(r, j);
    }
  }

  /** Reordering entries keeps the sum of their counts. */
  lemma SumCountsReordered(t: seq<Entry>, r: seq<Entry>)
    requires multiset(r) == multiset(t)
    ensures Sum(Counts(r)) == Sum(Counts(t))
  {
    TotalReordered(t, r);
    TotalIsSum(t);
    TotalIsSum(r);
  }

  /** The entries of the count object built from `keys` have distinct keys and add up to the number of keys. */
  lemma EntriesTotal(keys: seq<string>)
    ensures DistinctKeys(ObjectEntries(Tally(keys)))
    ensures Sum(Counts(ObjectEntries(Tally(keys)))) == |keys|
  {
    var t := Tally(keys);
    TallySpec(keys);
    DistinctReordered(t, ObjectEntries(t));
    SumCountsReordered(t, ObjectEntries(t));
  }

  /** Each entry of the count object built from `keys` counts the occurrences of its key. */
  lemma EntriesCount(keys: seq<string>)
    ensures var r := ObjectEntries(Tally(keys));
      forall i | 0 <= i < |r| :: r[i].count == Occurrences(keys, r[i].key) >= 1
  {
    var t := Tally(keys);
    var r := ObjectEntries(t);
    TallyEntries(keys);
    forall i | 0 <= i < |r| ensures r[i].count == Occurrences(keys, r[i].key) >= 1 {
      assert r[i] in multiset(t);
      var p :| 0 <= p < |t| && t[p] == r[i];
    }
  }

  /** Every key of `keys` has an entry in the count object built from it. */
  lemma EntriesComplete(keys: seq<string>, k: string)
    requires k in keys
    ensures var r := ObjectEntries(Tally(keys));
      exists i | 0 <= i < |r| :: r[i].key == k
  {
    var t := Tally(keys);
    TallySpec(keys);
    assert Occurrences(keys, k) > 0;
    var p := KeyIndex(t, k);
    var i := Reordered(t, ObjectEntries(t), p);
  }

  /** An element of a sequence has a position in any reordering of it. */
  lemma Reordered(t: seq<Entry>, r: seq<Entry>, p: int) returns (i: int)
    requires multiset(r) == multiset(t) && 0 <= p < |t|
    ensures 0 <= i < |r| && r[i] == t[p]
  {
    assert t[p] in multiset(r);
    i :| 0 <= i < |r| && r[i] == t[p];
  }

  /** The sort key of an entry: its count. */
  function CountKey(e: Entry): int {
    e.count
  }

  /** The first `n` entries after a stable sort by descending count (`sort((a, b) => b[1] - a[1]).slice(0, n)`). */
  function TopEntries(t: seq<Entry>, n: nat): seq<Entry> {
    TopBy(t, CountKey, n)
  }

  /** Entries with distinct keys keep distinct keys at the top. */
  lemma TopEntriesDistinct(t: seq<Entry>, n: nat)
    requires DistinctKeys(t)
    ensures DistinctKeys(TopEntries(t, n))
  {
    var sorted := SortDesc(t, CountKey);
    DistinctReordered(t, sorted);
  }

  // ------------------------------------------------ the count object as written

  /*
   * The accumulator above is `{}`, an object whose prototype is
   * `Object.prototype`. `Tally` is the intended count, the one an object
   * without a prototype (or a `Map`) would give. What follows is `{}` itself:
   * a key naming an inherited method reads that function, and a key
   * `__proto__` goes through the prototype setter.
   */

  /** One own property of the count object, with its JavaScript value. */
  datatype Property = Property(key: string, value: JsValue)

  /** `String(Object.prototype[k])` for the methods `{}` inherits, none for other keys. */
  function InheritedText(k: string): Option<string> {
    if k == "constructor" then Some("function Object() { [native code] }")
    else if k in {"__defineGetter__", "__defineSetter__", "hasOwnProperty", "__lookupGetter__",
                  "__lookupSetter__", "isPrototypeOf", "propertyIsEnumerable", "toString",
                  "valueOf", "toLocaleString"}
    then Some("function " + k + "() { [native code] }")
    else None
  }

  /** A key `{}` treats like any other: neither an inherited method nor `__proto__`. */
  predicate Ordinary(k: string) {
    InheritedText(k).None? && k != "__proto__"
  }

  /** `(v || 0) + 1`: a number counts one more; a string gets "1" appended. */
  function PlusOne(v: JsValue): JsValue {
    if !Truthy(v) then Num(1)
    else match v
      case Num(n) => Num(n + 1)
      case Str(t) => Str(t + "1")
      case Bool(_) => Num(2)
      case _ => Str(ToString(v) + "1")
  }

  /** `acc[k] = (acc[k] || 0) + 1` on an object that has `acc`'s own properties and inherits from `Object.prototype`. */
  function AssignOwn(t: seq<Property>, k: string): seq<Property> {
    if t == [] then
      [Property(k, if InheritedText(k).Some? then Str(InheritedText(k).value + "1") else Num(1))]
    else if t[0].key == k then [Property(k, PlusOne(t[0].value))] + t[1..]
    else [t[0]] + AssignOwn(t[1..], k)
  }

  /** One step of the `reduce`: the `__proto__` setter ignores the string it is given, so that key changes nothing. */
  function BumpAsWritten(t: seq<Property>, k: string): seq<Property> {
    if k == "__proto__" then t else AssignOwn(t, k)
  }

  /** The count object `reduce(..., {})` builds, own properties in the order they were added. */
  function TallyAsWritten(keys: seq<string>): seq<Property>
    decreases |keys|
  {
    if keys == [] then [] else BumpAsWritten(TallyAsWritten(keys[..|keys| - 1]), keys[|keys| - 1])
  }

  /** The intended count object as JavaScript properties: each count a number. */
  function AsProperties(t: seq<Entry>): (r: seq<Property>)
    ensures |r| == |t|
    ensures forall i | 0 <= i < |t| :: r[i] == Property(t[i].key, Num(t[i].count))
  {
    if t == [] then [] else [Property(t[0].key, Num(t[0].count))] + AsProperties(t[1..])
  }

  /** On an ordinary key, a step of `{}` is a step of the intended count. */
  lemma {:induction false} BumpAgrees(t: seq<Entry>, k: string)
    requires Ordinary(k)
    ensures BumpAsWritten(AsProperties(t), k) == AsProperties(Bump(t, k))
  {
    if t != [] && t[0].key != k {
      BumpAgrees(t[1..], k);
      assert AsProperties(t)[1..] == AsProperties(t[1..]);
      assert AsProperties(Bump(t, k)) == [Property(t[0].key, Num(t[0].count))] + AsProperties(Bump(t[1..], k));
    } else if t != [] {
      assert AsProperties(t)[1..] == AsProperties(t[1..]);
      assert AsProperties(Bump(t, k)) == [Property(k, Num(t[0].count + 1))] + AsProperties(t[1..]);
    }
  }

  /** When every key is ordinary, `{}` builds exactly the intended count object. */
  lemma {:induction false} TallyAgrees(keys: seq<string>)
    requires forall i | 0 <= i < |keys| :: Ordinary(keys[i])
    ensures TallyAsWritten(keys) == AsProperties(Tally(keys))
    decreases |keys|
  {
    if keys != [] {
      var init := keys[..|keys| - 1];
      TallyAgrees(init);
      BumpAgrees(Tally(init), keys[|keys| - 1]);
    }
  }

  /**
   * Where `{}` and the intended count differ: one answer "constructor" is
   * counted as a string that is not a number, a second appends another "1",
   * and an answer "__proto__" is not counted at all, so the counts no longer
   * add up to the number of answers.
   */
  lemma PrototypeKeysDiverge()
    ensures Tally(["constructor"]) == [Entry("constructor", 1)]
    ensures TallyAsWritten(["constructor"]) == [Property("constructor", Str("function Object() { [native code] }1"))]
    ensures TallyAsWritten(["constructor", "constructor"]) == [Property("constructor", Str("function Object() { [native code] }11"))]
    ensures Tally(["__proto__"]) == [Entry("__proto__", 1)]
    ensures TallyAsWritten(["__proto__"]) == []
  {
    var f := "function Object() { [native code] }";
    assert InheritedText("constructor") == Some(f);
    assert ["constructor"][..0] == [] && ["__proto__"][..0] == [];
    var once := TallyAsWritten(["constructor"]);
    assert once == AssignOwn([], "constructor") == [Property("constructor", Str(f + "1"))];
    assert ["constructor", "constructor"][..1] == ["constructor"];
    assert f + "1" == "function Object() { [native code] }1";
    assert PlusOne(Str(f + "1")) == Str(f + "1" + "1");
    assert f + "1" + "1" == "function Object() { [native code] }11";
  }
}
