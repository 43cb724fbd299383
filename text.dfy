/**
 * String operations the handlers and pages rely on: JavaScript's `trim`,
 * `toLowerCase`, `includes`, `startsWith` and `split` on a one-character
 * separator, with their defining properties.
 */
module Text {

  /** The characters JavaScript's `\s` matches and `String.prototype.trim` removes. */
  predicate IsSpace(c: char) {
    || c == ' ' || c == '\t' || c == '\n' || c == '\r' || c == '\U{000B}' || c == '\U{000C}'
    || c == '\U{00A0}' || c == '\U{1680}' || ('\U{2000}' <= c <= '\U{200A}')
    || c == '\U{2028}' || c == '\U{2029}' || c == '\U{202F}' || c == '\U{205F}'
    || c == '\U{3000}' || c == '\U{FEFF}'
  }

  /**
   * Lower-casing of one character, one character to one: the capitals of
   * ASCII, Latin-1, Latin Extended-A and Cyrillic. U+0130, which JavaScript
   * lower-cases to two characters, is left as it is.
   */
  function Lower(c: char): char {
    if 'A' <= c <= 'Z' then (c as int + 32) as char
    else if '\U{00C0}' <= c <= '\U{00DE}' && c != '\U{00D7}' then (c as int + 32) as char
    else if IsExtendedCapital(c) then (c as int + 1) as char
    else if c == '\U{0178}' then '\U{00FF}'
    else if '\U{0410}' <= c <= '\U{042F}' then (c as int + 32) as char
    else if '\U{0400}' <= c <= '\U{040F}' then (c as int + 80) as char
    else c
  }

  /** A Latin Extended-A capital whose small letter is the next code point. */
  predicate IsExtendedCapital(c: char) {
    var n := c as int;
    || (0x0100 <= n <= 0x012F && n % 2 == 0)
    || (0x0132 <= n <= 0x0137 && n % 2 == 0)
    || (0x0139 <= n <= 0x0148 && n % 2 == 1)
    || (0x014A <= n <= 0x0177 && n % 2 == 0)
    || (0x0179 <= n <= 0x017E && n % 2 == 1)
  }

  /** `s.toLowerCase()` */
  function ToLower(s: string): (r: string)
    ensures |r| == |s|
    ensures forall i | 0 <= i < |s| :: r[i] == Lower(s[i])
  {
    seq(|s|, i requires 0 <= i < |s| => Lower(s[i]))
  }

  lemma LowerIdempotent(c: char)
    ensures Lower(Lower(c)) == Lower(c)
  {
  }

  lemma LowerKeepsSpaces(c: char)
    requires IsSpace(c)
    ensures Lower(c) == c
  {
  }

  /** Lower-casing twice is lower-casing once. */
  lemma ToLowerIdempotent(s: string)
    ensures ToLower(ToLower(s)) == ToLower(s)
  {
    forall i | 0 <= i < |s| ensures ToLower(ToLower(s))[i] == ToLower(s)[i] {
      LowerIdempotent(s[i]);
    }
  }

  lemma ToLowerSlice(s: string, i: int, j: int)
    requires 0 <= i <= j <= |s|
    ensures ToLower(s[i..j]) == ToLower(s)[i..j]
  {
  }

  lemma ToLowerConcat(a: string, b: string)
    ensures ToLower(a + b) == ToLower(a) + ToLower(b)
  {
  }

  // ---------------------------------------------------------------- length

  /** `s.length`: UTF-16 code units, two for a character beyond U+FFFF. */
  function Utf16Length(s: string): (n: nat)
    ensures |s| <= n <= 2 * |s|
  {
    if s == [] then 0 else (if s[0] as int > 0xFFFF then 2 else 1) + Utf16Length(s[1..])
  }

  /** Without characters beyond U+FFFF, the UTF-16 length is the number of characters. */
  lemma {:induction false} Utf16LengthBasic(s: string)
    requires forall i | 0 <= i < |s| :: s[i] as int <= 0xFFFF
    ensures Utf16Length(s) == |s|
  {
    if s != [] {
      Utf16LengthBasic(s[1..]);
    }
  }

  // ---------------------------------------------------------------- trim

  /** Drops the leading white space. */
  function TrimStart(s: string): (r: string)
    ensures |r| <= |s| && r == s[|s| - |r|..]
    ensures r == [] || !IsSpace(r[0])
    ensures forall i | 0 <= i < |s| - |r| :: IsSpace(s[i])
  {
    if s != [] && IsSpace(s[0]) then TrimStart(s[1..]) else s
  }

  /** Drops the trailing white space. */
  function TrimEnd(s: string): (r: string)
    ensures |r| <= |s| && r == s[..|r|]
    ensures r == [] || !IsSpace(r[|r| - 1])
    ensures forall i | |r| <= i < |s| :: IsSpace(s[i])
  {
    if s != [] && IsSpace(s[|s| - 1]) then TrimEnd(s[..|s| - 1]) else s
  }

  /** `s.trim()`: the longest slice of `s` that starts and ends with a non-space. */
  function Trim(s: string): (r: string)
  {
    TrimEnd(TrimStart(s))
  }

  predicate AllSpace(s: string) {
    forall i | 0 <= i < |s| :: IsSpace(s[i])
  }

  /** A string that neither starts nor ends with white space. */
  predicate Trimmed(s: string) {
    s == [] || (!IsSpace(s[0]) && !IsSpace(s[|s| - 1]))
  }

  /** Where the slice `trim` keeps starts. */
  function TrimLo(s: string): nat
    ensures TrimLo(s) <= |s|
  {
    |s| - |TrimStart(s)|
  }

  lemma TrimSlice(s: string)
    ensures TrimLo(s) + |Trim(s)| <= |s|
    ensures Trim(s) == s[TrimLo(s)..TrimLo(s) + |Trim(s)|]
  {
    var t := TrimStart(s);
    assert t == s[TrimLo(s)..];
  }

  lemma TrimLeadingSpace(s: string)
    ensures AllSpace(s[..TrimLo(s)])
  {
    forall i | 0 <= i < TrimLo(s) ensures IsSpace(s[..TrimLo(s)][i]) {
      assert s[..TrimLo(s)][i] == s[i];
    }
  }

  lemma TrimTrailingSpace(s: string)
    requires TrimLo(s) + |Trim(s)| <= |s|
    ensures AllSpace(s[TrimLo(s) + |Trim(s)|..])
  {
    var t := TrimStart(s);
    var r := TrimEnd(t);
    assert r == Trim(s);
    var hi := TrimLo(s) + |r|;
    assert t == s[TrimLo(s)..];
    assert forall j | |r| <= j < |t| :: IsSpace(t[j]);
    forall i | 0 <= i < |s| - hi ensures IsSpace(s[hi..][i]) {
      assert s[hi..][i] == t[|r| + i];
    }
  }

  lemma TrimIsTrimmed(s: string)
    ensures Trimmed(Trim(s))
  {
    var t := TrimStart(s);
    assert Trim(s) != [] ==> Trim(s)[0] == t[0];
  }

  /** What `trim` keeps is a slice `s[lo..hi]` whose cut-off ends are white space, and it is trimmed. */
  lemma TrimCut(s: string) returns (lo: int, hi: int)
    ensures 0 <= lo <= hi <= |s|
    ensures Trim(s) == s[lo..hi]
    ensures AllSpace(s[..lo]) && AllSpace(s[hi..])
    ensures Trimmed(Trim(s))
  {
    lo := TrimLo(s);
    TrimSlice(s);
    hi := lo + |Trim(s)|;
    TrimLeadingSpace(s);
    TrimTrailingSpace(s);
    TrimIsTrimmed(s);
  }

  lemma {:induction false} TrimStartSpaces(pre: string, core: string)
    requires AllSpace(pre)
    requires core == [] || !IsSpace(core[0])
    ensures TrimStart(pre + core) == core
    decreases |pre|
  {
    if pre != [] {
      assert (pre + core)[1..] == pre[1..] + core;
      TrimStartSpaces(pre[1..], core);
    } else {
      assert pre + core == core;
    }
  }

  lemma {:induction false} TrimEndSpaces(core: string, post: string)
    requires AllSpace(post)
    requires core == [] || !IsSpace(core[|core| - 1])
    ensures TrimEnd(core + post) == core
    decreases |post|
  {
    if post != [] {
      var p := post[..|post| - 1];
      assert (core + post)[..|core + post| - 1] == core + p;
      TrimEndSpaces(core, p);
    } else {
      assert core + post == core;
    }
  }

  /** `trim` removes exactly the white space around a trimmed core. */
  lemma TrimSurrounded(pre: string, core: string, post: string)
    requires AllSpace(pre) && AllSpace(post) && Trimmed(core)
    ensures Trim(pre + core + post) == core
  {
    if core == [] {
      assert pre + core + post == pre + post;
      TrimStartSpaces(pre + post, []);
      assert pre + post + [] == pre + post;
      assert TrimStart(pre + post) == [];
    } else {
      assert pre + core + post == pre + (core + post);
      TrimStartSpaces(pre, core + post);
      TrimEndSpaces(core, post);
    }
  }

  lemma LowerKeepsNonSpaces(c: char)
    requires !IsSpace(c)
    ensures !IsSpace(Lower(c))
  {
  }

  lemma SliceParts(s: string, lo: int, hi: int)
    requires 0 <= lo <= hi <= |s|
    ensures s == s[..lo] + s[lo..hi] + s[hi..]
  {
  }

  lemma Regroup(p: string, x: string, y: string, z: string, q: string)
    ensures p + (x + y + z) + q == (p + x) + y + (z + q)
  {
  }

  lemma AllSpaceConcat(a: string, b: string)
    requires AllSpace(a) && AllSpace(b)
    ensures AllSpace(a + b)
  {
    assert forall i | |a| <= i < |a + b| :: (a + b)[i] == b[i - |a|];
  }

  lemma ToLowerSpaces(a: string)
    requires AllSpace(a)
    ensures ToLower(a) == a
  {
    forall i | 0 <= i < |a| ensures ToLower(a)[i] == a[i] {
      LowerKeepsSpaces(a[i]);
    }
  }

  lemma ToLowerTrimmed(s: string)
    requires Trimmed(s)
    ensures Trimmed(ToLower(s))
  {
    if s != [] {
      LowerKeepsNonSpaces(s[0]);
      LowerKeepsNonSpaces(s[|s| - 1]);
    }
  }

  /** Trimming twice is trimming once. */
  lemma TrimIdempotent(s: string)
    ensures Trim(Trim(s)) == Trim(s)
  {
    var lo, hi := TrimCut(s);
    var t := Trim(s);
    assert [] + t + [] == t;
    TrimSurrounded([], t, []);
  }

  /** Extra white space around a string does not change what `trim` keeps. */
  lemma TrimPadded(pre: string, s: string, post: string)
    requires AllSpace(pre) && AllSpace(post)
    ensures Trim(pre + s + post) == Trim(s)
  {
    var lo, hi := TrimCut(s);
    var x, core, z := s[..lo], s[lo..hi], s[hi..];
    SliceParts(s, lo, hi);
    Regroup(pre, x, core, z, post);
    AllSpaceConcat(pre, x);
    AllSpaceConcat(z, post);
    TrimSurrounded(pre + x, core, z + post);
  }

  /** Trimming and lower-casing commute. */
  lemma TrimToLower(s: string)
    ensures Trim(ToLower(s)) == ToLower(Trim(s))
  {
    var lo, hi := TrimCut(s);
    var x, core, z := s[..lo], s[lo..hi], s[hi..];
    SliceParts(s, lo, hi);
    calc {
      ToLower(s);
      ToLower(x + core + z);
      { ToLowerConcat(x + core, z); }
      ToLower(x + core) + ToLower(z);
      { ToLowerConcat(x, core); }
      ToLower(x) + ToLower(core) + ToLower(z);
      { ToLowerSpaces(x); ToLowerSpaces(z); }
      x + ToLower(core) + z;
    }
    ToLowerTrimmed(core);
    TrimSurrounded(x, ToLower(core), z);
  }

  // ---------------------------------------------------------------- search

  predicate IsPrefix(p: string, s: string) {
    |p| <= |s| && s[..|p|] == p
  }

  /** `s.startsWith(p)` */
  predicate StartsWith(s: string, p: string) {
    IsPrefix(p, s)
  }

  /** `s.includes(sub)`, searched from the left. */
  predicate Contains(s: string, sub: string)
    decreases |s|
  {
    IsPrefix(sub, s) || (s != [] && Contains(s[1..], sub))
  }

  predicate OccursAt(s: string, sub: string, i: int) {
    0 <= i && i + |sub| <= |s| && s[i..i + |sub|] == sub
  }

  /** `includes` holds exactly when `sub` occurs at some position of `s`. */
  lemma {:induction false} ContainsIff(s: string, sub: string)
    ensures Contains(s, sub) <==> exists i :: OccursAt(s, sub, i)
    decreases |s|
  {
    if IsPrefix(sub, s) {
      assert OccursAt(s, sub, 0);
    } else if s == [] {
      assert sub != [];
    } else {
      ContainsIff(s[1..], sub);
      if exists i :: OccursAt(s[1..], sub, i) {
        var i :| OccursAt(s[1..], sub, i);
        assert s[1..][i..i + |sub|] == s[i + 1..i + 1 + |sub|];
        assert OccursAt(s, sub, i + 1);
      }
      if exists i :: OccursAt(s, sub, i) {
        var i :| OccursAt(s, sub, i);
        assert i != 0;
        assert s[1..][i - 1..i - 1 + |sub|] == s[i..i + |sub|];
        assert OccursAt(s[1..], sub, i - 1);
      }
    }
  }

  /** Every string includes the empty string. */
  lemma ContainsEmpty(s: string)
    ensures Contains(s, "")
  {
    assert IsPrefix("", s);
  }

  /** A string does not include a text whose first character it lacks. */
  lemma {:induction false} MissingFirstChar(s: string, sub: string)
    requires sub != [] && sub[0] !in s
    ensures !Contains(s, sub)
    decreases |s|
  {
    if s != [] {
      assert s[0] != sub[0];
      MissingFirstChar(s[1..], sub);
    }
  }

  /** Case-insensitive `includes`, as written with two `toLowerCase` calls. */
  predicate ContainsIgnoringCase(s: string, sub: string) {
    Contains(ToLower(s), ToLower(sub))
  }

  // ---------------------------------------------------------------- split

  /** `s.split(sep)` for a one-character separator. */
  function Split(s: string, sep: char): (r: seq<string>)
    ensures |r| >= 1
    decreases |s|
  {
    if s == [] then [""]
    else
      var rest := Split(s[1..], sep);
      if s[0] == sep then [""] + rest else [[s[0]] + rest[0]] + rest[1..]
  }

  /** `parts.join(sep)` */
  function Join(parts: seq<string>, sep: string): string
    decreases |parts|
  {
    if parts == [] then ""
    else if |parts| == 1 then parts[0]
    else parts[0] + sep + Join(parts[1..], sep)
  }

  /** Splitting and joining again gives the original string, and no part holds the separator. */
  lemma {:induction false} SplitJoin(s: string, sep: char)
    ensures Join(Split(s, sep), [sep]) == s
    ensures forall k | 0 <= k < |Split(s, sep)| :: sep !in Split(s, sep)[k]
  {
    SplitJoinRoundTrip(s, sep);
    SplitPartsFree(s, sep);
  }

  lemma {:induction false} SplitJoinRoundTrip(s: string, sep: char)
    ensures Join(Split(s, sep), [sep]) == s
    decreases |s|
  {
    if s != [] {
      var rest := Split(s[1..], sep);
      SplitJoinRoundTrip(s[1..], sep);
      assert s == [s[0]] + s[1..];
      if s[0] == sep {
        assert Split(s, sep) == [""] + rest;
        assert Join([""] + rest, [sep]) == "" + [sep] + Join(rest, [sep]);
      } else {
        var parts := Split(s, sep);
        if |rest| == 1 {
          assert Join(parts, [sep]) == [s[0]] + rest[0];
        } else {
          assert parts[1..] == rest[1..];
          assert Join(rest, [sep]) == rest[0] + [sep] + Join(rest[1..], [sep]);
        }
      }
    }
  }

  lemma {:induction false} SplitPartsFree(s: string, sep: char)
    ensures forall k | 0 <= k < |Split(s, sep)| :: sep !in Split(s, sep)[k]
    decreases |s|
  {
    if s != [] {
      var rest := Split(s[1..], sep);
      SplitPartsFree(s[1..], sep);
      var parts := Split(s, sep);
      if s[0] == sep {
        assert parts == [""] + rest;
      } else {
        assert parts == [[s[0]] + rest[0]] + rest[1..];
        forall k | 0 < k < |parts| ensures sep !in parts[k] {
          assert parts[k] == rest[k];
        }
      }
    }
  }

  /** A string without the separator splits into itself alone. */
  lemma {:induction false} SplitNoSeparator(s: string, sep: char)
    requires sep !in s
    ensures Split(s, sep) == [s]
    decreases |s|
  {
    if s != [] {
      assert sep !in s[1..];
      SplitNoSeparator(s[1..], sep);
      assert [s[0]] + s[1..] == s;
    }
  }

  /** Splitting `a + [sep] + b` where `a` has no separator: `a` comes first, `b`'s parts follow. */
  lemma {:induction false} SplitAtFirst(a: string, b: string, sep: char)
    requires sep !in a
    ensures Split(a + [sep] + b, sep) == [a] + Split(b, sep)
    decreases |a|
  {
    if a == [] {
      assert a + [sep] + b == [sep] + b;
      assert ([sep] + b)[1..] == b;
    } else {
      assert (a + [sep] + b)[1..] == a[1..] + [sep] + b;
      SplitAtFirst(a[1..], b, sep);
      assert [a[0]] + a[1..] == a;
    }
  }

  /** The parts of a split joined back around one separator: two parts exactly when the string has one separator. */
  lemma TwoParts(s: string, sep: char)
    ensures |Split(s, sep)| == 2 <==>
      exists a, b :: sep !in a && sep !in b && s == a + [sep] + b
    ensures |Split(s, sep)| == 2 ==>
      s == Split(s, sep)[0] + [sep] + Split(s, sep)[1]
  {
    var parts := Split(s, sep);
    SplitJoin(s, sep);
    if |parts| == 2 {
      assert Join(parts[1..], [sep]) == parts[1];
      assert s == parts[0] + [sep] + parts[1];
      assert sep !in parts[0] && sep !in parts[1];
    }
    if exists a, b :: sep !in a && sep !in b && s == a + [sep] + b {
      var a, b :| sep !in a && sep !in b && s == a + [sep] + b;
      SplitAtFirst(a, b, sep);
      SplitNoSeparator(b, sep);
    }
  }
}
