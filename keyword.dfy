/**
 * src/keyword.rs: the three substring predicates a peer id is matched
 * against, and the keyword set whose members must all hold.
 */
module Keyword {

  datatype Keyword = StartsWith(text: string) | Contains(text: string) | EndsWith(text: string)

  /** The keyword set `core.rs` receives: an ordered list of keywords. */
  type Keywords = seq<Keyword>

  // Reference definitions, character by character.

  ghost predicate IsPrefix(w: string, s: string)
  {
    |w| <= |s| && forall j | 0 <= j < |w| :: s[j] == w[j]
  }

  ghost predicate IsSuffix(w: string, s: string)
  {
    |w| <= |s| && forall j | 0 <= j < |w| :: s[|s| - |w| + j] == w[j]
  }

  ghost predicate OccursAt(w: string, s: string, i: nat)
  {
    i + |w| <= |s| && forall j | 0 <= j < |w| :: s[i + j] == w[j]
  }

  ghost predicate IsSubstring(w: string, s: string)
  {
    exists i: nat :: OccursAt(w, s, i)
  }

  // The string operations of `str`, as the standard library computes them.

  /** `str::starts_with`: the first |p| characters of s are p. */
  predicate StrStartsWith(s: string, p: string)
  {
    |p| <= |s| && s[..|p|] == p
  }

  /** `str::ends_with`: the last |p| characters of s are p. */
  predicate StrEndsWith(s: string, p: string)
  {
    |p| <= |s| && s[|s| - |p|..] == p
  }

  /** `str::contains`: p starts at the current offset of s, or at a later one. */
  predicate StrContains(s: string, p: string)
    decreases |s|
  {
    StrStartsWith(s, p) || (s != [] && StrContains(s[1..], p))
  }

  lemma OccursAtStart(s: string, p: string)
    ensures OccursAt(p, s, 0) <==> StrStartsWith(s, p)
  {
    if OccursAt(p, s, 0) {
      assert s[..|p|] == p;
    }
  }

  /** The scan of `StrContains` finds p exactly when p occurs at some offset. */
  lemma {:induction false} StrContainsIsSubstring(s: string, p: string)
    ensures StrContains(s, p) <==> IsSubstring(p, s)
  {
    if StrStartsWith(s, p) {
      assert OccursAt(p, s, 0);
    } else if s == [] {
    } else {
      StrContainsIsSubstring(s[1..], p);
      if StrContains(s[1..], p) {
        var i: nat :| OccursAt(p, s[1..], i);
        assert OccursAt(p, s, i + 1);
      }
      if IsSubstring(p, s) {
        var i: nat :| OccursAt(p, s, i);
        OccursAtStart(s, p);
        assert i != 0;
        assert OccursAt(p, s[1..], i - 1);
      }
    }
  }

  /**
   * `Keyword::check`: StartsWith holds iff its text is a prefix of the
   * input, EndsWith iff a suffix, Contains iff it occurs at some offset.
   */
  function Check(k: Keyword, input: string): (r: bool)
    ensures k.StartsWith? ==> (r <==> IsPrefix(k.text, input))
    ensures k.Contains? ==> (r <==> IsSubstring(k.text, input))
    ensures k.EndsWith? ==> (r <==> IsSuffix(k.text, input))
  {
    match k
    case StartsWith(w) => StrStartsWith(input, w)
    case Contains(w) => StrContainsIsSubstring(input, w); StrContains(input, w)
    case EndsWith(w) =>
      assert StrEndsWith(input, w) ==> IsSuffix(w, input);
      assert IsSuffix(w, input) ==> input[|input| - |w|..] == w;
      StrEndsWith(input, w)
  }

  /** A keyword with empty text accepts every input, whatever its variant. */
  lemma EmptyKeywordAccepts(k: Keyword, input: string)
    requires k.text == ""
    ensures Check(k, input)
  {
    if k.Contains? {
      assert OccursAt(k.text, input, 0);
    }
  }

  /** A keyword longer than the input never matches, whatever its variant. */
  lemma LongKeywordRejects(k: Keyword, input: string)
    requires |k.text| > |input|
    ensures !Check(k, input)
  {
  }

  /** A prefix or a suffix of the input also satisfies Contains. */
  lemma PrefixOrSuffixIsContained(w: string, input: string)
    requires Check(StartsWith(w), input) || Check(EndsWith(w), input)
    ensures Check(Contains(w), input)
  {
    if Check(StartsWith(w), input) {
      assert OccursAt(w, input, 0);
    } else {
      assert OccursAt(w, input, |input| - |w|);
    }
  }

  /** `Keywords::is_valid`: every keyword of the set checks against the input. */
  predicate IsValid(keywords: Keywords, input: string): (r: bool)
    ensures r <==> forall k | k in keywords :: Check(k, input)
  {
    forall i | 0 <= i < |keywords| :: Check(keywords[i], input)
  }

  /** The empty set accepts everything; adding a keyword adds one conjunct. */
  lemma IsValidAppend(keywords: Keywords, k: Keyword, input: string)
    ensures IsValid([], input)
    ensures IsValid(keywords + [k], input) <==> IsValid(keywords, input) && Check(k, input)
  {
    if IsValid(keywords, input) && Check(k, input) {
      forall i | 0 <= i < |keywords| + 1
        ensures Check((keywords + [k])[i], input)
      {
        if i < |keywords| {
          assert (keywords + [k])[i] == keywords[i];
        }
      }
    }
    if IsValid(keywords + [k], input) {
      assert (keywords + [k])[|keywords|] == k;
      forall i | 0 <= i < |keywords| ensures Check(keywords[i], input) {
        assert (keywords + [k])[i] == keywords[i];
      }
    }
  }

  /** The order of the keywords does not matter, only which ones there are. */
  lemma IsValidOrderIndependent(a: Keywords, b: Keywords, input: string)
    requires multiset(a) == multiset(b)
    ensures IsValid(a, input) <==> IsValid(b, input)
  {
    forall k | k in b ensures k in a {
      assert k in multiset(b);
    }
    forall k | k in a ensures k in b {
      assert k in multiset(a);
    }
    if IsValid(a, input) {
      forall i | 0 <= i < |b| ensures Check(b[i], input) {
        assert b[i] in b;
        var j :| 0 <= j < |a| && a[j] == b[i];
      }
    }
    if IsValid(b, input) {
      forall i | 0 <= i < |a| ensures Check(a[i], input) {
        assert a[i] in a;
        var j :| 0 <= j < |b| && b[j] == a[i];
      }
    }
  }

  // ASCII lower-casing: peer ids are base58, so no other letters occur.

  function LowerChar(c: char): (r: char)
    ensures !('A' <= r <= 'Z')
    ensures r != c ==> 'A' <= c <= 'Z' && r as int == c as int + 32
  {
    if 'A' <= c <= 'Z' then (c as int + 32) as char else c
  }

  /** `str::to_lowercase`, restricted to ASCII letters. */
  function ToLowercase(s: string): (r: string)
    ensures |r| == |s|
    ensures forall i | 0 <= i < |s| :: r[i] == LowerChar(s[i])
  {
    seq(|s|, i requires 0 <= i < |s| => LowerChar(s[i]))
  }

  predicate IsLowercase(s: string)
  {
    forall i | 0 <= i < |s| :: !('A' <= s[i] <= 'Z')
  }

  /** Lower-casing yields lower case and changes a lower-case string not at all. */
  lemma ToLowercaseIdempotent(s: string)
    ensures IsLowercase(ToLowercase(s))
    ensures IsLowercase(s) ==> ToLowercase(s) == s
    ensures ToLowercase(ToLowercase(s)) == ToLowercase(s)
  {
  }

  /** A keyword with its text lower-cased. */
  function LowerKeyword(k: Keyword): (r: Keyword)
    ensures IsLowercase(r.text)
    ensures r.text == ToLowercase(k.text)
  {
    match k
    case StartsWith(w) => StartsWith(ToLowercase(w))
    case Contains(w) => Contains(ToLowercase(w))
    case EndsWith(w) => EndsWith(ToLowercase(w))
  }

  /**
   * Lower-casing both the keyword and the input keeps a match: matching
   * lower-cased texts is a case-insensitive relaxation of `check`.
   */
  lemma LowercasePreservesMatch(k: Keyword, input: string)
    requires Check(k, input)
    ensures Check(LowerKeyword(k), ToLowercase(input))
  {
    var w, lw, ls := k.text, LowerKeyword(k).text, ToLowercase(input);
    match k
    case StartsWith(_) =>
      assert IsPrefix(lw, ls);
    case EndsWith(_) =>
      assert IsSuffix(lw, ls);
    case Contains(_) =>
      var i: nat :| OccursAt(w, input, i);
      assert OccursAt(lw, ls, i);
  }
}
