/**
 * The checks the page-creation endpoint applies to a request body before it
 * touches the store: the reserved-slug list, the slug pattern, the presence
 * of a non-empty components array and the shape of every component block.
 */
module Validation {
  import opened Wrappers
  import opened Json

  /** The five block kinds a page may contain, in their declared order. */
  const ValidComponentTypes: seq<string> := ["ImageBlock", "TextSection", "Card", "CTA", "StatsBox"]

  /** Paths used by the framework or by the application itself. */
  const ReservedSlugs: seq<string> := ["api", "documentation", "_next", "static", "public", "favicon.ico"]

  // ---------------------------------------------------------------------
  // Slug pattern ^[a-zA-Z0-9-_]+$ and length bounds
  // ---------------------------------------------------------------------

  /** The bracket expression [a-zA-Z0-9-_] as inclusive character ranges; the
      `-` after `0-9` is a literal hyphen, not a range. */
  const SlugClass: seq<(char, char)> := [('a', 'z'), ('A', 'Z'), ('0', '9'), ('-', '-'), ('_', '_')]

  /** The character lies in one of the ranges. */
  predicate InRanges(c: char, ranges: seq<(char, char)>)
  {
    |ranges| > 0 && ((ranges[0].0 <= c <= ranges[0].1) || InRanges(c, ranges[1..]))
  }

  /** `^[cls]+$`: one or more characters of the class and nothing else. */
  predicate MatchesOneOrMore(s: string, cls: seq<(char, char)>)
  {
    |s| > 0 && InRanges(s[0], cls) && (|s| == 1 || MatchesOneOrMore(s[1..], cls))
  }

  /** Reference definition of a slug character: an ASCII letter or digit, a
      hyphen or an underscore. */
  predicate IsSlugChar(c: char)
  {
    ('a' <= c <= 'z') || ('A' <= c <= 'Z') || ('0' <= c <= '9') || c == '-' || c == '_'
  }

  /** `validateSlug`: the pattern test and 1 <= length <= 100. The length
      is JavaScript's UTF-16 length, which equals |s| once the pattern has
      admitted only ASCII characters. */
  predicate ValidateSlug(s: string)
    ensures ValidateSlug(s) ==> 1 <= |s| <= 100
  {
    MatchesOneOrMore(s, SlugClass) && 1 <= |s| && |s| <= 100
  }

  lemma InSlugClass(c: char)
    ensures InRanges(c, SlugClass) <==> IsSlugChar(c)
  {
    var r := SlugClass;
    assert InRanges(c, r) <==> ('a' <= c <= 'z') || InRanges(c, r[1..]);
    assert InRanges(c, r[1..]) <==> ('A' <= c <= 'Z') || InRanges(c, r[2..]);
    assert InRanges(c, r[2..]) <==> ('0' <= c <= '9') || InRanges(c, r[3..]);
    assert InRanges(c, r[3..]) <==> c == '-' || InRanges(c, r[4..]);
    assert InRanges(c, r[4..]) <==> c == '_' || InRanges(c, r[5..]);
    assert r[5..] == [];
  }

  lemma {:induction false} MatchesOneOrMoreSlugClass(s: string)
    ensures MatchesOneOrMore(s, SlugClass) <==> (|s| > 0 && forall i :: 0 <= i < |s| ==> IsSlugChar(s[i]))
  {
    if |s| > 0 {
      InSlugClass(s[0]);
      if |s| > 1 {
        MatchesOneOrMoreSlugClass(s[1..]);
        assert forall i :: 1 <= i < |s| ==> s[i] == s[1..][i - 1];
      }
    }
  }

  /** A slug is accepted by the pattern and the bounds exactly when it has
      1 to 100 characters, each a letter, digit, hyphen or underscore. */
  lemma ValidateSlugIff(s: string)
    ensures ValidateSlug(s) <==> (1 <= |s| <= 100 && forall i :: 0 <= i < |s| ==> IsSlugChar(s[i]))
  {
    MatchesOneOrMoreSlugClass(s);
  }

  // ---------------------------------------------------------------------
  // Case-insensitive reserved-slug test
  // ---------------------------------------------------------------------

  /** `toLowerCase` on one character, restricted to ASCII letters. */
  function LowerChar(c: char): (r: char)
    ensures 'A' <= c <= 'Z' ==> 'a' <= r <= 'z'
    ensures !('A' <= c <= 'Z') ==> r == c
  {
    if 'A' <= c <= 'Z' then (c as int - 'A' as int + 'a' as int) as char else c
  }

  /** `s.toLowerCase()` (ASCII letters only). */
  function ToLower(s: string): (r: string)
    ensures |r| == |s|
    ensures forall i :: 0 <= i < |s| ==> r[i] == LowerChar(s[i])
  {
    if s == [] then [] else [LowerChar(s[0])] + ToLower(s[1..])
  }

  /** Two strings that differ at most in the case of ASCII letters. */
  predicate EqualIgnoringCase(s: string, t: string)
  {
    |s| == |t| && forall i :: 0 <= i < |s| ==> LowerChar(s[i]) == LowerChar(t[i])
  }

  /** `RESERVED_SLUGS.includes(slug.toLowerCase())`. */
  predicate IsReserved(s: string)
    ensures IsReserved(s) ==> 3 <= |s| <= 13
  {
    ToLower(s) in ReservedSlugs
  }

  lemma ToLowerWithoutUpper(s: string)
    requires forall i :: 0 <= i < |s| ==> !('A' <= s[i] <= 'Z')
    ensures ToLower(s) == s
  {
  }

  lemma ReservedAreLowerCase(w: string)
    requires w in ReservedSlugs
    ensures ToLower(w) == w
  {
    ToLowerWithoutUpper(w);
  }

  /** Reserved matching ignores case: a slug is reserved exactly when it
      equals one of the reserved words up to the case of its letters. */
  lemma IsReservedIff(s: string)
    ensures IsReserved(s) <==> exists w :: w in ReservedSlugs && EqualIgnoringCase(s, w)
  {
    if IsReserved(s) {
      var w := ToLower(s);
      ReservedAreLowerCase(w);
      assert EqualIgnoringCase(s, w);
    }
    if w :| w in ReservedSlugs && EqualIgnoringCase(s, w) {
      ReservedAreLowerCase(w);
      assert ToLower(s) == w;
    }
  }

  /** Slugs that agree up to case are reserved together. */
  lemma IsReservedCaseInsensitive(s: string, t: string)
    requires EqualIgnoringCase(s, t)
    ensures IsReserved(s) <==> IsReserved(t)
  {
    assert ToLower(s) == ToLower(t);
  }

  // ---------------------------------------------------------------------
  // Component blocks
  // ---------------------------------------------------------------------

  /** `validateComponent`, read with JavaScript's semantics: a truthy
      object whose `type` is one of the five kinds and whose `props` is
      truthy with `typeof` "object" (so an array passes). */
  predicate ValidateComponent(c: Value)
    ensures ValidateComponent(c) ==> c.Obj? && "type" in c.fields && "props" in c.fields
  {
    var ty := Property(c, "type");
    var props := Property(c, "props");
    Truthy(Some(c)) && TypeOf(Some(c)) == Object
    && TypeOf(ty) == String && ty.value.s in ValidComponentTypes
    && Truthy(props) && TypeOf(props) == Object
  }

  /** The same check stated on the shape of the block. */
  lemma ValidateComponentIff(c: Value)
    ensures ValidateComponent(c) <==>
      && c.Obj?
      && "type" in c.fields && c.fields["type"].Str? && c.fields["type"].s in ValidComponentTypes
      && "props" in c.fields && (c.fields["props"].Obj? || c.fields["props"].Arr?)
  {
    TruthyObjectIsContainer(Property(c, "props"));
  }

  /** The indices the `forEach` loop pushes, in visiting order: those of the
      blocks failing `validateComponent`. */
  function InvalidIndices(cs: seq<Value>): (r: seq<nat>)
    ensures |r| <= |cs|
    ensures forall i :: 0 <= i < |r| ==> r[i] < |cs|
  {
    if cs == [] then []
    else InvalidIndices(cs[..|cs| - 1]) + (if ValidateComponent(cs[|cs| - 1]) then [] else [|cs| - 1])
  }

  predicate StrictlyIncreasing(xs: seq<nat>)
  {
    forall i, j :: 0 <= i < j < |xs| ==> xs[i] < xs[j]
  }

  /** The reported indices are exactly the failing ones, each once, in
      ascending order. */
  lemma {:induction false} InvalidIndicesSpec(cs: seq<Value>)
    ensures StrictlyIncreasing(InvalidIndices(cs))
    ensures forall k: nat :: k in InvalidIndices(cs) <==> k < |cs| && !ValidateComponent(cs[k])
  {
    if cs != [] {
      var front := cs[..|cs| - 1];
      InvalidIndicesSpec(front);
      assert forall k :: 0 <= k < |front| ==> front[k] == cs[k];
      var pre := InvalidIndices(front);
      forall i | 0 <= i < |pre|
        ensures pre[i] < |front|
      {
        assert pre[i] in pre;
      }
    }
  }

  /** The structure error is raised exactly when some block is invalid. */
  lemma InvalidIndicesEmptyIff(cs: seq<Value>)
    ensures InvalidIndices(cs) == [] <==> forall k :: 0 <= k < |cs| ==> ValidateComponent(cs[k])
  {
    InvalidIndicesSpec(cs);
    if InvalidIndices(cs) != [] {
      assert InvalidIndices(cs)[0] in InvalidIndices(cs);
    }
  }

  /** The `forEach` loop that pushes the index of every failing block. */
  method CollectInvalid(cs: seq<Value>) returns (invalid: seq<nat>)
    ensures invalid == InvalidIndices(cs)
    ensures StrictlyIncreasing(invalid)
    ensures forall k: nat :: k in invalid <==> k < |cs| && !ValidateComponent(cs[k])
  {
    invalid := [];
    var index := 0;
    while index < |cs|
      invariant 0 <= index <= |cs|
      invariant invalid == InvalidIndices(cs[..index])
    {
      assert cs[..index + 1][..index] == cs[..index];
      if !ValidateComponent(cs[index]) {
        invalid := invalid + [index];
      }
      index := index + 1;
    }
    assert cs[..|cs|] == cs;
    InvalidIndicesSpec(cs);
  }
}
