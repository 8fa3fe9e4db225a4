// The catalog search of the web application (app/main.py:107-111): the pattern
// and every catalog entry are lower-cased and the entries containing the
// pattern are kept, in catalog order. The HTML page built around the result
// is not part of this model.
module App {
  import opened Collections
  import opened Train
  import opened Recommender

  predicate IsUpper(c: char) {
    'A' <= c <= 'Z'
  }

  /** `str.lower` on one character, for the ASCII letters only. */
  function LowerChar(c: char): (d: char)
    ensures !IsUpper(d)
    ensures !IsUpper(c) ==> d == c
    ensures IsUpper(c) ==> d as int == c as int + 32
  {
    if IsUpper(c) then (c as int + 32) as char else c
  }

  /** `str.lower` on a whole string, for the ASCII letters only. */
  function Lower(s: string): (r: string)
    ensures |r| == |s|
    ensures forall k :: 0 <= k < |r| ==> !IsUpper(r[k])
    ensures forall k :: 0 <= k < |s| && !IsUpper(s[k]) ==> r[k] == s[k]
    ensures forall k :: 0 <= k < |s| && IsUpper(s[k]) ==> r[k] as int == s[k] as int + 32
  {
    seq(|s|, k requires 0 <= k < |s| => LowerChar(s[k]))
  }

  /** Lower-casing a string that is already lower case changes nothing. */
  lemma LowerIdempotent(s: string)
    ensures Lower(Lower(s)) == Lower(s)
  {
    var once := Lower(s);
    assert forall k :: 0 <= k < |once| ==> Lower(once)[k] == once[k];
  }

  /** `p` occurs in `s` as a contiguous substring. */
  predicate Contains(s: string, p: string) {
    exists i :: 0 <= i <= |s| && p <= s[i..]
  }

  /** Containment is transitive: a substring of a substring is a substring. */
  lemma ContainsTransitive(s: string, t: string, u: string)
    requires Contains(s, t) && Contains(t, u)
    ensures Contains(s, u)
  {
    var i :| 0 <= i <= |s| && t <= s[i..];
    var j :| 0 <= j <= |t| && u <= t[j..];
    assert s[i..][j..] == s[i + j..];
    forall k | 0 <= k < |u| ensures u[k] == s[i + j..][k] {
      assert u[k] == t[j + k] == s[i..][j + k];
    }
  }

  /** The characters `str.contains` reads as regular-expression syntax. */
  predicate IsRegexMeta(c: char) {
    c in ".^$*+?{}[]\\|()"
  }

  predicate NoRegexMeta(p: string) {
    forall k :: 0 <= k < |p| ==> !IsRegexMeta(p[k])
  }

  /** Whether a catalog entry matches the lower-cased pattern. */
  function Matches(game: ItemId, pattern: string): bool {
    Contains(Lower(game), Lower(pattern))
  }

  /**
   * `search_games`: the catalog entries whose lower-cased form contains the
   * lower-cased pattern, in catalog order. The pattern must be free of regular
   * expression syntax, so that the match is a plain substring test.
   */
  function SearchGames(rs: RecommenderSystem, pattern: string): (matched: seq<ItemId>)
    requires NoRegexMeta(pattern)
    ensures |matched| <= |ListGames(rs)|
    ensures forall g :: g in matched <==> g in ListGames(rs) && Contains(Lower(g), Lower(pattern))
  {
    Filter(ListGames(rs), g => Matches(g, pattern))
  }

  /** The empty pattern matches every entry, so the whole catalog comes back. */
  lemma SearchEmptyPattern(rs: RecommenderSystem)
    ensures SearchGames(rs, "") == ListGames(rs)
  {
    forall g | g in ListGames(rs) ensures Matches(g, "") {
      assert "" <= Lower(g)[0..];
    }
    FilterAll(ListGames(rs), g => Matches(g, ""));
  }

  /** Searching for a pattern or for its lower-cased form gives the same result. */
  lemma SearchCaseInsensitive(rs: RecommenderSystem, pattern: string)
    requires NoRegexMeta(pattern)
    ensures NoRegexMeta(Lower(pattern))
    ensures SearchGames(rs, pattern) == SearchGames(rs, Lower(pattern))
  {
    LowerIdempotent(pattern);
    FilterCongruent(ListGames(rs), g => Matches(g, pattern), g => Matches(g, Lower(pattern)));
  }

  /**
   * A longer pattern narrows the search: when the lower-cased `narrow` contains
   * the lower-cased `wide`, every entry found for `narrow` is found for `wide`.
   */
  lemma SearchNarrowing(rs: RecommenderSystem, wide: string, narrow: string)
    requires NoRegexMeta(wide) && NoRegexMeta(narrow)
    requires Contains(Lower(narrow), Lower(wide))
    ensures forall g :: g in SearchGames(rs, narrow) ==> g in SearchGames(rs, wide)
  {
    forall g | g in SearchGames(rs, narrow) ensures g in SearchGames(rs, wide) {
      ContainsTransitive(Lower(g), Lower(narrow), Lower(wide));
    }
  }

  /**
   * The result keeps catalog order: over a catalog without repeats, the matched
   * entries are distinct and appear in the order the catalog lists them.
   */
  lemma SearchKeepsCatalogOrder(rs: RecommenderSystem, pattern: string)
    requires NoRegexMeta(pattern)
    requires NoDuplicates(ListGames(rs))
    ensures var matched := SearchGames(rs, pattern);
      && NoDuplicates(matched)
      && forall i, j :: 0 <= i < j < |matched| ==>
           FirstIndex(ListGames(rs), matched[i]) < FirstIndex(ListGames(rs), matched[j])
  {
    FilterKeepsOrder(ListGames(rs), g => Matches(g, pattern));
  }

  /** A matching entry is returned as often as the catalog lists it, a non-matching one never. */
  lemma SearchMultiplicity(rs: RecommenderSystem, pattern: string, g: ItemId)
    requires NoRegexMeta(pattern)
    ensures multiset(SearchGames(rs, pattern))[g] ==
      if Contains(Lower(g), Lower(pattern)) then multiset(ListGames(rs))[g] else 0
  {
    FilterMultiplicity(ListGames(rs), g => Matches(g, pattern), g);
  }
}
