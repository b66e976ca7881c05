/** Filtering libraries by a list of tag queries, case-insensitively, with the
    two strategies of the catalog search: every query matched exactly, or
    every query but the last matched exactly and the last one (still being
    typed) matched as a substring. */
module TagFilter {
  import opened JsString
  import opened Catalog
  import Seqs

  /** Some tag of the library equals `query`, ignoring case. */
  predicate HasExactTag(lib: Library, query: string) {
    exists i :: 0 <= i < |lib.tags| && Lower(lib.tags[i]) == Lower(query)
  }

  /** Some tag of the library contains `query`, ignoring case. */
  predicate HasTagContaining(lib: Library, query: string) {
    exists i :: 0 <= i < |lib.tags| && Contains(Lower(lib.tags[i]), Lower(query))
  }

  /** Every query is some tag of the library, ignoring case. */
  predicate MatchesAllExact(lib: Library, queries: seq<string>) {
    forall i :: 0 <= i < |queries| ==> HasExactTag(lib, queries[i])
  }

  /** Every query but the last is a tag; the last is part of a tag. */
  predicate MatchesFinalInclusive(lib: Library, queries: seq<string>)
    requires |queries| > 0
  {
    MatchesAllExact(lib, queries[..|queries| - 1]) && HasTagContaining(lib, queries[|queries| - 1])
  }

  /** Matching ignores the case of the query: a query and its lower-cased
      form select the same libraries. */
  lemma TagMatchingIgnoresQueryCase(lib: Library, query: string)
    ensures HasExactTag(lib, Lower(query)) == HasExactTag(lib, query)
    ensures HasTagContaining(lib, Lower(query)) == HasTagContaining(lib, query)
  {
    LowerIdempotent(query);
  }

  /** `filterTagsByExactQueryMatchesOnly`: one filter pass per query, in order. */
  function FilterTagsByExactQueryMatchesOnly(libs: seq<Library>, queries: seq<string>): (r: seq<Library>)
    ensures Seqs.IsSubsequence(r, libs)
    ensures |queries| == 0 ==> r == libs
    decreases |queries|
  {
    if |queries| == 0 then
      Seqs.SubsequenceReflexive(libs);
      libs
    else
      var kept := Seqs.Filter(libs, (lib: Library) => HasExactTag(lib, queries[0]));
      var r := FilterTagsByExactQueryMatchesOnly(kept, queries[1..]);
      Seqs.SubsequenceTransitive(r, kept, libs);
      r
  }

  /** `filterTagsWithFinalQueryInclusiveMatching`: the exact passes for all
      queries but the last, then one substring pass for the last. The source
      reads the last query unconditionally, so the list must not be empty. */
  function FilterTagsWithFinalQueryInclusiveMatching(libs: seq<Library>, queries: seq<string>)
    : (r: seq<Library>)
    requires |queries| > 0
    ensures Seqs.IsSubsequence(r, libs)
  {
    var last := queries[|queries| - 1];
    var exact := FilterTagsByExactQueryMatchesOnly(libs, queries[..|queries| - 1]);
    var r := Seqs.Filter(exact, (lib: Library) => HasTagContaining(lib, last));
    Seqs.SubsequenceTransitive(r, exact, libs);
    r
  }

  /** The progressive exact filter keeps, in order, exactly the libraries
      that match every query. */
  lemma {:induction false} ExactFilterSelects(libs: seq<Library>, queries: seq<string>)
    ensures FilterTagsByExactQueryMatchesOnly(libs, queries) ==
            Seqs.Filter(libs, (lib: Library) => MatchesAllExact(lib, queries))
    decreases |queries|
  {
    if |queries| == 0 {
      Seqs.FilterKeepsAll(libs, (lib: Library) => MatchesAllExact(lib, queries));
    } else {
      var kept := Seqs.Filter(libs, (lib: Library) => HasExactTag(lib, queries[0]));
      ExactFilterSelects(kept, queries[1..]);
      forall lib: Library
        ensures MatchesAllExact(lib, queries) ==
                (HasExactTag(lib, queries[0]) && MatchesAllExact(lib, queries[1..]))
      {
        assert forall i :: 1 <= i < |queries| ==> queries[1..][i - 1] == queries[i];
      }
      Seqs.FilterFilter(libs,
                        (lib: Library) => HasExactTag(lib, queries[0]),
                        (lib: Library) => MatchesAllExact(lib, queries[1..]),
                        (lib: Library) => MatchesAllExact(lib, queries));
    }
  }

  /** The inclusive filter keeps, in order, exactly the libraries whose tags
      match every query but the last and contain the last. */
  lemma FinalInclusiveFilterSelects(libs: seq<Library>, queries: seq<string>)
    requires |queries| > 0
    ensures FilterTagsWithFinalQueryInclusiveMatching(libs, queries) ==
            Seqs.Filter(libs, (lib: Library) => MatchesFinalInclusive(lib, queries))
  {
    var n := |queries| - 1;
    ExactFilterSelects(libs, queries[..n]);
    Seqs.FilterFilter(libs,
                      (lib: Library) => MatchesAllExact(lib, queries[..n]),
                      (lib: Library) => HasTagContaining(lib, queries[n]),
                      (lib: Library) => MatchesFinalInclusive(lib, queries));
  }

  /** Finishing the last tag with a comma can only narrow the result: the
      exact strategy keeps a subsequence of what the inclusive one keeps. */
  lemma ExactNarrowsFinalInclusive(libs: seq<Library>, queries: seq<string>)
    requires |queries| > 0
    ensures Seqs.IsSubsequence(FilterTagsByExactQueryMatchesOnly(libs, queries),
                               FilterTagsWithFinalQueryInclusiveMatching(libs, queries))
  {
    var n := |queries| - 1;
    ExactFilterSelects(libs, queries);
    FinalInclusiveFilterSelects(libs, queries);
    forall lib: Library | MatchesAllExact(lib, queries)
      ensures MatchesFinalInclusive(lib, queries)
    {
      assert HasExactTag(lib, queries[n]);
      var i :| 0 <= i < |lib.tags| && Lower(lib.tags[i]) == Lower(queries[n]);
      ContainsSelf(Lower(queries[n]));
      assert forall j :: 0 <= j < n ==> queries[..n][j] == queries[j];
    }
    Seqs.FilterMonotone(libs, (lib: Library) => MatchesAllExact(lib, queries),
                        (lib: Library) => MatchesFinalInclusive(lib, queries));
  }

  // ---------------------------------------------------------------------
  // Tokenising the raw tag query
  // ---------------------------------------------------------------------

  function TrimAll(pieces: seq<string>): (r: seq<string>)
    ensures |r| == |pieces|
    ensures forall i :: 0 <= i < |r| ==> r[i] == Trim(pieces[i])
  {
    seq(|pieces|, i requires 0 <= i < |pieces| => Trim(pieces[i]))
  }

  /** The tokens of a raw tag query: split on commas, trim each piece and
      discard the pieces that trim to nothing. Each token is non-empty,
      trimmed and comma-free, and there is at most one per comma-separated piece. */
  function TagTokens(tagQuery: string): (r: seq<string>)
    ensures forall i :: 0 <= i < |r| ==> r[i] != "" && IsTrimmed(r[i]) && ',' !in r[i]
    ensures |r| <= |Split(tagQuery, ',')|
  {
    var pieces := Split(tagQuery, ',');
    var r := Seqs.Filter(TrimAll(pieces), (t: string) => t != "");
    TokensComeFromPieces(pieces, r);
    r
  }

  lemma TokensComeFromPieces(pieces: seq<string>, r: seq<string>)
    requires forall i :: 0 <= i < |pieces| ==> ',' !in pieces[i]
    requires r == Seqs.Filter(TrimAll(pieces), (t: string) => t != "")
    ensures forall i :: 0 <= i < |r| ==> r[i] != "" && IsTrimmed(r[i]) && ',' !in r[i]
    ensures |r| <= |pieces|
  {
    var trimmed := TrimAll(pieces);
    Seqs.SubsequenceLength(r, trimmed);
    forall i | 0 <= i < |r|
      ensures r[i] != "" && IsTrimmed(r[i]) && ',' !in r[i]
    {
      Seqs.FilterMembership(trimmed, (t: string) => t != "", r[i]);
      var j :| 0 <= j < |trimmed| && trimmed[j] == r[i];
      TrimOmitsAbsent(pieces[j], ',');
    }
  }

  /** A clean tag: non-empty, trimmed and comma-free. */
  predicate IsCleanTag(tag: string) {
    tag != "" && IsTrimmed(tag) && ',' !in tag
  }

  /** Clean tags pass through trimming and the empty-token filter unchanged. */
  lemma CleanTagsSurvive(tags: seq<string>)
    requires forall i :: 0 <= i < |tags| ==> IsCleanTag(tags[i])
    ensures Seqs.Filter(TrimAll(tags), (t: string) => t != "") == tags
  {
    forall i | 0 <= i < |tags| ensures Trim(tags[i]) == tags[i] {
      TrimTrimmed(tags[i]);
    }
    assert TrimAll(tags) == tags;
    Seqs.FilterKeepsAll(tags, (t: string) => t != "");
  }

  /** The tokens of a comma-joined query are its pieces, each trimmed, with
      the blank ones dropped, in order: `"react, test ,"` has the pieces
      `"react"`, `" test "` and `""`, and so the tokens `"react"` and `"test"`. */
  lemma TagTokensOfPieces(pieces: seq<string>)
    requires |pieces| >= 1
    requires forall i :: 0 <= i < |pieces| ==> ',' !in pieces[i]
    ensures TagTokens(Join(pieces, ',')) == Seqs.Filter(TrimAll(pieces), (t: string) => t != "")
  {
    SplitJoin(pieces, ',');
  }

  /** Tokenising a comma-joined list of clean tags gives back the tags. */
  lemma TagTokensOfJoin(tags: seq<string>)
    requires |tags| >= 1
    requires forall i :: 0 <= i < |tags| ==> IsCleanTag(tags[i])
    ensures TagTokens(Join(tags, ',')) == tags
  {
    TagTokensOfPieces(tags);
    CleanTagsSurvive(tags);
  }

  /** A trailing comma adds no token: the same tags come back. */
  lemma TagTokensOfJoinWithTrailingComma(tags: seq<string>)
    requires |tags| >= 1
    requires forall i :: 0 <= i < |tags| ==> IsCleanTag(tags[i])
    ensures TagTokens(Join(tags, ',') + ",") == tags
  {
    var query := Join(tags, ',') + ",";
    SplitWithTrailingComma(tags);
    TrimAllAppendEmpty(tags);
    var trimmed := TrimAll(tags);
    Seqs.FilterConcat(trimmed, [""], (t: string) => t != "");
    CleanTagsSurvive(tags);
    assert Seqs.Filter([""], (t: string) => t != "") == [];
  }

  lemma SplitWithTrailingComma(tags: seq<string>)
    requires |tags| >= 1
    requires forall i :: 0 <= i < |tags| ==> IsCleanTag(tags[i])
    ensures Split(Join(tags, ',') + ",", ',') == tags + [""]
  {
    var padded := tags + [""];
    JoinAppendEmpty(tags, ',');
    forall i | 0 <= i < |padded| ensures ',' !in padded[i] {
      if i < |tags| {
        assert padded[i] == tags[i] && IsCleanTag(tags[i]);
      }
    }
    SplitJoin(padded, ',');
  }

  lemma TrimAllAppendEmpty(pieces: seq<string>)
    ensures TrimAll(pieces + [""]) == TrimAll(pieces) + [""]
  {
    var padded := pieces + [""];
    assert Trim("") == "";
    forall i | 0 <= i < |padded| ensures TrimAll(padded)[i] == (TrimAll(pieces) + [""])[i] {
      if i < |pieces| {
        assert padded[i] == pieces[i];
      }
    }
  }
}
