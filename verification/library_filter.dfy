/** `filterLibraryData`: the catalog search. Three stages run in a fixed
    order, each narrowing the list the previous one produced:
    checklist section-tier completion, then the tag query, then the name. */
module LibraryFilter {
  import opened Wrappers
  import opened JsString
  import opened Catalog
  import opened Recency
  import opened Checklist
  import opened TagFilter
  import Seqs

  // ---------------------------------------------------------------------
  // Stage 1: section-tier completion
  // ---------------------------------------------------------------------

  /** `const [section, tier] = token.split('-')`: the first two dash-separated
      parts. Without a dash the tier is `undefined`, which as a property key
      reads as the string "undefined". */
  function ParseSectionTier(token: string): (r: (string, string))
    ensures '-' !in r.0 && '-' !in r.1
    ensures '-' !in token ==> r == (token, "undefined")
  {
    var parts := Split(token, '-');
    if '-' !in token then
      SplitFreePrefix(token, "", '-');
      assert token + "" == token;
      (parts[0], "undefined")
    else
      (parts[0], if |parts| >= 2 then parts[1] else "undefined")
  }

  /** Only the first two parts count: `a-b`, `a-b-c`, `a-b-c-d`… all name
      section `a`, tier `b`. */
  lemma ParseSectionTierOfParts(section: string, tier: string, rest: string)
    requires '-' !in section && '-' !in tier
    requires rest == "" || rest[0] == '-'
    ensures ParseSectionTier(section + "-" + tier + rest) == (section, tier)
  {
    var token := section + "-" + tier + rest;
    var afterSection := "-" + tier + rest;
    assert token == section + afterSection;
    assert afterSection[1..] == tier + rest;
    assert Split(rest, '-')[0] == "";
    SplitFreePrefix(tier, rest, '-');
    assert Split(tier + rest, '-')[0] == tier;
    assert Split(afterSection, '-') == [""] + Split(tier + rest, '-');
    SplitFreePrefix(section, afterSection, '-');
    var parts := Split(token, '-');
    assert parts[0] == section && parts[1] == tier;
    assert '-' in token by {
      assert token[|section|] == '-';
    }
  }

  /** The checklist items of `section`/`tier` in the library's most recent
      evaluation, when the library has one and the path exists. */
  function TierItemsOf(lib: Library, section: string, tier: string): Option<TierItems> {
    match MostRecentEvaluation(lib.evaluations)
    case None => None
    case Some(evaluation) =>
      match Lookup(evaluation.checklist, section)
      case None => None
      case Some(tiers) => Lookup(tiers, tier)
  }

  /** The filter callback of the section-tier stage: whether every item of
      the tier is checked, or the error the unguarded property access throws. */
  function TierComplete(lib: Library, section: string, tier: string): (r: Result<bool, Error>)
    ensures |lib.evaluations| == 0 ==> r == Failure(NoEvaluation)
    ensures r.Success? <==> TierItemsOf(lib, section, tier).Some?
    ensures r.Success? ==>
              var score := MungeChecklistValue(TierItemsOf(lib, section, tier).value);
              r.value <==> score.numerator == score.denominator
  {
    match MostRecentEvaluation(lib.evaluations)
    case None => Failure(NoEvaluation)
    case Some(evaluation) =>
      match Lookup(evaluation.checklist, section)
      case None => Failure(MissingChecklistPath)
      case Some(tiers) =>
        match Lookup(tiers, tier)
        case None => Failure(MissingChecklistPath)
        case Some(items) => Success(AllChecked(items))
  }

  /** One `.filter` pass of the section-tier stage: the first library whose
      callback throws aborts the pass. */
  function FilterByTier(libs: seq<Library>, section: string, tier: string): (r: Result<seq<Library>, Error>)
    ensures r.Success? <==> forall i :: 0 <= i < |libs| ==> TierComplete(libs[i], section, tier).Success?
    ensures r.Success? ==>
              r.value == Seqs.Filter(libs, (lib: Library) => TierComplete(lib, section, tier) == Success(true))
    decreases |libs|
  {
    if |libs| == 0 then Success([])
    else
      assert forall i :: 1 <= i < |libs| ==> libs[1..][i - 1] == libs[i];
      match TierComplete(libs[0], section, tier)
      case Failure(e) => Failure(e)
      case Success(keep) =>
        match FilterByTier(libs[1..], section, tier)
        case Failure(e) => Failure(e)
        case Success(rest) => Success(if keep then [libs[0]] + rest else rest)
  }

  /** The library's most recent evaluation completes the tier named by `token`. */
  predicate CompletesToken(lib: Library, token: string) {
    var st := ParseSectionTier(token);
    TierComplete(lib, st.0, st.1) == Success(true)
  }

  /** The library completes every requested tier. */
  predicate CompletesAll(lib: Library, tokens: seq<string>) {
    forall i :: 0 <= i < |tokens| ==> CompletesToken(lib, tokens[i])
  }

  /** Checking the library throws at no token it is still checked against:
      it either completes every tier or fails one without error before any
      check that would throw. */
  predicate NeverFails(lib: Library, tokens: seq<string>)
    decreases |tokens|
  {
    |tokens| == 0 ||
    var st := ParseSectionTier(tokens[0]);
    match TierComplete(lib, st.0, st.1)
    case Failure(_) => false
    case Success(complete) => !complete || NeverFails(lib, tokens[1..])
  }

  /** The section-tier stage: one filter pass per token, in order. */
  function FilterBySectionTiers(libs: seq<Library>, tokens: seq<string>): (r: Result<seq<Library>, Error>)
    ensures r.Success? ==> Seqs.IsSubsequence(r.value, libs)
    ensures |tokens| == 0 ==> r == Success(libs)
    decreases |tokens|
  {
    if |tokens| == 0 then
      Seqs.SubsequenceReflexive(libs);
      Success(libs)
    else
      var st := ParseSectionTier(tokens[0]);
      var kept :- FilterByTier(libs, st.0, st.1);
      var r := FilterBySectionTiers(kept, tokens[1..]);
      if r.Success? then
        Seqs.SubsequenceTransitive(r.value, kept, libs);
        r
      else r
  }

  /** When the first check does not throw, the library never fails exactly
      when it is dropped by the first token or never fails on the rest. */
  lemma NeverFailsStep(lib: Library, tokens: seq<string>)
    requires |tokens| > 0
    requires var st := ParseSectionTier(tokens[0]); TierComplete(lib, st.0, st.1).Success?
    ensures NeverFails(lib, tokens) <==> !CompletesToken(lib, tokens[0]) || NeverFails(lib, tokens[1..])
  {
  }

  lemma CompletesAllStep(lib: Library, tokens: seq<string>)
    requires |tokens| > 0
    ensures CompletesAll(lib, tokens) <==> CompletesToken(lib, tokens[0]) && CompletesAll(lib, tokens[1..])
  {
    assert forall j :: 1 <= j < |tokens| ==> tokens[1..][j - 1] == tokens[j];
  }

  /** One step of the stage: the first token's pass, then the rest on its
      survivors. */
  lemma FilterBySectionTiersStep(libs: seq<Library>, tokens: seq<string>)
    requires |tokens| > 0
    ensures var st := ParseSectionTier(tokens[0]);
            var step := FilterByTier(libs, st.0, st.1);
            FilterBySectionTiers(libs, tokens) ==
            if step.Failure? then Failure(step.error) else FilterBySectionTiers(step.value, tokens[1..])
  {
  }

  /** The whole stage succeeds exactly when no library throws while it is
      still being checked, and then keeps, in order, exactly the libraries
      that complete every requested tier. */
  lemma {:induction false} FilterBySectionTiersSelects(libs: seq<Library>, tokens: seq<string>)
    ensures FilterBySectionTiers(libs, tokens).Success? <==>
            forall i :: 0 <= i < |libs| ==> NeverFails(libs[i], tokens)
    ensures FilterBySectionTiers(libs, tokens).Success? ==>
            FilterBySectionTiers(libs, tokens).value ==
            Seqs.Filter(libs, (lib: Library) => CompletesAll(lib, tokens))
    decreases |tokens|
  {
    if |tokens| == 0 {
      Seqs.FilterKeepsAll(libs, (lib: Library) => CompletesAll(lib, tokens));
    } else {
      var st := ParseSectionTier(tokens[0]);
      var pass := (lib: Library) => TierComplete(lib, st.0, st.1) == Success(true);
      var step := FilterByTier(libs, st.0, st.1);
      FilterBySectionTiersStep(libs, tokens);
      if step.Success? {
        var kept := step.value;
        FilterBySectionTiersSelects(kept, tokens[1..]);
        SurvivorsNeverFail(libs, kept, tokens);
        forall i | 0 <= i < |libs|
          ensures CompletesAll(libs[i], tokens) ==
                  (pass(libs[i]) && CompletesAll(libs[i], tokens[1..]))
        {
          CompletesAllStep(libs[i], tokens);
        }
        Seqs.FilterFilter(libs, pass,
                          (lib: Library) => CompletesAll(lib, tokens[1..]),
                          (lib: Library) => CompletesAll(lib, tokens));
      } else {
        var i :| 0 <= i < |libs| && TierComplete(libs[i], st.0, st.1).Failure?;
        assert !NeverFails(libs[i], tokens);
      }
    }
  }

  /** After a successful pass over the first token, "no library of `libs`
      throws later" is "no survivor throws on the remaining tokens". */
  lemma SurvivorsNeverFail(libs: seq<Library>, kept: seq<Library>, tokens: seq<string>)
    requires |tokens| > 0
    requires var st := ParseSectionTier(tokens[0]);
             FilterByTier(libs, st.0, st.1) == Success(kept)
    ensures (forall i :: 0 <= i < |libs| ==> NeverFails(libs[i], tokens)) <==>
            (forall j :: 0 <= j < |kept| ==> NeverFails(kept[j], tokens[1..]))
  {
    if forall i :: 0 <= i < |libs| ==> NeverFails(libs[i], tokens) {
      SurvivorsInherit(libs, kept, tokens);
    }
    if forall j :: 0 <= j < |kept| ==> NeverFails(kept[j], tokens[1..]) {
      SurvivorsDecide(libs, kept, tokens);
    }
  }

  lemma SurvivorsInherit(libs: seq<Library>, kept: seq<Library>, tokens: seq<string>)
    requires |tokens| > 0
    requires var st := ParseSectionTier(tokens[0]);
             FilterByTier(libs, st.0, st.1) == Success(kept)
    requires forall i :: 0 <= i < |libs| ==> NeverFails(libs[i], tokens)
    ensures forall j :: 0 <= j < |kept| ==> NeverFails(kept[j], tokens[1..])
  {
    var st := ParseSectionTier(tokens[0]);
    var pass := (lib: Library) => TierComplete(lib, st.0, st.1) == Success(true);
    assert kept == Seqs.Filter(libs, pass);
    forall j | 0 <= j < |kept| ensures NeverFails(kept[j], tokens[1..]) {
      Seqs.FilterMembership(libs, pass, kept[j]);
      var i :| 0 <= i < |libs| && libs[i] == kept[j];
      NeverFailsStep(libs[i], tokens);
    }
  }

  lemma SurvivorsDecide(libs: seq<Library>, kept: seq<Library>, tokens: seq<string>)
    requires |tokens| > 0
    requires var st := ParseSectionTier(tokens[0]);
             FilterByTier(libs, st.0, st.1) == Success(kept)
    requires forall j :: 0 <= j < |kept| ==> NeverFails(kept[j], tokens[1..])
    ensures forall i :: 0 <= i < |libs| ==> NeverFails(libs[i], tokens)
  {
    var st := ParseSectionTier(tokens[0]);
    var pass := (lib: Library) => TierComplete(lib, st.0, st.1) == Success(true);
    assert kept == Seqs.Filter(libs, pass);
    forall i | 0 <= i < |libs| ensures NeverFails(libs[i], tokens) {
      NeverFailsStep(libs[i], tokens);
      if pass(libs[i]) {
        Seqs.FilterMembership(libs, pass, libs[i]);
        var j :| 0 <= j < |kept| && kept[j] == libs[i];
      }
    }
  }

  // ---------------------------------------------------------------------
  // Stage 2: tag query
  // ---------------------------------------------------------------------

  /** Whether the tag stage keeps the library: a trailing comma selects the
      exact strategy, anything else the final-inclusive one. */
  predicate TagSelects(lib: Library, tagQuery: string) {
    tagQuery == "" ||
    var tokens := TagTokens(tagQuery);
    if EndsWith(tagQuery, ',') then MatchesAllExact(lib, tokens)
    else |tokens| > 0 && MatchesFinalInclusive(lib, tokens)
  }

  /** The tag stage fails when the query has no token, no trailing comma, and
      some library has a tag: the inclusive filter then reads `undefined`. */
  predicate TagQueryFails(libs: seq<Library>, tagQuery: string) {
    && tagQuery != ""
    && !EndsWith(tagQuery, ',')
    && TagTokens(tagQuery) == []
    && exists i :: 0 <= i < |libs| && |libs[i].tags| > 0
  }

  /** The tag stage of `filterLibraryData`. */
  function FilterByTagQuery(libs: seq<Library>, tagQuery: string): (r: Result<seq<Library>, Error>)
    ensures r.Success? ==> Seqs.IsSubsequence(r.value, libs)
    ensures tagQuery == "" ==> r == Success(libs)
    ensures r.Failure? <==> TagQueryFails(libs, tagQuery)
    ensures r.Failure? ==> r.error == UndefinedTagQuery
  {
    if tagQuery == "" then
      Seqs.SubsequenceReflexive(libs);
      Success(libs)
    else
      var tokens := TagTokens(tagQuery);
      if EndsWith(tagQuery, ',') then Success(FilterTagsByExactQueryMatchesOnly(libs, tokens))
      else if |tokens| == 0 then
        if exists i :: 0 <= i < |libs| && |libs[i].tags| > 0 then Failure(UndefinedTagQuery)
        else Success([])
      else Success(FilterTagsWithFinalQueryInclusiveMatching(libs, tokens))
  }

  /** When the tag stage succeeds it keeps, in order, exactly the libraries
      the query selects. */
  lemma FilterByTagQuerySelects(libs: seq<Library>, tagQuery: string)
    ensures FilterByTagQuery(libs, tagQuery).Success? ==>
            FilterByTagQuery(libs, tagQuery).value ==
            Seqs.Filter(libs, (lib: Library) => TagSelects(lib, tagQuery))
  {
    var selects := (lib: Library) => TagSelects(lib, tagQuery);
    if tagQuery == "" {
      Seqs.FilterKeepsAll(libs, selects);
    } else {
      var tokens := TagTokens(tagQuery);
      if EndsWith(tagQuery, ',') {
        ExactFilterSelects(libs, tokens);
        Seqs.FilterExtensional(libs, (lib: Library) => MatchesAllExact(lib, tokens), selects);
      } else if |tokens| == 0 {
        if !TagQueryFails(libs, tagQuery) {
          Seqs.FilterKeepsNone(libs, selects);
        }
      } else {
        FinalInclusiveFilterSelects(libs, tokens);
        Seqs.FilterExtensional(libs, (lib: Library) => MatchesFinalInclusive(lib, tokens), selects);
      }
    }
  }

  // ---------------------------------------------------------------------
  // Stage 3: name
  // ---------------------------------------------------------------------

  /** The library's name contains the text query, ignoring case. */
  predicate NameMatches(lib: Library, textQuery: string) {
    Contains(Lower(lib.name), Lower(textQuery))
  }

  /** The name stage of `filterLibraryData`; the description is not searched. */
  function FilterByName(libs: seq<Library>, textQuery: string): (r: seq<Library>)
    ensures Seqs.IsSubsequence(r, libs)
    ensures textQuery == "" ==> r == libs
    ensures forall i :: 0 <= i < |r| ==> NameMatches(r[i], textQuery)
  {
    if textQuery == "" then
      Seqs.SubsequenceReflexive(libs);
      libs
    else Seqs.Filter(libs, (lib: Library) => NameMatches(lib, textQuery))
  }

  /** Skipping the stage for an empty query changes nothing: every name
      contains the empty string. */
  lemma FilterByNameSelects(libs: seq<Library>, textQuery: string)
    ensures FilterByName(libs, textQuery) == Seqs.Filter(libs, (lib: Library) => NameMatches(lib, textQuery))
  {
    if textQuery == "" {
      Seqs.FilterKeepsAll(libs, (lib: Library) => NameMatches(lib, textQuery));
    }
  }

  // ---------------------------------------------------------------------
  // The composite filter
  // ---------------------------------------------------------------------

  /** `filterLibraryData`, with the library list of the dataset passed in. */
  function FilterLibraryData(libraries: seq<Library>, textQuery: string, tagQuery: string,
                             sectionTierQuery: seq<string>): (r: Result<seq<Library>, Error>)
    ensures r.Success? ==> Seqs.IsSubsequence(r.value, libraries)
    ensures textQuery == "" && tagQuery == "" && |sectionTierQuery| == 0 ==> r == Success(libraries)
  {
    var completed :- FilterBySectionTiers(libraries, sectionTierQuery);
    var tagged :- FilterByTagQuery(completed, tagQuery);
    var named := FilterByName(tagged, textQuery);
    Seqs.SubsequenceTransitive(named, tagged, completed);
    Seqs.SubsequenceTransitive(named, completed, libraries);
    Success(named)
  }

  /** What the search keeps: every requested tier complete, the tag query
      matched, the name matched. */
  predicate Selected(lib: Library, textQuery: string, tagQuery: string, sectionTierQuery: seq<string>) {
    CompletesAll(lib, sectionTierQuery) && TagSelects(lib, tagQuery) && NameMatches(lib, textQuery)
  }

  /** A successful search returns, in catalog order, exactly the selected libraries. */
  lemma FilterLibraryDataSelects(libraries: seq<Library>, textQuery: string, tagQuery: string,
                                 sectionTierQuery: seq<string>)
    ensures var r := FilterLibraryData(libraries, textQuery, tagQuery, sectionTierQuery);
            r.Success? ==>
            r.value == Seqs.Filter(libraries, (lib: Library) => Selected(lib, textQuery, tagQuery, sectionTierQuery))
  {
    if FilterLibraryData(libraries, textQuery, tagQuery, sectionTierQuery).Success? {
      FilterLibraryDataSelectsOnSuccess(libraries, textQuery, tagQuery, sectionTierQuery);
    }
  }

  lemma FilterLibraryDataSelectsOnSuccess(libraries: seq<Library>, textQuery: string, tagQuery: string,
                                          sectionTierQuery: seq<string>)
    requires FilterLibraryData(libraries, textQuery, tagQuery, sectionTierQuery).Success?
    ensures FilterLibraryData(libraries, textQuery, tagQuery, sectionTierQuery).value ==
            Seqs.Filter(libraries, (lib: Library) => Selected(lib, textQuery, tagQuery, sectionTierQuery))
  {
    var completes := (lib: Library) => CompletesAll(lib, sectionTierQuery);
    var tags := (lib: Library) => TagSelects(lib, tagQuery);
    var names := (lib: Library) => NameMatches(lib, textQuery);
    var both := (lib: Library) => CompletesAll(lib, sectionTierQuery) && TagSelects(lib, tagQuery);
    FilterBySectionTiersSelects(libraries, sectionTierQuery);
    var completed := FilterBySectionTiers(libraries, sectionTierQuery).value;
    FilterByTagQuerySelects(completed, tagQuery);
    var tagged := FilterByTagQuery(completed, tagQuery).value;
    FilterByNameSelects(tagged, textQuery);
    Seqs.FilterFilter(libraries, completes, tags, both);
    Seqs.FilterFilter(libraries, both, names,
                      (lib: Library) => Selected(lib, textQuery, tagQuery, sectionTierQuery));
  }

  /** The search fails exactly when the section-tier stage fails, or it
      succeeds and the tag stage then fails on its survivors. */
  lemma FilterLibraryDataStages(libraries: seq<Library>, textQuery: string, tagQuery: string,
                                sectionTierQuery: seq<string>)
    ensures var stage := FilterBySectionTiers(libraries, sectionTierQuery);
            FilterLibraryData(libraries, textQuery, tagQuery, sectionTierQuery).Failure? <==>
            stage.Failure? || FilterByTagQuery(stage.value, tagQuery).Failure?
  {
  }

  /** The search fails exactly when a library throws in the section-tier
      stage, or a token-less tag query without trailing comma meets a
      tagged library that completed every tier. */
  lemma FilterLibraryDataFails(libraries: seq<Library>, textQuery: string, tagQuery: string,
                               sectionTierQuery: seq<string>)
    ensures FilterLibraryData(libraries, textQuery, tagQuery, sectionTierQuery).Failure? <==>
            || (exists i :: 0 <= i < |libraries| && !NeverFails(libraries[i], sectionTierQuery))
            || (&& tagQuery != ""
                && !EndsWith(tagQuery, ',')
                && TagTokens(tagQuery) == []
                && exists i :: 0 <= i < |libraries| && CompletesAll(libraries[i], sectionTierQuery) &&
                               |libraries[i].tags| > 0)
  {
    FilterLibraryDataStages(libraries, textQuery, tagQuery, sectionTierQuery);
    FilterBySectionTiersSelects(libraries, sectionTierQuery);
    var stage := FilterBySectionTiers(libraries, sectionTierQuery);
    if stage.Success? {
      var completes := (lib: Library) => CompletesAll(lib, sectionTierQuery);
      var completed := stage.value;
      assert completed == Seqs.Filter(libraries, completes);
      forall lib
        ensures lib in completed <==> lib in libraries && completes(lib)
      {
        Seqs.FilterMembership(libraries, completes, lib);
      }
      assert (exists j :: 0 <= j < |completed| && |completed[j].tags| > 0) <==>
             (exists i :: 0 <= i < |libraries| && CompletesAll(libraries[i], sectionTierQuery) &&
                          |libraries[i].tags| > 0);
    }
  }

  // ---------------------------------------------------------------------
  // Worked examples
  // ---------------------------------------------------------------------

  /** A query with a trailing comma and no other stage keeps the libraries
      having that exact tag, ignoring case ("vue," keeps the "vue"/"Vue" ones). */
  lemma TrailingCommaSelectsExactTag(libraries: seq<Library>, tag: string)
    requires IsCleanTag(tag)
    ensures FilterLibraryData(libraries, "", tag + ",", []) ==
            Success(Seqs.Filter(libraries, (lib: Library) => HasExactTag(lib, tag)))
  {
    TagTokensOfJoinWithTrailingComma([tag]);
    assert Join([tag], ',') == tag;
    assert TagTokens(tag + ",") == [tag];
    var tagged := FilterByTagQuery(libraries, tag + ",").value;
    FilterByTagQuerySelects(libraries, tag + ",");
    Seqs.FilterExtensional(libraries, (lib: Library) => TagSelects(lib, tag + ","),
                           (lib: Library) => HasExactTag(lib, tag));
  }

  /** A name query alone keeps, in order, the libraries whose name contains it. */
  lemma NameQueryAlone(libraries: seq<Library>, textQuery: string)
    ensures FilterLibraryData(libraries, textQuery, "", []) ==
            Success(Seqs.Filter(libraries, (lib: Library) => NameMatches(lib, textQuery)))
  {
    FilterByNameSelects(libraries, textQuery);
  }

  /** An unfinished last token only has to be part of a tag. */
  lemma UnfinishedLastTokenMatchesPartOfTag(lib: Library, first: string, last: string)
    requires IsCleanTag(first) && IsCleanTag(last)
    requires HasExactTag(lib, first) && HasTagContaining(lib, last)
    ensures FilterByTagQuery([lib], first + "," + last) == Success([lib])
  {
    var tags := [first, last];
    var query := first + "," + last;
    assert Join(tags, ',') == query;
    TagTokensOfJoin(tags);
    assert tags[..1] == [first];
    assert !EndsWith(query, ',') by {
      assert query[|query| - 1] == last[|last| - 1];
    }
    assert TagSelects(lib, query);
    FilterByTagQuerySelects([lib], query);
    Seqs.FilterKeepsAll([lib], (l: Library) => TagSelects(l, query));
  }

  /** Once a trailing comma finishes the last token, it has to be a whole tag. */
  lemma FinishedLastTokenNeedsWholeTag(lib: Library, first: string, last: string)
    requires IsCleanTag(first) && IsCleanTag(last)
    requires !HasExactTag(lib, last)
    ensures FilterByTagQuery([lib], first + "," + last + ",") == Success([])
  {
    var tags := [first, last];
    var query := first + "," + last + ",";
    assert Join(tags, ',') + "," == query;
    TagTokensOfJoinWithTrailingComma(tags);
    assert !TagSelects(lib, query) by {
      assert !MatchesAllExact(lib, tags) by {
        assert tags[1] == last;
      }
    }
    FilterByTagQuerySelects([lib], query);
    assert Seqs.Filter([lib], (l: Library) => TagSelects(l, query)) == [];
  }

  /** The tags ["react", "testing-library"] have "react" as a whole tag and
      "test" only as part of one, so "react,test" keeps the library and
      "react,test," drops it. */
  lemma ReactTestExample()
    ensures var lib := Library("example", "", ["react", "testing-library"], [], []);
            && HasExactTag(lib, "react")
            && HasTagContaining(lib, "test")
            && !HasExactTag(lib, "test")
            && FilterByTagQuery([lib], "react,test") == Success([lib])
            && FilterByTagQuery([lib], "react,test,") == Success([])
  {
    var lib := Library("example", "", ["react", "testing-library"], [], []);
    ReactTestTags(lib);
    ReactTestKeeps(lib);
    ReactTestCommaDrops(lib);
  }

  lemma ReactTestKeeps(lib: Library)
    requires lib.tags == ["react", "testing-library"]
    ensures FilterByTagQuery([lib], "react,test") == Success([lib])
  {
    assert "react,test" == "react" + "," + "test";
    ReactTestKeepsAt(lib, "react,test");
  }

  lemma ReactTestKeepsAt(lib: Library, query: string)
    requires lib.tags == ["react", "testing-library"]
    requires query == "react" + "," + "test"
    ensures FilterByTagQuery([lib], query) == Success([lib])
  {
    ReactTestTags(lib);
    ReactIsClean();
    TestIsClean();
    UnfinishedLastTokenMatchesPartOfTag(lib, "react", "test");
  }

  lemma ReactTestCommaDrops(lib: Library)
    requires lib.tags == ["react", "testing-library"]
    ensures FilterByTagQuery([lib], "react,test,") == Success([])
  {
    assert "react,test," == "react" + "," + "test" + ",";
    ReactTestCommaDropsAt(lib, "react,test,");
  }

  lemma ReactTestCommaDropsAt(lib: Library, query: string)
    requires lib.tags == ["react", "testing-library"]
    requires query == "react" + "," + "test" + ","
    ensures FilterByTagQuery([lib], query) == Success([])
  {
    ReactTestTags(lib);
    ReactIsClean();
    TestIsClean();
    FinishedLastTokenNeedsWholeTag(lib, "react", "test");
  }

  lemma ReactTestTags(lib: Library)
    requires lib.tags == ["react", "testing-library"]
    ensures HasExactTag(lib, "react") && HasTagContaining(lib, "test") && !HasExactTag(lib, "test")
  {
    assert Lower(lib.tags[0]) == Lower("react");
    assert Lower("test") == "test" && Lower("testing-library") == "testing-library";
    assert "test" <= "testing-library";
    assert Contains(Lower(lib.tags[1]), Lower("test"));
    assert |Lower(lib.tags[0])| != |Lower("test")|;
    assert |Lower(lib.tags[1])| != |Lower("test")|;
  }

  lemma ReactIsClean()
    ensures IsCleanTag("react")
  {
    forall k | 0 <= k < |"react"| ensures "react"[k] != ',' { }
  }

  lemma TestIsClean()
    ensures IsCleanTag("test")
  {
    forall k | 0 <= k < |"test"| ensures "test"[k] != ',' { }
  }
}
