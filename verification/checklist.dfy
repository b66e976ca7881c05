/** Scoring a checklist tier and turning its raw item ids into display
    prompts. */
module Checklist {
  import opened Wrappers
  import opened Catalog
  import opened Lookups
  import Seqs

  /** Every item of the tier is checked (vacuously so for an empty tier). */
  predicate AllChecked(items: TierItems) {
    forall i :: 0 <= i < |items| ==> items[i].1
  }

  /** The checked flags of the tier, in entry order (`Object.values`). */
  function Flags(items: TierItems): (r: seq<bool>)
    ensures |r| == |items|
    ensures forall i :: 0 <= i < |items| ==> r[i] == items[i].1
  {
    seq(|items|, i requires 0 <= i < |items| => items[i].1)
  }

  /** How many items are checked. */
  function CheckedCount(items: TierItems): (n: nat)
    ensures n == multiset(Flags(items))[true]
    ensures n <= |items|
    ensures n == |items| <==> AllChecked(items)
    ensures n == 0 <==> forall i :: 0 <= i < |items| ==> !items[i].1
    decreases |items|
  {
    if |items| == 0 then 0
    else
      var rest := CheckedCount(items[1..]);
      assert Flags(items) == [items[0].1] + Flags(items[1..]);
      assert forall i :: 1 <= i < |items| ==> items[i] == items[1..][i - 1];
      (if items[0].1 then 1 else 0) + rest
  }

  /** The result of `mungeChecklistValue`: checked items over all items. */
  datatype Fraction = Fraction(numerator: nat, denominator: nat)

  /** `mungeChecklistValue`: the numerator counts the checked items, the
      denominator counts all items; the tier is complete exactly when they agree. */
  function MungeChecklistValue(items: TierItems): (r: Fraction)
    ensures r.denominator == |items|
    ensures r.numerator == multiset(Flags(items))[true]
    ensures r.numerator <= r.denominator
    ensures r.numerator == r.denominator <==> AllChecked(items)
  {
    Fraction(CheckedCount(items), |items|)
  }

  /** Scores add up over the concatenation of two tiers. */
  lemma MungeChecklistValueConcat(a: TierItems, b: TierItems)
    ensures MungeChecklistValue(a + b).numerator ==
            MungeChecklistValue(a).numerator + MungeChecklistValue(b).numerator
    ensures MungeChecklistValue(a + b).denominator ==
            MungeChecklistValue(a).denominator + MungeChecklistValue(b).denominator
  {
    assert Flags(a + b) == Flags(a) + Flags(b);
    assert multiset(Flags(a + b)) == multiset(Flags(a)) + multiset(Flags(b));
  }

  /** `{a: true, b: false, c: true}` scores two out of three. */
  lemma MungeChecklistValueExample()
    ensures MungeChecklistValue([("a", true), ("b", false), ("c", true)]) == Fraction(2, 3)
  {
    var items: TierItems := [("a", true), ("b", false), ("c", true)];
    assert Flags(items) == [true, false, true];
    assert multiset([true, false, true])[true] == 2;
  }

  /** One munged checklist entry: the prompt shown and the recorded value. */
  datatype MungedItem = MungedItem(prompt: string, value: bool)

  /** The item has a prompt that is not the empty string (a truthy prompt). */
  predicate Displayable(schema: Schema, id: string) {
    var p := SectionTierPromptById(schema, id);
    p.Some? && p.value != ""
  }

  /** The loop of `mungeChecklistSectionTier` for a resolved schema: each entry
      with a truthy prompt becomes a prompt/value pair; the rest are dropped. */
  function MungeEntries(entries: TierItems, schema: Schema): (r: seq<MungedItem>)
    ensures |r| <= |entries|
    ensures forall i :: 0 <= i < |r| ==> r[i].prompt != ""
    decreases |entries|
  {
    if |entries| == 0 then []
    else
      var rest := MungeEntries(entries[1..], schema);
      var prompt := SectionTierPromptById(schema, entries[0].0);
      if prompt.Some? && prompt.value != "" then [MungedItem(prompt.value, entries[0].1)] + rest
      else rest
  }

  /** Munging is "keep the displayable entries in order, then relabel": the
      i-th output is the i-th kept entry with its id replaced by its prompt
      and its value unchanged. */
  lemma {:induction false} MungeEntriesKeepsDisplayable(entries: TierItems, schema: Schema)
    ensures var kept := Seqs.Filter(entries, (e: (string, bool)) => Displayable(schema, e.0));
            var r := MungeEntries(entries, schema);
            && |r| == |kept|
            && forall i :: 0 <= i < |r| ==>
                 Displayable(schema, kept[i].0) &&
                 r[i] == MungedItem(SectionTierPromptById(schema, kept[i].0).value, kept[i].1)
    decreases |entries|
  {
    if |entries| > 0 {
      MungeEntriesKeepsDisplayable(entries[1..], schema);
    }
  }

  /** `mungeChecklistSectionTier`: fails exactly when no schema has the
      requested version; otherwise munges the entries against the first
      schema with that version. */
  function MungeChecklistSectionTier(entries: TierItems, schemaVersion: int, schemas: seq<Schema>)
    : (r: Result<seq<MungedItem>, Error>)
    ensures r.Failure? <==> forall i :: 0 <= i < |schemas| ==> schemas[i].version != schemaVersion
    ensures r.Failure? ==> r.error == NoMatchingSchema
    ensures r.Success? ==> |r.value| <= |entries|
    ensures r.Success? ==> forall i :: 0 <= i < |r.value| ==> r.value[i].prompt != ""
  {
    match FindEvaluationSchemaByVersion(schemas, schemaVersion)
    case None => Failure(NoMatchingSchema)
    case Some(schema) => Success(MungeEntries(entries, schema))
  }

  /** On success, the output lists, in input order, exactly the entries
      with a truthy prompt in the first schema of the requested version,
      each relabelled with that prompt and keeping its value. */
  lemma MungeChecklistSectionTierLists(entries: TierItems, schemaVersion: int, schemas: seq<Schema>)
    ensures var r := MungeChecklistSectionTier(entries, schemaVersion, schemas);
            r.Success? ==>
              var schema := FindEvaluationSchemaByVersion(schemas, schemaVersion).value;
              var kept := Seqs.Filter(entries, (e: (string, bool)) => Displayable(schema, e.0));
              && schema.version == schemaVersion
              && |r.value| == |kept|
              && forall i :: 0 <= i < |r.value| ==>
                   Displayable(schema, kept[i].0) &&
                   r.value[i] == MungedItem(SectionTierPromptById(schema, kept[i].0).value, kept[i].1)
  {
    var found := FindEvaluationSchemaByVersion(schemas, schemaVersion);
    if found.Some? {
      MungeEntriesKeepsDisplayable(entries, found.value);
    }
  }

  /** When every entry has a truthy prompt nothing is dropped: the output lists
      the entries' prompts and values position by position. */
  lemma MungeEntriesKeepsAll(entries: TierItems, schema: Schema)
    requires forall i :: 0 <= i < |entries| ==> Displayable(schema, entries[i].0)
    ensures |MungeEntries(entries, schema)| == |entries|
    ensures forall i :: 0 <= i < |entries| ==>
              Displayable(schema, entries[i].0) &&
              MungeEntries(entries, schema)[i] ==
              MungedItem(SectionTierPromptById(schema, entries[i].0).value, entries[i].1)
  {
    var p := (e: (string, bool)) => Displayable(schema, e.0);
    Seqs.FilterKeepsAll(entries, p);
    MungeEntriesKeepsDisplayable(entries, schema);
  }
}
