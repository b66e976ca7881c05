/** The three first-match lookups of the catalog: a schema by version, a
    prompt by item id and a URL by its text label. None of them fails; a
    miss is `None` (the source's `null` or `undefined`). */
module Lookups {
  import opened Wrappers
  import opened Catalog
  import Seqs

  /** `findEvaluationSchemaByVersion`: the first schema whose version is `version`. */
  function FindEvaluationSchemaByVersion(schemas: seq<Schema>, version: int): (r: Option<Schema>)
    ensures r.None? <==> forall i :: 0 <= i < |schemas| ==> schemas[i].version != version
    ensures r.Some? ==> exists k :: 0 <= k < |schemas| && schemas[k] == r.value &&
                                    r.value.version == version &&
                                    forall j :: 0 <= j < k ==> schemas[j].version != version
  {
    Seqs.Find(schemas, (s: Schema) => s.version == version)
  }

  /** When versions are unique, the lookup returns the one schema with that version. */
  lemma FindSchemaWithUniqueVersions(schemas: seq<Schema>, i: int)
    requires 0 <= i < |schemas|
    requires forall j, k :: 0 <= j < k < |schemas| ==> schemas[j].version != schemas[k].version
    ensures FindEvaluationSchemaByVersion(schemas, schemas[i].version) == Some(schemas[i])
  {
    var r := FindEvaluationSchemaByVersion(schemas, schemas[i].version);
    assert r.Some?;
    var k :| 0 <= k < |schemas| && schemas[k] == r.value && r.value.version == schemas[i].version &&
             forall j :: 0 <= j < k ==> schemas[j].version != schemas[i].version;
    assert !(i < k) && !(k < i);
  }

  /** `getSectionTierPromptById`: the prompt of the first item with id `id`.
      An item that is found yields its prompt even when that prompt is empty. */
  function SectionTierPromptById(schema: Schema, id: string): (r: Option<string>)
    ensures r.None? <==> forall i :: 0 <= i < |schema.items| ==> schema.items[i].id != id
    ensures r.Some? ==> exists k :: 0 <= k < |schema.items| && schema.items[k].id == id &&
                                    schema.items[k].prompt == r.value &&
                                    forall j :: 0 <= j < k ==> schema.items[j].id != id
  {
    match Seqs.Find(schema.items, (item: SchemaItem) => item.id == id)
    case None => None
    case Some(item) => Some(item.prompt)
  }

  /** `getLibraryUrlByTextDescriptor`: the first URL whose label is exactly
      `urlText` (case-sensitive). */
  function LibraryUrlByTextDescriptor(library: Library, urlText: string): (r: Option<Url>)
    ensures r.None? <==> forall i :: 0 <= i < |library.urls| ==> library.urls[i].text != urlText
    ensures r.Some? ==> exists k :: 0 <= k < |library.urls| && library.urls[k] == r.value &&
                                    r.value.text == urlText &&
                                    forall j :: 0 <= j < k ==> library.urls[j].text != urlText
  {
    Seqs.Find(library.urls, (u: Url) => u.text == urlText)
  }
}
