/** The catalog's entities: checklist schemas, evaluations and libraries, as
    loaded from the bundled dataset. JavaScript objects used as dictionaries
    are association lists in `Object.entries` order. */
module Catalog {
  import opened Wrappers
  import Seqs

  /** A JavaScript object used as a dictionary, as its list of entries. */
  type Entries<V> = seq<(string, V)>

  /** `obj[key]`: the value stored under `key`, or `None` for `undefined`. */
  function Lookup<V>(entries: Entries<V>, key: string): (r: Option<V>)
    ensures r.None? <==> forall i :: 0 <= i < |entries| ==> entries[i].0 != key
    ensures r.Some? ==> exists i :: 0 <= i < |entries| && entries[i] == (key, r.value)
  {
    match Seqs.Find(entries, (e: (string, V)) => e.0 == key)
    case None => None
    case Some(e) => Some(e.1)
  }

  /** One checklist item of a schema: its id and the prompt shown for it. */
  datatype SchemaItem = SchemaItem(id: string, prompt: string)

  /** A versioned checklist schema; `version` is its `@context.@version`. */
  datatype Schema = Schema(version: int, items: seq<SchemaItem>)

  /** Item id to "checked" for one tier of one section. */
  type TierItems = Entries<bool>

  /** Section name to tier name to items. */
  type Checklist = Entries<Entries<TierItems>>

  /** One dated assessment of a library against a schema version. */
  datatype Evaluation = Evaluation(date: string, schemaVersion: int, checklist: Checklist)

  /** A labelled link of a library. */
  datatype Url = Url(text: string, url: string)

  /** A catalog entry. */
  datatype Library = Library(
    name: string,
    description: string,
    tags: seq<string>,
    urls: seq<Url>,
    evaluations: seq<Evaluation>)

  /** The errors the operations throw. */
  datatype Error =
    | NoMatchingSchema       // `throw new Error('No matching schema found!')`
    | NoEvaluation           // `null.checklist`: the library has no evaluation
    | MissingChecklistPath   // the section or the tier is absent from the checklist
    | UndefinedTagQuery      // `undefined.toLowerCase()`: no tag token to match
}
