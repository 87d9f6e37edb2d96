/**
 * The review object the backend returns and the frontend stores: the JSON
 * shape the provider is asked to produce.  Only the fields the application
 * reads are typed; each bug, optimisation, security finding and positive is
 * kept as an opaque string.
 */
module ReviewTypes {
  import opened Wrappers

  datatype Review = Review(
    summary: string,
    score: Option<int>,           // None: the field is absent
    bugs: Option<seq<string>>,    // None: the field is absent
    optimizations: seq<string>,
    security: seq<string>,
    improvedCode: string,         // "" when absent or empty (both falsy)
    positives: seq<string>)
}
