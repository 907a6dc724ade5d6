/**
 * Values shared by the suggestion pipeline: the checker's action objects,
 * the action kind decoded from the `action` string, the identity key of an
 * error, position spans and the document traversal.
 */
module Types {
  import opened Text

  datatype Option<T> = None | Some(value: T)

  /** A half-open position span `{ from, to }`. */
  datatype Span = Span(from: int, to: int)

  /** One suggestion of the remote checker. Every field but `action` may be
      absent from the JSON object; `absoluteStart`/`absoluteEnd` are the
      fields the client adds once it knows where the sentence lies. */
  datatype Action = Action(
    name: string,                   // `action`
    tokenStart: Option<int>,        // `token_start`
    tokenEnd: Option<int>,          // `token_end`
    original: Option<string>,       // `original`
    realReplacement: Option<string>,// `real_replacement`
    confidence: Option<real>,       // `confidence`
    absoluteStart: Option<int>,     // `absolute_token_start`
    absoluteEnd: Option<int>)       // `absolute_token_end`

  /** The three edit kinds an action string can denote. */
  datatype Kind = Append | Delete | Replace

  const AppendPrefix: string := "$APPEND_"
  const DeleteName: string := "$DELETE"

  /** Decodes an action string the way every caller in the client does:
      the `$APPEND_` prefix is tested first, then equality with `$DELETE`,
      and anything else is a replacement. */
  function KindOf(name: string): (k: Kind)
    ensures k == Append <==> StartsWith(name, AppendPrefix)
    ensures k == Delete <==> name == DeleteName
  {
    if StartsWith(name, AppendPrefix) then Append
    else if name == DeleteName then Delete
    else Replace
  }

  /** What a JavaScript template literal prints for an optional string. */
  function Interpolate(s: Option<string>): string {
    match s
    case None => "undefined"
    case Some(v) => v
  }

  /** The identity `${start}-${end}-${original}` of an error. Positions stay
      optional because an action need not carry its absolute positions; the
      original text is kept as printed, so a missing `original` and the
      literal text "undefined" give the same key, as they do in the source. */
  datatype ErrorKey = ErrorKey(start: Option<int>, end: Option<int>, original: string)

  /** The key `ignoreSuggestion` computes from an action. */
  function KeyOf(a: Action): ErrorKey {
    ErrorKey(a.absoluteStart, a.absoluteEnd, Interpolate(a.original))
  }

  /** One node visited by the document traversal (`doc.descendants`), with
      its absolute position; non-text nodes carry an empty text. */
  datatype DocNode = DocNode(pos: int, isText: bool, text: string, typeName: string)
}
