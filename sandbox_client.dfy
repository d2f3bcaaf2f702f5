/** The sandbox page: it registers the library's providers with its own `getTokenType`
    and legend, and validates its one model `inmemory://model.bmd` itself. */
module SandboxClient {
  import opened Facade
  import opened Editor
  import opened Highlight
  import opened Validation
  import MonacoIndex

  const LANGUAGE_ID: string := "bmd"
  const MODEL_URI: string := "inmemory://model.bmd"
  /** `monaco.Uri.parse(MODEL_URI)`, keyed in the collection by the text it parses. */
  const MONACO_URI: string := MODEL_URI

  /** The library's provider fed with `getTokenType` and `tokenTypes`: the single-line
      check applies. */
  const SANDBOX_POLICY: TokenPolicy := MonacoIndex.IndexPolicy(GetTokenType, TOKEN_TYPES)

  /** On the sandbox page a style is highlighted exactly when `getTokenType` knows its
      name and it starts and ends on one line; its type is then in the page's legend. */
  lemma HighlightedStyle(text: string, positionAt: PositionAt, style: Style)
    ensures Emit(SANDBOX_POLICY, text, positionAt, style).Some? <==>
      && GetTokenType(style.name).Some?
      && positionAt(text, style.offset).line == positionAt(text, style.offset + style.length).line
    ensures Emit(SANDBOX_POLICY, text, positionAt, style).Some? ==>
      Emit(SANDBOX_POLICY, text, positionAt, style).value.tokenType in TOKEN_TYPES
  {
    if GetTokenType(style.name).Some? {
      TokenTypesInLegend(style.name);
    }
  }

  /** The builder never throws on the sandbox page: the single-line check and the
      legend together cover every token it is given. */
  lemma SandboxNeverRejects(text: string, positionAt: PositionAt, styles: seq<Style>)
    ensures AllPushable(SANDBOX_POLICY, text, positionAt, styles)
  {
    forall i | 0 <= i < |styles| {
      HighlightedStyle(text, positionAt, styles[i]);
    }
  }

  /** `validate`: replaces the model's pending timer by one that validates `text` and
      publishes under `MONACO_URI`, without an entry point; every other document's
      timer keeps its job. */
  method Validate(v: Validator, text: string) returns (h: Handle)
    requires v.Valid()
    modifies v
    ensures v.Valid()
    ensures v.pending == old(v.pending)[MODEL_URI := h]
    ensures h !in old(v.armed)
    ensures v.armed == (if MODEL_URI in old(v.pending)
                        then old(v.armed) - {old(v.pending)[MODEL_URI]}
                        else old(v.armed))[h := Job(Document(MODEL_URI, text), MONACO_URI, None)]
    ensures forall h' | h' in v.armed && v.armed[h'].doc.uri == MODEL_URI :: h' == h
    ensures v.collection == old(v.collection) && v.parseLog == old(v.parseLog)
  {
    h := v.Schedule(Job(Document(MODEL_URI, text), MONACO_URI, None));
  }
}
