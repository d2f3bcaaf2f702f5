/** The single-document demo page of the monaco package: untruncated completion labels,
    `getTokenType` highlighting without a line check, and validation of the one model
    `inmemory://model.bmd`. */
module MonacoClient {
  import opened Facade
  import opened Editor
  import opened Highlight
  import opened Validation

  const LANGUAGE_ID: string := "bmd"
  const MODEL_URI: string := "inmemory://model.bmd"
  /** `monaco.Uri.parse(MODEL_URI)`, keyed in the collection by the text it parses. */
  const MONACO_URI: string := MODEL_URI

  /** `provideCompletionItems`: nothing when `predict` fails, otherwise one Text item per
      proposal, in order, labelled by the proposal's whole text. */
  function CompletionItems(result: PredictResult): (items: Option<seq<CompletionItem>>)
    ensures items.None? <==> result.PredictFailed?
    ensures items.Some? ==> |items.value| == |result.proposals|
    ensures items.Some? ==> forall i | 0 <= i < |items.value| ::
      && items.value[i] == CompletionItem(result.proposals[i].text, Text, result.proposals[i])
  {
    match result
    case PredictFailed(_) => None
    case Predicted(proposals) =>
      Some(seq(|proposals|, i requires 0 <= i < |proposals| =>
        CompletionItem(proposals[i].text, Text, proposals[i])))
  }

  /** The page's provider: `getTokenType`, no single-line check, and `tokenTypes` as legend. */
  const CLIENT_POLICY: TokenPolicy := TokenPolicy(GetTokenType, false, TOKEN_TYPES)

  /** A style yields a token exactly when `getTokenType` knows its name, and the token's
      type is one the legend declares. */
  lemma StyleTokenIff(text: string, positionAt: PositionAt, style: Style)
    ensures Emit(CLIENT_POLICY, text, positionAt, style).Some? <==> GetTokenType(style.name).Some?
    ensures Emit(CLIENT_POLICY, text, positionAt, style).Some? ==>
      Emit(CLIENT_POLICY, text, positionAt, style).value.tokenType in TOKEN_TYPES
  {
    if GetTokenType(style.name).Some? {
      TokenTypesInLegend(style.name);
    }
  }

  /** Without the single-line check the builder meets every known style, so it throws
      exactly when some known style starts and ends on different lines. */
  lemma ClientRejection(text: string, positionAt: PositionAt, styles: seq<Style>)
    ensures !AllPushable(CLIENT_POLICY, text, positionAt, styles) <==>
      exists i | 0 <= i < |styles| ::
        && GetTokenType(styles[i].name).Some?
        && positionAt(text, styles[i].offset).line != positionAt(text, styles[i].offset + styles[i].length).line
  {
    forall i | 0 <= i < |styles| {
      StyleTokenIff(text, positionAt, styles[i]);
    }
  }

  /** `provideDocumentSemanticTokens` of the page: a failed parse gives an empty token
      set; a successful one pushes, in style order, the styles `getTokenType` knows,
      and gives nothing at all when one of them spans more than one line. */
  method ProvideDocumentSemanticTokens(text: string, positionAt: PositionAt, result: ParseResult)
    returns (built: Option<seq<SemanticToken>>)
    ensures result.ParseFailed? ==> built == Some([])
    ensures result.Parsed? ==>
      (built.None? <==>
         exists i | 0 <= i < |result.styles| ::
           && GetTokenType(result.styles[i].name).Some?
           && positionAt(text, result.styles[i].offset).line
              != positionAt(text, result.styles[i].offset + result.styles[i].length).line)
    ensures result.Parsed? && built.Some? ==>
      built.value == Tokens(CLIENT_POLICY, text, positionAt, result.styles)
    ensures built.Some? ==> forall t | t in built.value :: t.tokenType in TOKEN_TYPES
  {
    built := ProvideSemanticTokens(CLIENT_POLICY, text, positionAt, result);
    if result.Parsed? {
      ClientRejection(text, positionAt, result.styles);
      if built.Some? {
        forall t | t in built.value
          ensures t.tokenType in TOKEN_TYPES
        {
          TokensMembers(CLIENT_POLICY, text, positionAt, result.styles, t);
          var i :| 0 <= i < |result.styles| && Emit(CLIENT_POLICY, text, positionAt, result.styles[i]) == Some(t);
          StyleTokenIff(text, positionAt, result.styles[i]);
        }
      }
    }
  }

  /** `validate`: replaces the model's pending timer by one that validates `text` and
      publishes under `MONACO_URI`, without an entry point; every other document's
      timer keeps its job. */
  method Validate(v: Validator, text: string) returns (h: Handle)
    requires v.Valid()
    modifies v
    ensures v.Valid()
    ensures v.pending == old(v.pending)[MODEL_URI := h]
    ensures h !in old(v.armed)
    ensures v.armed == (if MODEL_URI in old(v.pending)
                        then old(v.armed) - {old(v.pending)[MODEL_URI]}
                        else old(v.armed))[h := Job(Document(MODEL_URI, text), MONACO_URI, None)]
    ensures forall h' | h' in v.armed && v.armed[h'].doc.uri == MODEL_URI :: h' == h
    ensures v.collection == old(v.collection) && v.parseLog == old(v.parseLog)
  {
    h := v.Schedule(Job(Document(MODEL_URI, text), MONACO_URI, None));
  }
}
