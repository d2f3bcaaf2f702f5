/** The `DieselMonaco` library entry point: completion labels cut at the first line
    feed, semantic tokens limited to single-line ranges, and per-document validation
    scheduled on the shared registry. */
module MonacoIndex {
  import opened Facade
  import opened Editor
  import opened Highlight
  import opened Validation

  /** `String.prototype.indexOf` for one character: the first index of `c`, or -1. */
  function IndexOf(s: string, c: char): (r: int)
    ensures -1 <= r < |s|
    ensures r == -1 <==> c !in s
    ensures r >= 0 ==> s[r] == c && c !in s[..r]
  {
    if s == [] then -1
    else if s[0] == c then 0
    else
      var k := IndexOf(s[1..], c);
      if k == -1 then -1 else k + 1
  }

  /** `getProposalText`: a proposal's text up to, not including, its first line feed. */
  function GetProposalText(p: Proposal): (shown: string)
    ensures '\n' !in p.text ==> shown == p.text
    ensures '\n' in p.text ==> shown < p.text && p.text[|shown|] == '\n'
    ensures '\n' !in shown && shown <= p.text
  {
    var lineFeed := IndexOf(p.text, '\n');
    if lineFeed == -1 then p.text else p.text[..lineFeed]
  }

  /** The label of a label is itself: a proposal text that has been cut has nothing left to cut. */
  lemma ProposalTextIdempotent(p: Proposal)
    ensures GetProposalText(Proposal(GetProposalText(p))) == GetProposalText(p)
  {
  }

  /** `provideCompletionItems`: nothing when `predict` fails, otherwise one Text item per
      proposal, in order, labelled by `getProposalText` and carrying the proposal. */
  function CompletionItems(result: PredictResult): (items: Option<seq<CompletionItem>>)
    ensures items.None? <==> result.PredictFailed?
    ensures items.Some? ==> |items.value| == |result.proposals|
    ensures items.Some? ==> forall i | 0 <= i < |items.value| ::
      && items.value[i].data == result.proposals[i]
      && items.value[i].kind == Text
      && items.value[i].labelText == GetProposalText(result.proposals[i])
      && '\n' !in items.value[i].labelText
      && items.value[i].labelText <= result.proposals[i].text
  {
    match result
    case PredictFailed(_) => None
    case Predicted(proposals) =>
      Some(seq(|proposals|, i requires 0 <= i < |proposals| =>
        CompletionItem(GetProposalText(proposals[i]), Text, proposals[i])))
  }

  /** The style decision of `doRegisterSemanticHighlight`: the caller's `styleToToken`,
      a range whose ends lie on different lines is dropped, and the builder's legend is
      the caller's `tokenTypes`. */
  function IndexPolicy(styleToToken: string -> Option<string>, tokenTypes: seq<string>): (p: TokenPolicy)
  {
    TokenPolicy(styleToToken, true, tokenTypes)
  }

  /** A token appears exactly when some style has a truthy token type and starts and
      ends on the same line; it spans that style and carries that type. */
  lemma SemanticTokenSource(
    styleToToken: string -> Option<string>, tokenTypes: seq<string>, text: string, positionAt: PositionAt,
    styles: seq<Style>, t: SemanticToken)
    ensures t in Tokens(IndexPolicy(styleToToken, tokenTypes), text, positionAt, styles) <==>
      exists i | 0 <= i < |styles| ::
        && Truthy(styleToToken(styles[i].name))
        && positionAt(text, styles[i].offset).line == positionAt(text, styles[i].offset + styles[i].length).line
        && t == SemanticToken(
             Range(positionAt(text, styles[i].offset), positionAt(text, styles[i].offset + styles[i].length)),
             styleToToken(styles[i].name).value)
  {
    TokensMembers(IndexPolicy(styleToToken, tokenTypes), text, positionAt, styles, t);
  }

  /** The single-line check keeps every range the builder sees on one line, so the
      builder can only reject a type that `styleToToken` gives and `tokenTypes` lacks. */
  lemma IndexRejection(
    styleToToken: string -> Option<string>, tokenTypes: seq<string>, text: string, positionAt: PositionAt,
    styles: seq<Style>)
    ensures !AllPushable(IndexPolicy(styleToToken, tokenTypes), text, positionAt, styles) <==>
      exists i | 0 <= i < |styles| ::
        && Emit(IndexPolicy(styleToToken, tokenTypes), text, positionAt, styles[i]).Some?
        && styleToToken(styles[i].name).value !in tokenTypes
  {
  }

  /** The configuration a `DieselMonaco` is built with; `axiom` is the entry point its
      `axiom()` callback yields, if one is given, and `tokenTypes` is the legend of its
      semantic-token provider. */
  datatype DieselMonaco = DieselMonaco(
    modelUri: string,
    monacoUri: string,
    axiom: Option<string>,
    tokenTypes: seq<string>,
    styleToToken: string -> Option<string>)
  {
    /** `provideDocumentSemanticTokens` as `registerSemanticHighlight` registers it: a
        failed parse gives an empty token set; a successful one gives the single-line
        tokens of its styles, or nothing when the builder rejects a type outside the legend. */
    method ProvideDocumentSemanticTokens(text: string, positionAt: PositionAt, result: ParseResult)
      returns (built: Option<seq<SemanticToken>>)
      ensures result.ParseFailed? ==> built == Some([])
      ensures result.Parsed? ==>
        (built.None? <==>
           exists i | 0 <= i < |result.styles| ::
             && Emit(IndexPolicy(styleToToken, tokenTypes), text, positionAt, result.styles[i]).Some?
             && styleToToken(result.styles[i].name).value !in tokenTypes)
      ensures result.Parsed? && built.Some? ==>
        built.value == Tokens(IndexPolicy(styleToToken, tokenTypes), text, positionAt, result.styles)
    {
      built := ProvideSemanticTokens(IndexPolicy(styleToToken, tokenTypes), text, positionAt, result);
      if result.Parsed? {
        IndexRejection(styleToToken, tokenTypes, text, positionAt, result.styles);
      }
    }

    /** `validateDocument` / `doValidateDocument`: the document is keyed by `modelUri`,
        its diagnostics go to `monacoUri`, and its earlier pending timer is replaced;
        every other document's timer keeps its job. */
    method ValidateDocument(v: Validator, text: string) returns (h: Handle)
      requires v.Valid()
      modifies v
      ensures v.Valid()
      ensures v.pending == old(v.pending)[modelUri := h]
      ensures h !in old(v.armed)
      ensures v.armed == (if modelUri in old(v.pending)
                          then old(v.armed) - {old(v.pending)[modelUri]}
                          else old(v.armed))[h := Job(Document(modelUri, text), monacoUri, axiom)]
      ensures forall h' | h' in v.armed && v.armed[h'].doc.uri == modelUri :: h' == h
      ensures v.collection == old(v.collection) && v.parseLog == old(v.parseLog)
    {
      h := v.Schedule(Job(Document(modelUri, text), monacoUri, axiom));
    }
  }
}
